/**
 * The request pipeline (pipeline/request_pipeline.rs, `RequestPipeline`).
 *
 * For one request: a fresh `PipelineData` holds the request, the initial data and an
 * empty command queue; each middleware runs in order and the queue is drained right
 * after it; then the controller gives the response. The queue is not drained after
 * the controller, and no middleware can stop the chain: the only way a request does
 * not reach the controller is a parameter that cannot be fetched, where the source
 * panics (`Aborted` here).
 */
module RequestPipelines {
  import opened Wrappers
  import opened DataContainers
  import opened PipelineState
  import opened Params
  import opened Middlewares
  import opened FunctionControllers
  import Requests
  import Responses

  datatype Outcome = Responded(response: Responses.Response) | Aborted

  /** The state after the command queue is drained (commands.rs:16-22). */
  function Drain(s: State): (r: State)
    ensures r.request == s.request && r.queued == []
    ensures forall i :: 0 <= i < |s.queued| && (forall j :: i < j < |s.queued| ==> s.queued[j].value.tag != s.queued[i].value.tag) ==>
      Lookup(r.data, s.queued[i].value.tag) == Some(s.queued[i].value)
    ensures s.data.Keys <= r.data.Keys
    ensures TagsMatch(s.data) ==> TagsMatch(r.data)
  {
    forall i | 0 <= i < |s.queued| && (forall j :: i < j < |s.queued| ==> s.queued[j].value.tag != s.queued[i].value.tag)
      ensures Lookup(ApplyAll(s.data, s.queued), s.queued[i].value.tag) == Some(s.queued[i].value)
    {
      ApplyAllLastWins(s.data, s.queued, i);
    }
    ApplyAllGrows(s.data, s.queued);
    State(s.request, ApplyAll(s.data, s.queued), [])
  }

  /** The middleware chain from `s`: each middleware, then a drain; `None` where one cannot run. */
  function Run(middlewares: seq<Middleware>, s: State): Option<State>
    decreases |middlewares|
  {
    if |middlewares| == 0 then Some(s)
    else if !middlewares[0].CanRun(s) then None
    else Run(middlewares[1..], Drain(middlewares[0].Apply(s)))
  }

  datatype RequestPipeline = RequestPipeline(middlewares: seq<Middleware>, controller: FunctionController)
  {
    /** What `handle` gives for a request and the initial data. */
    function Outcome(request: Requests.Request, data: map<TypeTag, Value>): Outcome
    {
      match Run(middlewares, State(request, data, []))
      case None => Aborted
      case Some(s) =>
        if Available(controller.params, s) then Responded(controller.Respond(s)) else Aborted
    }

    /**
     * `RequestPipeline::handle` (request_pipeline.rs:34-45). The source takes the
     * container by value, so the caller's container is never written: the pipeline
     * works on its own copy.
     */
    method Handle(request: Requests.Request, data: DataContainer) returns (outcome: Outcome)
      ensures outcome == Outcome(request, data.data)
    {
      var empty := new DataContainer();
      var own := data.Combine(empty);
      assert own.data == data.data;
      var pipeline := new PipelineData(request, own);
      var i := 0;
      while i < |middlewares|
        invariant 0 <= i <= |middlewares|
        invariant pipeline.data == own && fresh(own) && fresh(pipeline.commandQueue)
        invariant pipeline.commandQueue.commands == []
        invariant Run(middlewares[i..], pipeline.Snapshot()) == Run(middlewares, State(request, data.data, []))
      {
        if !middlewares[i].CanRun(pipeline.Snapshot()) {
          return Aborted;
        }
        middlewares[i].Handle(pipeline);
        pipeline.commandQueue.Execute(pipeline);
        assert middlewares[i..][1..] == middlewares[i + 1..];
        i := i + 1;
      }
      if !Available(controller.params, pipeline.Snapshot()) {
        return Aborted;
      }
      var response := controller.Handle(pipeline);
      outcome := Responded(response);
    }
  }

  /** `RequestPipeline::new` (request_pipeline.rs:23-28): no middlewares yet. */
  function New(controller: FunctionController): (p: RequestPipeline)
    ensures p.middlewares == [] && p.controller == controller
  {
    RequestPipeline([], controller)
  }

  /** `RequestPipeline::controller` (request_pipeline.rs:30-32), also `into_pipeline` of a function (request_pipeline.rs:77-83). */
  function FromController(params: seq<ParamKind>, f: seq<Item> -> (seq<Command>, Responses.Returned)): (p: RequestPipeline)
    requires |params| <= 4
    ensures p.middlewares == [] && p.controller.params == params && p.controller.f == f
  {
    New(IntoController(params, f))
  }

  /** Middlewares run in order: a chain split in two is the first part, then the second from where it left off. */
  lemma {:induction false} RunAppend(first: seq<Middleware>, second: seq<Middleware>, s: State)
    ensures Run(first + second, s) == match Run(first, s) case None => None case Some(t) => Run(second, t)
    decreases |first|
  {
    if |first| == 0 {
      assert first + second == second;
    } else if first[0].CanRun(s) {
      assert (first + second)[1..] == first[1..] + second;
      RunAppend(first[1..], second, Drain(first[0].Apply(s)));
    }
  }

  /** Along the chain data is only added, and after any middleware the queue is empty. */
  lemma {:induction false} RunGrows(middlewares: seq<Middleware>, s: State)
    requires Run(middlewares, s).Some?
    ensures s.data.Keys <= Run(middlewares, s).value.data.Keys
    ensures TagsMatch(s.data) ==> TagsMatch(Run(middlewares, s).value.data)
    ensures |middlewares| > 0 ==> Run(middlewares, s).value.queued == []
    ensures |middlewares| == 0 ==> Run(middlewares, s).value == s
    decreases |middlewares|
  {
    if |middlewares| > 0 {
      RunGrows(middlewares[1..], Drain(middlewares[0].Apply(s)));
    }
  }

  /**
   * No middleware short-circuits: the request reaches the controller exactly when every
   * middleware and the controller can fetch their parameters, and then the response is
   * the controller's, given the state the last middleware left.
   */
  lemma ReachesController(p: RequestPipeline, request: Requests.Request, data: map<TypeTag, Value>)
    ensures p.Outcome(request, data).Responded? <==>
      Run(p.middlewares, State(request, data, [])).Some? &&
      Available(p.controller.params, Run(p.middlewares, State(request, data, [])).value)
    ensures p.Outcome(request, data).Responded? ==>
      p.Outcome(request, data).response == p.controller.Respond(Run(p.middlewares, State(request, data, [])).value)
  {
  }

  /** A pipeline with no middlewares hands the request and initial data straight to the controller. */
  lemma NewRunsControllerOnly(c: FunctionController, request: Requests.Request, data: map<TypeTag, Value>)
    ensures Available(c.params, State(request, data, [])) ==>
      New(c).Outcome(request, data) == Responded(c.Respond(State(request, data, [])))
    ensures !Available(c.params, State(request, data, [])) ==> New(c).Outcome(request, data) == Aborted
  {
  }

  /**
   * Commands the controller enqueues are never executed: two controllers with the same
   * parameters that return the same values give the same outcome, whatever they enqueue.
   */
  lemma ControllerCommandsDropped(ms: seq<Middleware>, c1: FunctionController, c2: FunctionController,
                                  request: Requests.Request, data: map<TypeTag, Value>)
    requires c1.params == c2.params
    requires forall items :: c1.f(items).1 == c2.f(items).1
    ensures RequestPipeline(ms, c1).Outcome(request, data) == RequestPipeline(ms, c2).Outcome(request, data)
  {
  }

  /**
   * Data a middleware enqueues reaches the next handler: once the queue is drained, the
   * last value enqueued for a type is what `Data` of that type fetches.
   */
  lemma EnqueuedDataVisibleAfterDrain(m: Middleware, s: State, i: nat)
    requires m.CanRun(s)
    requires |s.queued| <= i < |m.Apply(s).queued|
    requires forall j :: i < j < |m.Apply(s).queued| ==> m.Apply(s).queued[j].value.tag != m.Apply(s).queued[i].value.tag
    ensures Fetch(DataOf(m.Apply(s).queued[i].value.tag), Drain(m.Apply(s))) == Some(DataItem(Data(m.Apply(s).queued[i].value)))
  {
  }

  /**
   * A middleware that enqueues one value feeds a controller that asks for that value's
   * type: the request is answered, and the controller sees exactly that value.
   */
  lemma MiddlewareFeedsController(m: Middleware, c: FunctionController, request: Requests.Request,
                                  data: map<TypeTag, Value>, v: Value)
    requires m.ParamMiddleware? && Available(m.params, State(request, data, []))
    requires m.g(FetchAll(m.params, State(request, data, [])).value) == [AddData(v)]
    requires c.params == [DataOf(v.tag)]
    ensures RequestPipeline([m], c).Outcome(request, data) ==
      Responded(Responses.IntoResponse(c.f([DataItem(Data(v))]).1))
  {
    var s := State(request, data, []);
    assert m.Apply(s).queued == [AddData(v)];
    var t := Drain(m.Apply(s));
    assert Lookup(t.data, v.tag) == Some(v);
    assert Run([m], s) == Run([], t);
    assert FetchAll(c.params, t).value == [DataItem(Data(v))];
  }
}

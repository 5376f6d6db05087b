/**
 * Configured controllers (pipeline/controller.rs:94-126): a controller together with
 * the middlewares put in front of it, in the order they were added.
 */
module Controllers {
  import opened Wrappers
  import opened PipelineState
  import opened Params
  import opened Middlewares
  import opened FunctionControllers
  import opened RequestPipelines
  import Requests
  import Responses
  import DataContainers

  datatype ConfiguredController = ConfiguredController(controller: FunctionController, middlewares: seq<Middleware>)
  {
    /** `ConfiguredController::with_middleware` (controller.rs:112-117): one more middleware, after the others. */
    function WithMiddleware(m: Middleware): (c: ConfiguredController)
      ensures c.controller == controller && c.middlewares == middlewares + [m]
    {
      ConfiguredController(controller, middlewares + [m])
    }

    /** `into_pipeline` (controller.rs:119-126): the same controller and middlewares. */
    function IntoPipeline(): (p: RequestPipeline)
      ensures p.controller == controller && p.middlewares == middlewares
    {
      RequestPipeline(middlewares, controller)
    }
  }

  /**
   * `ConfigurableController::with_middleware` on a controller function
   * (controller.rs:98-105): the function wrapped as a controller, with this first middleware.
   */
  function Configure(params: seq<ParamKind>, f: seq<Item> -> (seq<Command>, Responses.Returned), m: Middleware): (c: ConfiguredController)
    requires |params| <= 4
    ensures c.controller.params == params && c.controller.f == f && c.middlewares == [m]
  {
    ConfiguredController(IntoController(params, f), [m])
  }

  /**
   * The middleware added first runs first: the pipeline of `with_middleware(m1)` then
   * `.with_middleware(m2)` runs `m1`, drains the queue, and continues as the pipeline
   * that has only `m2` in front of the controller.
   */
  lemma FirstAddedRunsFirst(params: seq<ParamKind>, f: seq<Item> -> (seq<Command>, Responses.Returned),
                            m1: Middleware, m2: Middleware, request: Requests.Request,
                            data: map<DataContainers.TypeTag, DataContainers.Value>)
    requires |params| <= 4
    ensures Configure(params, f, m1).WithMiddleware(m2).IntoPipeline().middlewares == [m1, m2]
    ensures var p := Configure(params, f, m1).WithMiddleware(m2).IntoPipeline();
      var s := State(request, data, []);
      p.Outcome(request, data) ==
        if !m1.CanRun(s) then Aborted
        else
          var t := Drain(m1.Apply(s));
          RequestPipeline([m2], p.controller).Outcome(t.request, t.data)
  {
    var p := Configure(params, f, m1).WithMiddleware(m2).IntoPipeline();
    var s := State(request, data, []);
    assert [m1] + [m2] == [m1, m2];
    RunAppend([m1], [m2], s);
    if m1.CanRun(s) {
      var t := Drain(m1.Apply(s));
      assert Run([m1], s) == Some(t);
      assert t == State(t.request, t.data, []);
    }
  }

  /** Adding middlewares one by one keeps them in the order of the calls. */
  lemma {:induction false} WithMiddlewaresInOrder(c: ConfiguredController, ms: seq<Middleware>)
    ensures WithMiddlewares(c, ms).middlewares == c.middlewares + ms
    ensures WithMiddlewares(c, ms).controller == c.controller
    decreases |ms|
  {
    if |ms| == 0 {
      assert c.middlewares + ms == c.middlewares;
    } else {
      WithMiddlewaresInOrder(c, ms[..|ms| - 1]);
      assert c.middlewares + ms[..|ms| - 1] + [ms[|ms| - 1]] == c.middlewares + ms;
    }
  }

  /** A chain of `with_middleware` calls, one per element of `ms`. */
  function WithMiddlewares(c: ConfiguredController, ms: seq<Middleware>): ConfiguredController
    decreases |ms|
  {
    if |ms| == 0 then c else WithMiddlewares(c, ms[..|ms| - 1]).WithMiddleware(ms[|ms| - 1])
  }
}

/**
 * Middlewares (pipeline/middleware.rs).
 *
 * A middleware is a user function wrapped into a handler. The raw form receives
 * `&mut PipelineData`: it may replace the request, add data at once, read what is
 * stored and enqueue commands. The parameter form receives fetched parameters only,
 * all of them shared references or handles, so its one way to change the pipeline is
 * to enqueue commands. The user function itself is a parameter of the model.
 */
module Middlewares {
  import opened Wrappers
  import opened DataContainers
  import opened PipelineState
  import opened Params
  import Requests

  /**
   * What a raw middleware does to the pipeline it is handed: the request it leaves
   * there, the `add_data` calls it makes directly (as commands run at once, in order)
   * and the commands it enqueues.
   */
  datatype RawEffect = RawEffect(request: Requests.Request, added: seq<Command>, enqueued: seq<Command>)

  datatype Middleware =
    | RawMiddleware(f: State -> RawEffect)
    | ParamMiddleware(params: seq<ParamKind>, g: seq<Item> -> seq<Command>)
  {
    /** The parameter form unwraps every fetch; the raw form needs nothing. */
    predicate CanRun(s: State)
    {
      RawMiddleware? || Available(params, s)
    }

    /** The pipeline state after this middleware's `handle`. */
    function Apply(s: State): (r: State)
      requires CanRun(s)
      ensures |s.queued| <= |r.queued| && r.queued[..|s.queued|] == s.queued
      ensures ParamMiddleware? ==> r.request == s.request && r.data == s.data
      ensures s.data.Keys <= r.data.Keys
      ensures TagsMatch(s.data) ==> TagsMatch(r.data)
    {
      ApplyAllGrows(s.data, if RawMiddleware? then f(s).added else []);
      match this
      case RawMiddleware(f) =>
        var effect := f(s);
        State(effect.request, ApplyAll(s.data, effect.added), s.queued + effect.enqueued)
      case ParamMiddleware(params, g) =>
        s.(queued := s.queued + g(FetchAll(params, s).value))
    }

    /**
     * `MiddlewareHandler::handle`: the raw form (middleware.rs:32-48) calls the function
     * on the pipeline; the parameter form (middleware.rs:75-91) fetches its parameters
     * in order and then calls the function once with them.
     */
    method Handle(pipeline: PipelineData)
      requires CanRun(pipeline.Snapshot())
      modifies pipeline, pipeline.data, pipeline.commandQueue
      ensures pipeline.Snapshot() == Apply(old(pipeline.Snapshot()))
    {
      match this
      case RawMiddleware(f) =>
        var effect := f(pipeline.Snapshot());
        pipeline.request := effect.request;
        pipeline.data.data := ApplyAll(pipeline.data.data, effect.added);
        pipeline.commandQueue.commands := pipeline.commandQueue.commands + effect.enqueued;
      case ParamMiddleware(params, g) =>
        var items := FetchAll(params, pipeline.Snapshot()).value;
        var commands := g(items);
        pipeline.commandQueue.commands := pipeline.commandQueue.commands + commands;
    }
  }

  /** `into_middleware` of a `&mut PipelineData` function (middleware.rs:52-61). */
  function IntoRawMiddleware(f: State -> RawEffect): (m: Middleware)
    ensures m.RawMiddleware? && m.f == f
  {
    RawMiddleware(f)
  }

  /**
   * `into_middleware` of a function of up to four parameters (middleware.rs:96-127):
   * the function is wrapped, not called.
   */
  function IntoParamMiddleware(params: seq<ParamKind>, g: seq<Item> -> seq<Command>): (m: Middleware)
    requires |params| <= 4
    ensures m.ParamMiddleware? && m.params == params && m.g == g
  {
    ParamMiddleware(params, g)
  }
}

/**
 * Function controllers (pipeline/function_controller.rs).
 *
 * A controller is a user function of up to four fetched parameters whose result is
 * turned into a response. It sees the pipeline through shared references only, so the
 * one thing it can change is the command queue, through a `Commands` parameter. The
 * user function is a parameter of the model: it gives the commands it enqueues and
 * the value it returns.
 */
module FunctionControllers {
  import opened Wrappers
  import opened PipelineState
  import opened Params
  import Responses

  datatype FunctionController = FunctionController(
    params: seq<ParamKind>,
    f: seq<Item> -> (seq<Command>, Responses.Returned))
  {
    /** The response this controller gives for a pipeline in state `s`. */
    function Respond(s: State): Responses.Response
      requires Available(params, s)
    {
      Responses.IntoResponse(f(FetchAll(params, s).value).1)
    }

    /**
     * `Controller::handle` (function_controller.rs:35-51): fetch every parameter in
     * order (an unwrap each), call the function exactly once and convert its result
     * with `into_response`. The pipeline's request and data are left as they were.
     */
    method Handle(pipeline: PipelineData) returns (response: Responses.Response)
      requires Available(params, pipeline.Snapshot())
      modifies pipeline.commandQueue
      ensures response == Respond(old(pipeline.Snapshot()))
      ensures pipeline.commandQueue.commands ==
        old(pipeline.commandQueue.commands) + f(FetchAll(params, old(pipeline.Snapshot())).value).0
    {
      var items := FetchAll(params, pipeline.Snapshot()).value;
      var result := f(items);
      pipeline.commandQueue.commands := pipeline.commandQueue.commands + result.0;
      response := Responses.IntoResponse(result.1);
    }
  }

  /**
   * `into_controller` (function_controller.rs:56-90): the function wrapped, not called,
   * for every arity from none to four parameters.
   */
  function IntoController(params: seq<ParamKind>, f: seq<Item> -> (seq<Command>, Responses.Returned)): (c: FunctionController)
    requires |params| <= 4
    ensures c.params == params && c.f == f
  {
    FunctionController(params, f)
  }
}

/**
 * Handler parameters (pipeline/controller.rs, `ControllerParam`, and the `Commands`
 * parameter of pipeline/commands.rs).
 *
 * A controller or middleware function declares the parameters it wants by type; each
 * is fetched from the pipeline before the call. Only `Data<T>` can be missing: the
 * pipeline reference, the request and the command handle are always there.
 */
module Params {
  import opened Wrappers
  import opened DataContainers
  import opened PipelineState
  import Requests

  /** The parameter types a handler can declare. */
  datatype ParamKind =
    | PipelineRef        // &PipelineData
    | RequestRef         // &Request
    | DataOf(tag: TypeTag) // Data<T>, T named by its tag
    | CommandsHandle     // Commands

  /** `Data<T>` (controller.rs:34-38): a shared handle on one stored value. */
  datatype Data = Data(data: Value)
  {
    /** `get_type_id` (controller.rs:50-52): the type the handle was fetched for. */
    function TypeId(): (t: TypeTag)
      ensures t == data.tag
    {
      data.tag
    }

    /** `Deref` (controller.rs:78-84): the stored value itself. */
    function Deref(): (v: Value)
      ensures v == data
    {
      data
    }

    /** `Clone` (controller.rs:40-47): another handle on the same shared value. */
    function Clone(): (c: Data)
      ensures c.Deref() == Deref() && c.TypeId() == TypeId()
    {
      Data(data)
    }
  }

  /** What a fetched parameter hands to the function. */
  datatype Item =
    | PipelineItem(view: State)
    | RequestItem(request: Requests.Request)
    | DataItem(handle: Data)
    | CommandsItem   // always the pipeline's own queue, see `FetchCommands`

  /** Every `Data<T>` parameter in `kinds` has a stored value of its type. */
  predicate Available(kinds: seq<ParamKind>, s: State)
  {
    forall i :: 0 <= i < |kinds| && kinds[i].DataOf? ==> Lookup(s.data, kinds[i].tag).Some?
  }

  /**
   * `ControllerParam::fetch`: `&PipelineData` (controller.rs:25-31), `&Request`
   * (controller.rs:86-92) and `Commands` (commands.rs:62-68) always succeed;
   * `Data<T>` (controller.rs:64-75) is the container's `get`.
   */
  function Fetch(kind: ParamKind, s: State): (r: Option<Item>)
    ensures r.None? <==> kind.DataOf? && Lookup(s.data, kind.tag).None?
    ensures kind.PipelineRef? ==> r == Some(PipelineItem(s))
    ensures kind.RequestRef? ==> r == Some(RequestItem(s.request))
    ensures kind.DataOf? && r.Some? ==>
      r.value.DataItem? && r.value.handle.TypeId() == kind.tag && Some(r.value.handle.Deref()) == Lookup(s.data, kind.tag)
  {
    match kind
    case PipelineRef => Some(PipelineItem(s))
    case RequestRef => Some(RequestItem(s.request))
    case DataOf(tag) =>
      (match Lookup(s.data, tag)
       case Some(v) => Some(DataItem(Data(v)))
       case None => None)
    case CommandsHandle => Some(CommandsItem)
  }

  /**
   * The `let p = P::fetch(pipeline).unwrap()` lines of the handler adapters: all
   * parameters in declaration order, or nothing when one of them is missing (where
   * the source panics).
   */
  function FetchAll(kinds: seq<ParamKind>, s: State): (r: Option<seq<Item>>)
    ensures r.Some? <==> Available(kinds, s)
    ensures r.Some? ==> |r.value| == |kinds|
    ensures r.Some? ==> forall i :: 0 <= i < |kinds| ==> Fetch(kinds[i], s) == Some(r.value[i])
  {
    if |kinds| == 0 then Some([])
    else
      match Fetch(kinds[0], s)
      case None => None
      case Some(item) =>
        match FetchAll(kinds[1..], s)
        case None => None
        case Some(items) => Some([item] + items)
  }

  /** Data only grows, so a parameter that could be fetched still can be later. */
  lemma AvailableGrows(kinds: seq<ParamKind>, s: State, later: State)
    requires TagsMatch(later.data) && s.data.Keys <= later.data.Keys
    requires Available(kinds, s)
    ensures Available(kinds, later)
  {
  }
}

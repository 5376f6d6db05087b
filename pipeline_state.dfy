/**
 * The state one request carries through its pipeline (pipeline/request_pipeline.rs,
 * `PipelineData`) and the deferred command queue beside it (pipeline/commands.rs).
 *
 * A handler cannot add data to the pipeline directly through a parameter; it
 * enqueues an `AddData` command on the shared queue instead, and the pipeline applies
 * the queued commands, in the order they were enqueued, after each middleware.
 */
module PipelineState {
  import opened Wrappers
  import opened DataContainers
  import Requests

  /** `AddData<T>`, the one `CommandAction` the source defines. */
  datatype Command = AddData(value: Value)

  /** The data after applying `commands` in order, each one an `add` of its value. */
  function ApplyAll(data: map<TypeTag, Value>, commands: seq<Command>): map<TypeTag, Value>
  {
    if |commands| == 0 then data
    else
      var last := commands[|commands| - 1].value;
      ApplyAll(data, commands[..|commands| - 1])[last.tag := last]
  }

  /** Applying a queue in two parts is applying it all: commands run first in, first out. */
  lemma {:induction false} ApplyAllAppend(data: map<TypeTag, Value>, first: seq<Command>, second: seq<Command>)
    ensures ApplyAll(data, first + second) == ApplyAll(ApplyAll(data, first), second)
    decreases |second|
  {
    if |second| == 0 {
      assert first + second == first;
    } else {
      assert (first + second)[..|first + second| - 1] == first + second[..|second| - 1];
      ApplyAllAppend(data, first, second[..|second| - 1]);
    }
  }

  /** A type that no queued command adds keeps its earlier entry. */
  lemma {:induction false} ApplyAllUntouched(data: map<TypeTag, Value>, commands: seq<Command>, tag: TypeTag)
    requires forall i :: 0 <= i < |commands| ==> commands[i].value.tag != tag
    ensures Lookup(ApplyAll(data, commands), tag) == Lookup(data, tag)
    decreases |commands|
  {
    if |commands| > 0 {
      ApplyAllUntouched(data, commands[..|commands| - 1], tag);
    }
  }

  /** After the queue runs, a type holds the value of the LAST command that added it. */
  lemma {:induction false} ApplyAllLastWins(data: map<TypeTag, Value>, commands: seq<Command>, i: nat)
    requires i < |commands|
    requires forall j :: i < j < |commands| ==> commands[j].value.tag != commands[i].value.tag
    ensures Lookup(ApplyAll(data, commands), commands[i].value.tag) == Some(commands[i].value)
    decreases |commands|
  {
    var init := commands[..|commands| - 1];
    if i < |commands| - 1 {
      assert init[i] == commands[i];
      assert forall j :: i < j < |init| ==> init[j] == commands[j];
      ApplyAllLastWins(data, init, i);
    }
  }

  /** Two adds of the same type: the later one is what remains. */
  lemma LaterAddWins(data: map<TypeTag, Value>, v1: Value, v2: Value)
    requires v1.tag == v2.tag
    ensures Lookup(ApplyAll(data, [AddData(v1), AddData(v2)]), v1.tag) == Some(v2)
  {
    ApplyAllLastWins(data, [AddData(v1), AddData(v2)], 1);
  }

  /** Commands only add: no entry is ever removed, and entries stay under their own type. */
  lemma {:induction false} ApplyAllGrows(data: map<TypeTag, Value>, commands: seq<Command>)
    ensures data.Keys <= ApplyAll(data, commands).Keys
    ensures TagsMatch(data) ==> TagsMatch(ApplyAll(data, commands))
    decreases |commands|
  {
    if |commands| > 0 {
      ApplyAllGrows(data, commands[..|commands| - 1]);
    }
  }

  /** What a handler can observe of `PipelineData`: the request, the data and the queued commands. */
  datatype State = State(request: Requests.Request, data: map<TypeTag, Value>, queued: seq<Command>)

  /** The queue behind `Arc<Mutex<Vec<Box<dyn CommandAction>>>>`. */
  class CommandQueue {
    var commands: seq<Command>

    /** `CommandQueue::new` (commands.rs:10-14). */
    constructor ()
      ensures commands == []
    {
      commands := [];
    }

    /**
     * `CommandQueue::execute` (commands.rs:16-22): every queued command in order, each
     * an `add_data` on the pipeline (commands.rs:57-59), then the queue is cleared.
     */
    method Execute(pipeline: PipelineData)
      requires pipeline.commandQueue == this
      modifies this, pipeline.data
      ensures pipeline.data.data == ApplyAll(old(pipeline.data.data), old(commands))
      ensures commands == []
    {
      var i := 0;
      while i < |commands|
        invariant 0 <= i <= |commands|
        invariant commands == old(commands)
        invariant pipeline.data.data == ApplyAll(old(pipeline.data.data), commands[..i])
      {
        assert commands[..i + 1][..i] == commands[..i];
        pipeline.AddData(commands[i].value);
        i := i + 1;
      }
      assert commands[..i] == commands;
      commands := [];
    }
  }

  /** `Commands`: a cloneable handle on the pipeline's queue (commands.rs:25-47). */
  datatype Commands = Commands(queue: CommandQueue)
  {
    /** `add_command` (commands.rs:37-40): appends to the shared queue. */
    method AddCommand(command: Command)
      modifies queue
      ensures queue.commands == old(queue.commands) + [command]
    {
      queue.commands := queue.commands + [command];
    }

    /** `add_data` (commands.rs:42-46): only enqueues; nothing is added until the queue runs. */
    method AddData(value: Value)
      modifies queue
      ensures queue.commands == old(queue.commands) + [Command.AddData(value)]
    {
      AddCommand(Command.AddData(value));
    }
  }

  /** `PipelineData` (request_pipeline.rs:48-71). */
  class PipelineData {
    var request: Requests.Request
    const commandQueue: CommandQueue
    const data: DataContainer

    /** What handlers can see of this pipeline now. */
    function Snapshot(): State
      reads this, commandQueue, data
    {
      State(request, data.data, commandQueue.commands)
    }

    /** `PipelineData::new` (request_pipeline.rs:56-62): the given request and data, an empty queue. */
    constructor (request: Requests.Request, initialData: DataContainer)
      ensures this.request == request && data == initialData
      ensures fresh(commandQueue) && commandQueue.commands == []
    {
      this.request := request;
      commandQueue := new CommandQueue();
      data := initialData;
    }

    /** `PipelineData::get` (request_pipeline.rs:64-66): the container's `get`. */
    function Get(tag: TypeTag): (r: Option<Value>)
      reads this, data
      ensures r == Lookup(data.data, tag)
    {
      data.Get(tag)
    }

    /** `PipelineData::add_data` (request_pipeline.rs:68-70): the container's `add`. */
    method AddData(value: Value)
      modifies data
      ensures data.data == old(data.data)[value.tag := value]
    {
      data.Add(value);
    }
  }

  /** `Commands::fetch` (commands.rs:62-67): always a handle on the pipeline's own queue. */
  function FetchCommands(pipeline: PipelineData): (c: Commands)
    ensures c.queue == pipeline.commandQueue
  {
    Commands(pipeline.commandQueue)
  }
}

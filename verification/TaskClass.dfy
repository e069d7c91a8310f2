/** The descriptors shared by task handles, and the runtime that takes their tasks. A handle is a
    reference: copies of it share the object. */
module TaskClass {
  import opened Wrappers
  import opened TaskModel

  lemma {:induction false} DropAllAppend(l: Ledger, a: seq<Storage>, b: seq<Storage>)
    ensures DropAll(l, a + b) == DropAll(DropAll(l, a), b)
    decreases a
  {
    if a == [] {
      assert a + b == b;
    } else {
      assert (a + b)[1..] == a[1..] + b;
      DropAllAppend(Drop(l, a[0]), a[1..], b);
    }
  }

  /** AutoTask::Impl */
  class AutoTask {
    var task: Option<Task>
    var refs: seq<Storage>

    ghost function State(): Descriptor
      reads this
    {
      Descriptor(task, false, refs, [])
    }

    constructor (task: Task)
      ensures State() == Descriptor(Some(task), false, [], [])
    {
      this.task, refs := Some(task), [];
    }

    predicate IsPhysicalTask()
      reads this
    {
      task.Some? && task.value.kind == Inline
    }

    /** Hands out a task that is to be queued. The pointer is moved only when the cast succeeds, so an
        inline task stays where it is. */
    method ReleaseAutoTask() returns (r: Result<Task>)
      modifies this
      ensures refs == old(refs)
      ensures task == if old(IsPhysicalTask()) then old(task) else None
      ensures r == if old(task).Some? && !old(IsPhysicalTask()) then Ok(old(task).value) else Err(NOT_AUTO)
    {
      if task.None? || IsPhysicalTask() {
        return Err(NOT_AUTO);
      }
      r := Ok(task.value);
      task := None;
    }

    /** Hands out an inline task; any other stays where it is. */
    method ReleasePhysicalTask() returns (r: Result<Task>)
      modifies this
      ensures refs == old(refs)
      ensures task == if old(IsPhysicalTask()) then None else old(task)
      ensures r == if old(IsPhysicalTask()) then Ok(old(task).value) else Err(NOT_PHYSICAL)
    {
      if !IsPhysicalTask() {
        return Err(NOT_PHYSICAL);
      }
      r := Ok(task.value);
      task := None;
    }

    /** add_input, add_output and add_reduction. */
    method Add(runtime: Runtime, s: Storage, accepted: bool) returns (r: Result<()>)
      requires task.Some?
      modifies this, runtime
      ensures (runtime.State(), State(), r) == Added(old(runtime.State()), old(State()), s, false, accepted)
    {
      if !IsPhysicalTask() {
        runtime.Acquire(s);
        refs := refs + [s];
      }
      if !accepted {
        return Err(REJECTED);
      }
      task := Some(task.value.(args := task.value.args + [s]));
      return Ok(());
    }

    method ClearRefs(runtime: Runtime)
      modifies this, runtime
      ensures runtime.State() == DropAll(old(runtime.State()), old(refs))
      ensures task == old(task) && refs == []
    {
      runtime.DropEach(refs);
      refs := [];
    }
  }

  /** ManualTask::Impl */
  class ManualTask {
    var task: Option<Task>
    var storeRefs: seq<Storage>
    var partRefs: seq<Storage>

    ghost function State(): Descriptor
      reads this
    {
      Descriptor(task, true, storeRefs, partRefs)
    }

    constructor (task: Task)
      ensures State() == Descriptor(Some(task), true, [], [])
    {
      this.task, storeRefs, partRefs := Some(task), [], [];
    }

    method Release() returns (r: Result<Task>)
      modifies this
      ensures task == None && storeRefs == old(storeRefs) && partRefs == old(partRefs)
      ensures r == if old(task).Some? then Ok(old(task).value) else Err(REUSED)
    {
      if task.None? {
        return Err(REUSED);
      }
      var was := task.value;
      task := None;
      return Ok(was);
    }

    /** The descriptor is looked up before the reference is recorded, so reuse records nothing. */
    method Add(runtime: Runtime, s: Storage, part: bool, accepted: bool) returns (r: Result<()>)
      requires task.Some? ==> task.value.kind != Inline
      modifies this, runtime
      ensures (runtime.State(), State(), r) == Added(old(runtime.State()), old(State()), s, part, accepted)
    {
      if task.None? {
        return Err(REUSED);
      }
      runtime.Acquire(s);
      if part {
        partRefs := partRefs + [s];
      } else {
        storeRefs := storeRefs + [s];
      }
      if !accepted {
        return Err(REJECTED);
      }
      task := Some(task.value.(args := task.value.args + [s]));
      return Ok(());
    }

    method ClearRefs(runtime: Runtime)
      modifies this, runtime
      ensures runtime.State() == DropAll(old(runtime.State()), old(State()).Refs())
      ensures task == old(task) && storeRefs == [] && partRefs == []
    {
      DropAllAppend(runtime.State(), storeRefs, partRefs);
      runtime.DropEach(storeRefs);
      storeRefs := [];
      runtime.DropEach(partRefs);
      partRefs := [];
    }
  }

  class Runtime {
    var refs: multiset<Storage>
    var stream: seq<Op>
    var launched: seq<Task>
    var tasks: nat

    ghost function State(): Ledger
      reads this
    {
      Ledger(refs, stream, launched)
    }

    constructor ()
      ensures State() == Ledger(multiset{}, [], []) && tasks == 0
    {
      refs, stream, launched, tasks := multiset{}, [], [], 0;
    }

    method Acquire(s: Storage)
      modifies this
      ensures State() == TaskModel.Acquire(old(State()), s) && tasks == old(tasks)
    {
      refs := refs + multiset{s};
    }

    /** The tracker of the last user reference frees the storage, which queues its discard. */
    method Drop(s: Storage)
      modifies this
      ensures State() == TaskModel.Drop(old(State()), s) && tasks == old(tasks)
    {
      refs := refs - multiset{s};
      if s !in refs {
        stream := stream + [Discard(s)];
      }
    }

    method DropEach(held: seq<Storage>)
      modifies this
      ensures State() == DropAll(old(State()), held) && tasks == old(tasks)
    {
      assert held[0..] == held;
      for i := 0 to |held|
        invariant DropAll(State(), held[i..]) == DropAll(old(State()), held) && tasks == old(tasks)
      {
        assert held[i..][1..] == held[i + 1..];
        Drop(held[i]);
      }
    }

    /** create_task for an AutoTask: inside a task, or when so configured, it runs inline. */
    method CreateAutoTask(runningInTask: bool, inlineTaskLaunch: bool) returns (task: AutoTask)
      modifies this
      ensures fresh(task) && State() == old(State()) && tasks == old(tasks) + 1
      ensures task.State()
        == Descriptor(Some(Task(old(tasks), if runningInTask || inlineTaskLaunch then Inline else Automatic, [])),
                      false, [], [])
    {
      if runningInTask {
        task := new AutoTask(Task(tasks, Inline, []));
      } else if inlineTaskLaunch {
        task := new AutoTask(Task(tasks, Inline, []));
      } else {
        task := new AutoTask(Task(tasks, Automatic, []));
      }
      tasks := tasks + 1;
    }

    /** Validated before it is queued; what follows may still fail. */
    method Enqueue(task: Task, outcome: Outcome) returns (r: Result<()>)
      modifies this
      ensures tasks == old(tasks)
      ensures State() == if outcome == Rejects then old(State()) else old(State()).(stream := old(stream) + [Run(task)])
      ensures r == (if outcome == Rejects then Err(REJECTED) else if outcome == FailsLater then Err(FAILED) else Ok(()))
    {
      if outcome == Rejects {
        return Err(REJECTED);
      }
      stream := stream + [Run(task)];
      return if outcome == FailsLater then Err(FAILED) else Ok(());
    }

    method SubmitAutoTask(task: AutoTask, outcome: Outcome) returns (r: Result<()>)
      modifies this, task
      ensures (State(), task.State(), r) == Submitted(old(State()), old(task.State()), outcome)
    {
      if task.IsPhysicalTask() {
        var physical := task.ReleasePhysicalTask();
        if outcome == Rejects {
          return Err(REJECTED);
        }
        launched := launched + [physical.value];
        if outcome == FailsLater {
          return Err(FAILED);
        }
        ClearedRefs(task);
        task.ClearRefs(this);
        return Ok(());
      }
      var released := task.ReleaseAutoTask();
      if released.Err? {
        return Err(released.message);
      }
      r := Enqueue(released.value, outcome);
      if r.Err? {
        return;
      }
      ClearedRefs(task);
      task.ClearRefs(this);
    }

    method SubmitManualTask(task: ManualTask, outcome: Outcome) returns (r: Result<()>)
      requires task.task.Some? ==> task.task.value.kind != Inline
      modifies this, task
      ensures (State(), task.State(), r) == Submitted(old(State()), old(task.State()), outcome)
    {
      var released := task.Release();
      if released.Err? {
        return Err(released.message);
      }
      r := Enqueue(released.value, outcome);
      if r.Err? {
        return;
      }
      task.ClearRefs(this);
    }
  }

  lemma ClearedRefs(task: AutoTask)
    ensures task.State().Refs() == task.refs
  {
  }
}

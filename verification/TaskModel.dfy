/** Task descriptors and the stream of operations: what one call does to a descriptor, to the user
    references that keep storages alive, and to the stream. */
module TaskModel {
  import opened Wrappers

  type Storage = nat

  datatype Kind = Automatic | Manually | Inline

  /** The task behind a descriptor, with the storages it was given. */
  datatype Task = Task(id: nat, kind: Kind, args: seq<Storage>)

  datatype Op = Run(task: Task) | Discard(storage: Storage)

  /** What all copies of a handle share: the task until it is released, and the references held for
      the user, to stores and to partitions. An AutoTask has no partitions. */
  datatype Descriptor = Descriptor(task: Option<Task>, manual: bool, stores: seq<Storage>, parts: seq<Storage>) {
    function Refs(): seq<Storage> {
      stores + parts
    }

    predicate Physical() {
      task.Some? && task.value.kind == Inline
    }
  }

  /** User references of every storage, the operations in the order they are queued, and the tasks
      launched without being queued. */
  datatype Ledger = Ledger(refs: multiset<Storage>, stream: seq<Op>, launched: seq<Task>)

  // ----- user references -----

  function Acquire(l: Ledger, s: Storage): Ledger {
    l.(refs := l.refs + multiset{s})
  }

  /** Losing the last user reference queues the discard of the storage. */
  function Drop(l: Ledger, s: Storage): Ledger {
    var refs := l.refs - multiset{s};
    Ledger(refs, if s in refs then l.stream else l.stream + [Discard(s)], l.launched)
  }

  /** Drops in the order of the vector. */
  function DropAll(l: Ledger, held: seq<Storage>): Ledger
    decreases held
  {
    if held == [] then l else DropAll(Drop(l, held[0]), held[1..])
  }

  // ----- what the calls do -----

  const REUSED := "Illegal to reuse task descriptors that are already submitted"
  const NOT_AUTO := "Cannot release AutoTask from PhysicalTask"
  const NOT_PHYSICAL := "Cannot release PhysicalTask from AutoTask"
  const REJECTED := "rejected by the task"
  const FAILED := "failed after it was queued"

  /** How the call into the task or the runtime ends. */
  datatype Outcome = Done | Rejects | FailsLater

  /** add_input, add_output, add_reduction. The reference is recorded before the task sees the
      storage; an inline task takes the physical store, and no reference is recorded. */
  function Added(l: Ledger, d: Descriptor, s: Storage, part: bool, accepted: bool): (Ledger, Descriptor, Result<()>) {
    if d.task.None? then (l, d, Err(REUSED))
    else
      var recorded :=
        if d.Physical() then d
        else if part then d.(parts := d.parts + [s]) else d.(stores := d.stores + [s]);
      (if d.Physical() then l else Acquire(l, s),
       if accepted then recorded.(task := Some(d.task.value.(args := d.task.value.args + [s]))) else recorded,
       if accepted then Ok(()) else Err(REJECTED))
  }

  function Emptied(d: Descriptor): Descriptor {
    d.(stores := [], parts := [])
  }

  /** submit: the handle is emptied first; the references go only after the task is queued. */
  function Submitted(l: Ledger, d: Descriptor, outcome: Outcome): (Ledger, Descriptor, Result<()>) {
    if d.task.None? then (l, d, Err(if d.manual then REUSED else NOT_AUTO))
    else
      var released := d.(task := None);
      if outcome == Rejects then (l, released, Err(REJECTED))
      else
        var queued := Enqueued(l, d.task.value);
        if outcome == FailsLater then (queued, released, Err(FAILED))
        else (DropAll(queued, d.Refs()), Emptied(released), Ok(()))
  }

  /** An inline task is launched at once, the others join the stream. */
  function Enqueued(l: Ledger, t: Task): Ledger {
    if t.kind == Inline then l.(launched := l.launched + [t]) else l.(stream := l.stream + [Run(t)])
  }

  // ----- streams -----

  /** No task comes after the discard of a storage it uses. */
  ghost predicate Safe(stream: seq<Op>) {
    forall i, j :: 0 <= i < j < |stream| && stream[i].Discard? && stream[j].Run? ==>
      stream[i].storage !in stream[j].task.args
  }

  /** No storage is discarded twice and no task is queued twice. */
  ghost predicate Once(stream: seq<Op>) {
    && (forall i, j :: 0 <= i < j < |stream| && stream[i].Discard? && stream[j].Discard? ==>
         stream[i].storage != stream[j].storage)
    && (forall i, j :: 0 <= i < j < |stream| && stream[i].Run? && stream[j].Run? ==>
         stream[i].task.id != stream[j].task.id)
  }

  ghost predicate Discarded(stream: seq<Op>, s: Storage) {
    Discard(s) in stream
  }

  ghost predicate Queued(stream: seq<Op>, id: nat) {
    exists i :: 0 <= i < |stream| && stream[i].Run? && stream[i].task.id == id
  }

  lemma AppendDiscard(stream: seq<Op>, s: Storage)
    requires Safe(stream) && Once(stream) && !Discarded(stream, s)
    ensures var next := stream + [Discard(s)];
      && Safe(next) && Once(next)
      && (forall t :: Discarded(next, t) <==> Discarded(stream, t) || t == s)
      && (forall id :: Queued(next, id) <==> Queued(stream, id))
  {
    var next := stream + [Discard(s)];
    assert next[|stream|] == Discard(s);
    forall id ensures Queued(next, id) <==> Queued(stream, id) {
      if Queued(stream, id) {
        var i :| 0 <= i < |stream| && stream[i].Run? && stream[i].task.id == id;
        assert next[i] == stream[i];
      }
    }
  }

  lemma AppendRun(stream: seq<Op>, task: Task)
    requires Safe(stream) && Once(stream) && !Queued(stream, task.id)
    requires forall s <- task.args :: !Discarded(stream, s)
    ensures var next := stream + [Run(task)];
      && Safe(next) && Once(next)
      && (forall t :: Discarded(next, t) <==> Discarded(stream, t))
      && (forall id :: Queued(next, id) <==> Queued(stream, id) || id == task.id)
  {
    var next := stream + [Run(task)];
    assert next[|stream|] == Run(task);
    forall i | 0 <= i < |stream| && stream[i].Discard? ensures stream[i].storage !in task.args {
      assert stream[i] == Discard(stream[i].storage);
    }
    forall id ensures Queued(next, id) <==> Queued(stream, id) || id == task.id {
      if Queued(stream, id) {
        var i :| 0 <= i < |stream| && stream[i].Run? && stream[i].task.id == id;
        assert next[i] == stream[i];
      }
    }
  }

  // ----- the ledger -----

  /** Among the storages below n, exactly those without a user reference are discarded, once each;
      no task comes after the discard of what it uses. */
  ghost predicate Sound(l: Ledger, n: nat) {
    && Safe(l.stream) && Once(l.stream)
    && (forall s <- l.refs :: s < n)
    && (forall s: Storage :: Discarded(l.stream, s) <==> s < n && s !in l.refs)
  }

  lemma DropSound(l: Ledger, s: Storage, n: nat)
    requires Sound(l, n) && s in l.refs
    ensures Sound(Drop(l, s), n) && forall id :: Queued(Drop(l, s).stream, id) <==> Queued(l.stream, id)
  {
    hide Safe, Once, Discarded, Queued;
    if s !in Drop(l, s).refs {
      AppendDiscard(l.stream, s);
    }
  }

  /** Dropping a vector of references that are all counted: only the last one of a storage discards
      it. */
  lemma {:induction false} DropAllSound(l: Ledger, held: seq<Storage>, n: nat)
    requires Sound(l, n) && multiset(held) <= l.refs
    ensures var after := DropAll(l, held);
      && Sound(after, n) && after.refs == l.refs - multiset(held) && after.launched == l.launched
      && forall id :: Queued(after.stream, id) <==> Queued(l.stream, id)
    decreases held
  {
    hide Sound, Queued;
    if held != [] {
      assert held == [held[0]] + held[1..];
      assert multiset(held) == multiset{held[0]} + multiset(held[1..]);
      assert held[0] in multiset(held);
      DropSound(l, held[0], n);
      DropAllSound(Drop(l, held[0]), held[1..], n);
    }
  }

  // ----- the order of releasing, queueing and clearing -----

  /** submit as it must not be: the references go before the task is queued. */
  function ClearedFirst(l: Ledger, d: Descriptor): Ledger
    requires d.task.Some?
  {
    var dropped := DropAll(l, d.Refs());
    dropped.(stream := dropped.stream + [Run(d.task.value)])
  }

  /** Clearing first is safe only for a task whose every storage has another reference. */
  lemma ClearingFirst(l: Ledger, d: Descriptor, n: nat)
    requires Sound(l, n) && d.task.Some? && multiset(d.Refs()) <= l.refs && !Queued(l.stream, d.task.value.id)
    requires forall s <- d.task.value.args :: s in d.Refs()
    ensures Safe(ClearedFirst(l, d).stream) <==> forall s <- d.task.value.args :: l.refs[s] > multiset(d.Refs())[s]
  {
    hide Descriptor.Refs;
    var t, held := d.task.value, multiset(d.Refs());
    var after := DropAll(l, d.Refs());
    DropAllSound(l, d.Refs(), n);
    hide DropAll, Once, Queued;
    forall s <- t.args ensures Discarded(after.stream, s) <==> l.refs[s] <= held[s] {
      assert s in held;
      assert s in l.refs;
      assert after.refs[s] == l.refs[s] - held[s];
    }
    if forall s <- t.args :: l.refs[s] > held[s] {
      AppendRun(after.stream, t);
    } else {
      var s :| s in t.args && l.refs[s] <= held[s];
      var i :| 0 <= i < |after.stream| && after.stream[i] == Discard(s);
      var stream := ClearedFirst(l, d).stream;
      assert stream[i] == Discard(s) && stream[|after.stream|] == Run(t);
    }
  }

  lemma EnqueuedSound(l: Ledger, t: Task, refs: seq<Storage>, n: nat)
    requires Sound(l, n) && multiset(refs) <= l.refs && !Queued(l.stream, t.id)
    requires t.kind != Inline ==> forall s <- t.args :: s in refs
    ensures var after := Enqueued(l, t);
      && Sound(after, n) && after.refs == l.refs
      && forall id :: Queued(after.stream, id) <==> Queued(l.stream, id) || (t.kind != Inline && id == t.id)
  {
    hide Safe, Once, Queued, Discarded;
    if t.kind != Inline {
      forall s <- t.args ensures !Discarded(l.stream, s) {
        assert s in multiset(refs);
      }
      AppendRun(l.stream, t);
    }
  }

  lemma EmptiedRefs(d: Descriptor)
    ensures Emptied(d.(task := None)).Refs() == [] && d.(task := None).Refs() == d.Refs()
  {
  }

  /** The same task submitted in the code's order is always safe. */
  lemma SubmittedSound(l: Ledger, d: Descriptor, outcome: Outcome, n: nat)
    requires Sound(l, n) && multiset(d.Refs()) <= l.refs
    requires d.task.Some? ==> !Queued(l.stream, d.task.value.id)
    requires d.task.Some? && !d.Physical() ==> forall s <- d.task.value.args :: s in d.Refs()
    ensures var (after, e, r) := Submitted(l, d, outcome);
      && Sound(after, n) && e.task == None
      && after.refs + multiset(d.Refs()) == l.refs + multiset(e.Refs())
      && (r.Ok? ==> e.Refs() == [])
      && (forall id :: Queued(after.stream, id) <==>
           Queued(l.stream, id) || (d.task.Some? && !d.Physical() && outcome != Rejects && id == d.task.value.id))
  {
    hide Sound, Queued, DropAll, Enqueued, Descriptor.Refs;
    EmptiedRefs(d);
    if d.task.Some? && outcome != Rejects {
      EnqueuedSound(l, d.task.value, d.Refs(), n);
      if outcome == Done {
        DropAllSound(Enqueued(l, d.task.value), d.Refs(), n);
        DroppedTotal(l.refs, multiset(d.Refs()), Emptied(d.(task := None)).Refs());
      }
    }
  }

  lemma DroppedTotal(refs: multiset<Storage>, held: multiset<Storage>, none: seq<Storage>)
    requires held <= refs && none == []
    ensures refs - held + held == refs + multiset(none)
  {
  }
}

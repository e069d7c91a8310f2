/** What a program has given its tasks, told from its events alone, and what is queued. */
module TaskHistory {
  import opened Wrappers
  import opened TaskModel
  import opened TaskRuns

  // ----- the events of a program -----

  /** How many tasks have been created. */
  function Created(events: seq<Event>): nat {
    if events == [] then 0
    else Created(events[..|events| - 1]) + if events[|events| - 1].NewTask? then 1 else 0
  }

  /** For each handle there has been: the number of the task that it, or the handle it is a copy of in the
      end, was created for. */
  function Origins(events: seq<Event>): seq<nat> {
    if events == [] then []
    else
      var before, last := events[..|events| - 1], events[|events| - 1];
      Origins(before) + NewOrigin(Origins(before), Created(before), last)
  }

  /** The entry for the handle that an event makes, if it makes one. */
  function NewOrigin(origins: seq<nat>, created: nat, e: Event): seq<nat> {
    if e.NewTask? then [created]
    else if e.CopyHandle? && e.handle < |origins| then [origins[e.handle]]
    else []
  }

  predicate IsFor(events: seq<Event>, h: nat, k: nat) {
    h < |Origins(events)| && Origins(events)[h] == k
  }

  /** Some handle of task k has been submitted. */
  predicate SubmittedYet(events: seq<Event>, k: nat) {
    events != [] &&
    var before, last := events[..|events| - 1], events[|events| - 1];
    SubmittedYet(before, k) || (last.Submit? && IsFor(before, last.handle, k))
  }

  /** The storages of the accepted additions through any handle of task k, in order, until it is
      submitted. */
  function Given(events: seq<Event>, k: nat): seq<Storage> {
    if events == [] then []
    else
      var before, last := events[..|events| - 1], events[|events| - 1];
      if last.Add? && last.accepted && IsFor(before, last.handle, k) && !SubmittedYet(before, k)
      then Given(before, k) + [last.storage] else Given(before, k)
  }

  /** What kind of task k is. */
  function KindOf(events: seq<Event>, k: nat): Kind {
    if events == [] then Automatic
    else
      var before, last := events[..|events| - 1], events[|events| - 1];
      if last.NewTask? && Created(before) == k then last.kind else KindOf(before, k)
  }

  // ----- the world agrees with its events -----

  ghost predicate TaskAgrees(events: seq<Event>, t: Task) {
    t.args == Given(events, t.id) && t.kind == KindOf(events, t.id) && t.id < Created(events)
  }

  ghost predicate HandlesAgree(w: World, events: seq<Event>) {
    && |w.handles| == |Origins(events)|
    && (forall h :: 0 <= h < |w.handles| && w.handles[h].Some? ==> w.handles[h].value == Origins(events)[h])
  }

  ghost predicate DescriptorAgrees(w: World, events: seq<Event>, k: nat)
    requires k < |w.descriptors|
  {
    && (w.descriptors[k].task.Some? ==>
         && w.descriptors[k].task.value.id == k && !SubmittedYet(events, k)
         && TaskAgrees(events, w.descriptors[k].task.value))
    && (w.descriptors[k].task.None? && Shared(w.handles, k) ==> SubmittedYet(events, k))
  }

  /** A task that is queued or launched has been submitted. */
  ghost predicate Gone(events: seq<Event>, t: Task) {
    SubmittedYet(events, t.id) && TaskAgrees(events, t)
  }

  ghost predicate Agrees(w: World, events: seq<Event>) {
    && HandlesAgree(w, events)
    && |w.descriptors| == w.tasks == Created(events)
    && (forall h :: 0 <= h < |w.handles| && w.handles[h].Some? ==> w.handles[h].value < |w.descriptors|)
    && (forall k: nat :: k < |w.descriptors| ==> DescriptorAgrees(w, events, k))
    && AllOf(w.ledger, events)
  }

  /** An event that is no submission of the task and adds nothing to it changes nothing for it. */
  lemma NextTask(events: seq<Event>, e: Event, t: Task)
    requires TaskAgrees(events, t)
    requires e.Add? && e.accepted && IsFor(events, e.handle, t.id) ==> SubmittedYet(events, t.id)
    ensures TaskAgrees(events + [e], t)
    ensures SubmittedYet(events + [e], t.id) <==>
      (SubmittedYet(events, t.id) || (e.Submit? && IsFor(events, e.handle, t.id)))
  {
    assert (events + [e])[..|events|] == events;
  }

  lemma NextGone(events: seq<Event>, e: Event, t: Task)
    requires Gone(events, t)
    ensures Gone(events + [e], t)
  {
    NextTask(events, e, t);
  }

  lemma NextOrigins(events: seq<Event>, e: Event)
    ensures Created(events + [e]) == Created(events) + if e.NewTask? then 1 else 0
    ensures Origins(events + [e]) == Origins(events) + NewOrigin(Origins(events), Created(events), e)
  {
    assert (events + [e])[..|events|] == events;
  }

  /** Dropping references only adds discards. */
  lemma {:induction false} DropAllAdds(l: Ledger, held: seq<Storage>)
    ensures var after := DropAll(l, held);
      && l.stream <= after.stream && after.launched == l.launched
      && forall i :: |l.stream| <= i < |after.stream| ==> after.stream[i].Discard?
    decreases held
  {
    if held != [] {
      DropAllAdds(Drop(l, held[0]), held[1..]);
      var next, after := Drop(l, held[0]).stream, DropAll(Drop(l, held[0]), held[1..]).stream;
      assert forall i :: 0 <= i < |next| ==> after[i] == next[i];
    }
  }

  /** A submission that is not refused queues the task, or launches it when it is inline, and after that only
      discards what has lost its last reference. */
  lemma SubmittedAdds(l: Ledger, d: Descriptor, outcome: Outcome)
    ensures var (after, e, r) := Submitted(l, d, outcome);
      && l.stream <= after.stream && l.launched <= after.launched && e.manual == d.manual && e.task == None
      && (d.task.None? || outcome == Rejects ==> after == l && e.Refs() == d.Refs())
      && (d.task.Some? && outcome != Rejects && d.task.value.kind != Inline ==>
           && after.launched == l.launched
           && |after.stream| > |l.stream| && after.stream[|l.stream|] == Run(d.task.value)
           && (forall i :: |l.stream| < i < |after.stream| ==> after.stream[i].Discard?))
      && (d.task.Some? && outcome != Rejects && d.task.value.kind == Inline ==>
           && after.launched == l.launched + [d.task.value]
           && (forall i :: |l.stream| <= i < |after.stream| ==> after.stream[i].Discard?))
      && (d.task.Some? && outcome == FailsLater ==> e.Refs() == d.Refs())
      && (r.Ok? <==> d.task.Some? && outcome == Done)
      && (d.task.None? ==> r == Err(if d.manual then REUSED else NOT_AUTO))
      && (d.task.Some? && outcome != Done ==> r == Err(if outcome == Rejects then REJECTED else FAILED))
  {
    if d.task.Some? && outcome == Done {
      DropAllAdds(Enqueued(l, d.task.value), d.Refs());
      hide DropAll;
    }
  }

  /** What an addition does: the reference is recorded even if the store is then not accepted; an inline task
      records none; an empty descriptor refuses and records nothing. */
  lemma AddedExactly(l: Ledger, d: Descriptor, s: Storage, part: bool, accepted: bool)
    ensures var (after, e, r) := Added(l, d, s, part, accepted);
      && after.stream == l.stream && after.launched == l.launched && e.manual == d.manual
      && (r.Ok? <==> d.task.Some? && accepted)
      && (d.task.None? ==> after == l && e == d && r == Err(REUSED))
      && (d.task.Some? && !accepted ==> r == Err(REJECTED))
      && (d.task.Some? ==>
           && e.task == Some(d.task.value.(args := if accepted then d.task.value.args + [s] else d.task.value.args))
           && (d.task.value.kind == Inline ==> after == l && e.stores == d.stores && e.parts == d.parts)
           && (d.task.value.kind != Inline ==>
                && after.refs == l.refs + multiset{s}
                && e.stores == (if part then d.stores else d.stores + [s])
                && e.parts == (if part then d.parts + [s] else d.parts)))
  {
  }

  // ----- every step keeps them in agreement -----

  lemma {:induction false} OriginsBelow(events: seq<Event>)
    ensures forall h :: 0 <= h < |Origins(events)| ==> Origins(events)[h] < Created(events)
  {
    if events != [] {
      OriginsBelow(events[..|events| - 1]);
    }
  }

  /** Nothing has happened to a task that does not exist yet. */
  lemma {:induction false} NothingYet(events: seq<Event>, k: nat)
    requires k >= Created(events)
    ensures Given(events, k) == [] && !SubmittedYet(events, k)
  {
    if events != [] {
      NothingYet(events[..|events| - 1], k);
      OriginsBelow(events[..|events| - 1]);
    }
  }

  lemma AllGone(w: World, events: seq<Event>, e: Event)
    requires Agrees(w, events)
    ensures AllOf(w.ledger, events + [e])
  {
    hide Gone, HandlesAgree, DescriptorAgrees, Created;
    forall i | 0 <= i < |w.ledger.stream| && w.ledger.stream[i].Run?
      ensures Gone(events + [e], w.ledger.stream[i].task)
    {
      NextGone(events, e, w.ledger.stream[i].task);
    }
    forall i | 0 <= i < |w.ledger.launched| ensures Gone(events + [e], w.ledger.launched[i]) {
      NextGone(events, e, w.ledger.launched[i]);
    }
  }

  lemma HandlesStep(w: World, events: seq<Event>, e: Event)
    requires Agrees(w, events) && CanDo(w, e)
    ensures HandlesAgree(Step(w, e), events + [e])
    ensures |Step(w, e).descriptors| == Step(w, e).tasks == Created(events + [e])
    ensures var n := Step(w, e);
      forall h :: 0 <= h < |n.handles| && n.handles[h].Some? ==> n.handles[h].value < |n.descriptors|
  {
    NextOrigins(events, e);
    hide Created, Origins, Added, Submitted, DropAll, Drop, DescriptorAgrees, Gone;
  }

  /** A descriptor that the event leaves alone. */
  lemma OtherDescriptor(w: World, events: seq<Event>, e: Event, k: nat)
    requires Agrees(w, events) && CanDo(w, e) && k < |w.descriptors|
    requires e.Add? || e.Submit? ==> w.handles[e.handle].value != k
    ensures w.descriptors[k].task.Some? ==>
      && w.descriptors[k].task.value.id == k && !SubmittedYet(events + [e], k)
      && TaskAgrees(events + [e], w.descriptors[k].task.value)
    ensures w.descriptors[k].task.None? && Shared(w.handles, k) ==> SubmittedYet(events + [e], k)
  {
    assert DescriptorAgrees(w, events, k);
    if w.descriptors[k].task.Some? {
      NextTask(events, e, w.descriptors[k].task.value);
    } else {
      assert (events + [e])[..|events|] == events;
    }
    hide TaskAgrees, Gone, Created, Origins;
  }

  lemma NewDescriptor(w: World, events: seq<Event>, kind: Kind)
    requires Agrees(w, events)
    ensures var e, k := NewTask(kind), |w.descriptors|;
      !SubmittedYet(events + [e], k) && TaskAgrees(events + [e], Task(k, kind, []))
  {
    var e, k := NewTask(kind), |w.descriptors|;
    assert (events + [e])[..|events|] == events;
    NothingYet(events, k);
    NextOrigins(events, e);
  }

  lemma AddedTo(w: World, events: seq<Event>, e: Event)
    requires Agrees(w, events) && CanDo(w, e) && e.Add?
    ensures var k := w.handles[e.handle].value;
      DescriptorAgrees(Step(w, e), events + [e], k)
  {
    var k := w.handles[e.handle].value;
    assert DescriptorAgrees(w, events, k);
    assert (events + [e])[..|events|] == events;
    AddedExactly(w.ledger, w.descriptors[k], e.storage, e.part, e.accepted);
    hide Added, Gone, Created, Origins;
  }

  /** A task without a handle is never given one again. */
  lemma StillShared(w: World, e: Event, k: nat)
    requires CanDo(w, e) && k < |w.descriptors| && Shared(Step(w, e).handles, k)
    ensures Shared(w.handles, k)
  {
    hide Added, Submitted, DropAll, Drop;
    var n := Step(w, e).handles;
    var i :| 0 <= i < |n| && n[i] == Some(k);
  }

  lemma SubmittedNow(w: World, events: seq<Event>, e: Event)
    requires Agrees(w, events) && CanDo(w, e) && e.Submit?
    ensures SubmittedYet(events + [e], w.handles[e.handle].value)
  {
    assert (events + [e])[..|events|] == events;
    hide Gone, Created, Origins, Given, KindOf;
  }

  lemma DescriptorsStep(w: World, events: seq<Event>, e: Event, k: nat)
    requires Agrees(w, events) && CanDo(w, e) && k < |Step(w, e).descriptors|
    ensures DescriptorAgrees(Step(w, e), events + [e], k)
  {
    hide TaskAgrees, SubmittedYet, Gone, Created, Origins, Added, Submitted, DropAll;
    if e.NewTask? && k == |w.descriptors| {
      NewDescriptor(w, events, e.kind);
    } else if e.Add? && w.handles[e.handle].value == k {
      AddedTo(w, events, e);
    } else if e.Submit? && w.handles[e.handle].value == k {
      SubmittedAdds(w.ledger, w.descriptors[k], e.outcome);
      SubmittedNow(w, events, e);
    } else {
      OtherDescriptor(w, events, e, k);
      if Shared(Step(w, e).handles, k) {
        StillShared(w, e, k);
      }
    }
  }

  /** All that is queued or launched is gone. */
  ghost predicate AllOf(l: Ledger, events: seq<Event>) {
    && (forall i :: 0 <= i < |l.stream| && l.stream[i].Run? ==> Gone(events, l.stream[i].task))
    && (forall i :: 0 <= i < |l.launched| ==> Gone(events, l.launched[i]))
  }

  /** Discards do not matter for that. */
  lemma MoreDiscards(l: Ledger, n: Ledger, events: seq<Event>)
    requires AllOf(l, events) && l.stream <= n.stream && l.launched == n.launched
    requires forall i :: |l.stream| <= i < |n.stream| ==> n.stream[i].Discard?
    ensures AllOf(n, events)
  {
    hide Gone;
  }

  lemma EnqueuedGone(l: Ledger, t: Task, events: seq<Event>)
    requires AllOf(l, events) && Gone(events, t)
    ensures AllOf(Enqueued(l, t), events)
  {
    hide Gone;
  }

  lemma SubmitGone(w: World, events: seq<Event>, e: Event)
    requires Agrees(w, events) && CanDo(w, e) && e.Submit? && AllOf(w.ledger, events + [e])
    ensures AllOf(Step(w, e).ledger, events + [e])
  {
    var d := Of(w, e.handle);
    if d.task.Some? && e.outcome != Rejects {
      var queued := Enqueued(w.ledger, d.task.value);
      SubmittedGone(w, events, e);
      EnqueuedGone(w.ledger, d.task.value, events + [e]);
      DropAllAdds(queued, d.Refs());
      hide AllOf, Agrees, DropAll, Enqueued;
      if e.outcome == Done {
        MoreDiscards(queued, DropAll(queued, d.Refs()), events + [e]);
      }
    }
  }

  lemma LedgerGone(w: World, events: seq<Event>, e: Event)
    requires Agrees(w, events) && CanDo(w, e)
    ensures AllOf(Step(w, e).ledger, events + [e])
  {
    AllGone(w, events, e);
    var l := w.ledger;
    hide Created, Origins, HandlesAgree, DescriptorAgrees, Gone, Submitted;
    if e.Submit? {
      SubmitGone(w, events, e);
    } else if e.DropHandle? {
      var held := w.descriptors[w.handles[e.handle].value].Refs();
      DropAllAdds(l, held);
      MoreDiscards(l, DropAll(l, held), events + [e]);
      hide DropAll, AllOf;
    } else if e.Add? {
      AddedExactly(l, Of(w, e.handle), e.storage, e.part, e.accepted);
      hide Added;
    } else if e.DropStore? {
      MoreDiscards(l, Drop(l, e.storage), events + [e]);
    }
  }

  lemma SubmittedGone(w: World, events: seq<Event>, e: Event)
    requires Agrees(w, events) && CanDo(w, e) && e.Submit? && Of(w, e.handle).task.Some?
    ensures Gone(events + [e], Of(w, e.handle).task.value)
  {
    assert DescriptorAgrees(w, events, w.handles[e.handle].value);
    NextTask(events, e, Of(w, e.handle).task.value);
    hide TaskAgrees, Created;
  }

  lemma AgreesStep(w: World, events: seq<Event>, e: Event)
    requires Agrees(w, events) && CanDo(w, e)
    ensures Agrees(Step(w, e), events + [e])
  {
    hide HandlesAgree, DescriptorAgrees, Gone, Step, Created;
    HandlesStep(w, events, e);
    LedgerGone(w, events, e);
    var n := Step(w, e);
    forall k: nat | k < |n.descriptors| ensures DescriptorAgrees(n, events + [e], k) {
      DescriptorsStep(w, events, e, k);
    }
  }

  lemma {:induction false} AgreesRun(w: World, past: seq<Event>, events: seq<Event>)
    requires Agrees(w, past) && IsRun(w, events)
    ensures Agrees(After(w, events), past + events)
    decreases |events|
  {
    hide Agrees, CanDo, Step;
    if events == [] {
      assert past + events == past;
    } else {
      AgreesStep(w, past, events[0]);
      AgreesRun(Step(w, events[0]), past + [events[0]], events[1..]);
      assert past + [events[0]] + events[1..] == past + events;
    }
  }

  lemma AgreesAlways(events: seq<Event>)
    requires IsRun(START, events)
    ensures Agrees(After(START, events), events)
  {
    assert Agrees(START, []);
    AgreesRun(START, [], events);
    assert [] + events == events;
  }

  // ----- what is queued -----

  /** In every program: a task that is queued or launched has exactly the storages that the program gave it
      through any of its handles before submitting it, in order; and no task comes after the discard of any of
      those. */
  lemma StreamHasGiven(events: seq<Event>)
    requires IsRun(START, events)
    ensures var l := After(START, events).ledger;
      && (forall i :: 0 <= i < |l.stream| && l.stream[i].Run? ==>
           l.stream[i].task.args == Given(events, l.stream[i].task.id))
      && (forall i :: 0 <= i < |l.launched| ==> l.launched[i].args == Given(events, l.launched[i].id))
      && (forall i, j :: 0 <= i < j < |l.stream| && l.stream[i].Discard? && l.stream[j].Run? ==>
           l.stream[i].storage !in Given(events, l.stream[j].task.id))
  {
    AgreesAlways(events);
    StreamIsSafe(events);
    hide After, IsRun, Given, HandlesAgree, DescriptorAgrees, Created, SubmittedYet, Once, Discarded;
    var l := After(START, events).ledger;
    forall i | 0 <= i < |l.stream| && l.stream[i].Run?
      ensures l.stream[i].task.args == Given(events, l.stream[i].task.id)
    {
      assert Gone(events, l.stream[i].task);
    }
    forall i | 0 <= i < |l.launched| ensures l.launched[i].args == Given(events, l.launched[i].id) {
      assert Gone(events, l.launched[i]);
    }
  }

  /** A submission through a handle that is not refused, in any program in which no handle of the task was
      submitted before: the task created for the handle joins the stream, or is launched when it is inline,
      with exactly the storages given to it; unless it is inline, each of them is still referenced by its
      descriptor, so that only discards follow. */
  lemma SubmitQueuesGiven(events: seq<Event>, h: nat, outcome: Outcome)
    requires IsRun(START, events)
    requires CanDo(After(START, events), Submit(h, outcome)) && outcome != Rejects
    requires h < |Origins(events)| && !SubmittedYet(events, Origins(events)[h])
    ensures var w, k := After(START, events), Origins(events)[h];
      var l, n, t := w.ledger, Step(w, Submit(h, outcome)).ledger, Task(k, KindOf(events, k), Given(events, k));
      && (t.kind == Inline ==> n.launched == l.launched + [t])
      && (t.kind != Inline ==>
           && |n.stream| > |l.stream| && n.stream[..|l.stream|] == l.stream && n.stream[|l.stream|] == Run(t)
           && n.launched == l.launched
           && (forall s <- Given(events, k) :: s in Of(w, h).Refs() && s in l.refs))
  {
    AgreesAlways(events);
    var w := After(START, events);
    var k := w.handles[h].value;
    SubmitHolds(events, h, outcome);
    hide After, IsRun;
    assert Of(w, h).task.Some? by {
      assert DescriptorAgrees(w, events, k);
      assert Shared(w.handles, k);
    }
    SubmitAgrees(w, events, h, outcome);
  }

  lemma SubmitAgrees(w: World, events: seq<Event>, h: nat, outcome: Outcome)
    requires Agrees(w, events) && CanDo(w, Submit(h, outcome)) && Of(w, h).task.Some? && outcome != Rejects
    ensures h < |Origins(events)|
    ensures var k, t := Origins(events)[h], Of(w, h).task.value;
      var l, n := w.ledger, Step(w, Submit(h, outcome)).ledger;
      && !SubmittedYet(events, k) && t == Task(k, KindOf(events, k), Given(events, k))
      && (t.kind == Inline ==> n.launched == l.launched + [t])
      && (t.kind != Inline ==>
           && |n.stream| > |l.stream| && n.stream[..|l.stream|] == l.stream && n.stream[|l.stream|] == Run(t)
           && n.launched == l.launched)
  {
    assert DescriptorAgrees(w, events, w.handles[h].value);
    SubmittedAdds(w.ledger, Of(w, h), outcome);
    hide Submitted, Gone, Created, Origins, Given, SubmittedYet, KindOf;
  }

  /** Submitting again, or through another handle of the same task, queues and launches nothing and is
      refused; so is adding to it. */
  lemma ReuseRefused(events: seq<Event>, h: nat, outcome: Outcome)
    requires IsRun(START, events) && CanDo(After(START, events), Submit(h, outcome))
    requires h < |Origins(events)| && SubmittedYet(events, Origins(events)[h])
    ensures var w := After(START, events);
      && Step(w, Submit(h, outcome)).ledger == w.ledger
      && Submitted(w.ledger, Of(w, h), outcome).2.Err?
      && forall s, part, accepted :: Added(w.ledger, Of(w, h), s, part, accepted).2.Err?
  {
    AgreesAlways(events);
    var w := After(START, events);
    assert DescriptorAgrees(w, events, w.handles[h].value);
    hide After, IsRun, Gone, Created, Origins, Given, SubmittedYet, KindOf;
  }
}

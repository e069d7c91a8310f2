/** Programs that create, copy, use, submit and drop task handles and stores, in any order. */
module TaskRuns {
  import opened Wrappers
  import opened TaskModel

  /** The user's own references, the descriptors, the handles (each a shared reference to a
      descriptor until it is dropped), and how many tasks and storages there have been. */
  datatype World = World(ledger: Ledger, own: multiset<Storage>, descriptors: seq<Descriptor>,
                         handles: seq<Option<nat>>, tasks: nat, storages: nat)

  datatype Event =
    | NewStore
    | ShareStore(storage: Storage)
    | DropStore(storage: Storage)
    | NewTask(kind: Kind)
    | CopyHandle(handle: nat)
    | DropHandle(handle: nat)
    | Add(handle: nat, storage: Storage, part: bool, accepted: bool)
    | Submit(handle: nat, outcome: Outcome)

  const START := World(Ledger(multiset{}, [], []), multiset{}, [], [], 0, 0)

  predicate Alive(w: World, handle: nat) {
    handle < |w.handles| && w.handles[handle].Some? && w.handles[handle].value < |w.descriptors|
  }

  function Of(w: World, handle: nat): Descriptor
    requires Alive(w, handle)
  {
    w.descriptors[w.handles[handle].value]
  }

  /** What a program can do: use what it holds. An AutoTask that was submitted may only be submitted
      again; a partition goes to a ManualTask only. */
  predicate CanDo(w: World, e: Event) {
    match e
    case NewStore => true
    case NewTask(_) => true
    case ShareStore(s) => s in w.own
    case DropStore(s) => s in w.own
    case CopyHandle(h) => Alive(w, h)
    case DropHandle(h) => Alive(w, h)
    case Add(h, s, part, _) => Alive(w, h) && s in w.own && (Of(w, h).manual || (!part && Of(w, h).task.Some?))
    case Submit(h, _) => Alive(w, h)
  }

  predicate Shared(handles: seq<Option<nat>>, k: nat) {
    Some(k) in handles
  }

  /** The last handle takes the descriptor with it, and its references. */
  function Dropped(w: World, h: nat): World
    requires Alive(w, h)
  {
    var k, handles := w.handles[h].value, w.handles[h := None];
    if Shared(handles, k) then w.(handles := handles)
    else
      w.(handles := handles, ledger := DropAll(w.ledger, w.descriptors[k].Refs()),
         descriptors := w.descriptors[k := Emptied(w.descriptors[k]).(task := None)])
  }

  function Step(w: World, e: Event): World
    requires CanDo(w, e)
  {
    match e
    case NewStore =>
      w.(ledger := Acquire(w.ledger, w.storages), own := w.own + multiset{w.storages}, storages := w.storages + 1)
    case ShareStore(s) => w.(ledger := Acquire(w.ledger, s), own := w.own + multiset{s})
    case DropStore(s) => w.(ledger := Drop(w.ledger, s), own := w.own - multiset{s})
    case NewTask(kind) =>
      var d := Descriptor(Some(Task(w.tasks, kind, [])), kind == Manually, [], []);
      w.(descriptors := w.descriptors + [d], handles := w.handles + [Some(|w.descriptors|)], tasks := w.tasks + 1)
    case CopyHandle(h) => w.(handles := w.handles + [w.handles[h]])
    case DropHandle(h) => Dropped(w, h)
    case Add(h, s, part, accepted) =>
      var (ledger, d, _) := Added(w.ledger, Of(w, h), s, part, accepted);
      w.(ledger := ledger, descriptors := w.descriptors[w.handles[h].value := d])
    case Submit(h, outcome) =>
      var (ledger, d, _) := Submitted(w.ledger, Of(w, h), outcome);
      w.(ledger := ledger, descriptors := w.descriptors[w.handles[h].value := d])
  }

  ghost predicate IsRun(w: World, events: seq<Event>)
    decreases |events|
  {
    events == [] || (CanDo(w, events[0]) && IsRun(Step(w, events[0]), events[1..]))
  }

  ghost function After(w: World, events: seq<Event>): World
    requires IsRun(w, events)
    decreases |events|
  {
    if events == [] then w else After(Step(w, events[0]), events[1..])
  }

  // ----- references held by descriptors -----

  /** All references that descriptors hold. */
  ghost function Total(ds: seq<Descriptor>): multiset<Storage> {
    if ds == [] then multiset{} else Total(ds[..|ds| - 1]) + multiset(ds[|ds| - 1].Refs())
  }

  lemma TotalLast(ds: seq<Descriptor>)
    requires ds != []
    ensures Total(ds) == Total(ds[..|ds| - 1]) + multiset(ds[|ds| - 1].Refs())
  {
  }

  lemma SumMoves(a: multiset<Storage>, b: multiset<Storage>, c: multiset<Storage>, d: multiset<Storage>,
                 e: multiset<Storage>)
    requires a + b == c + d
    ensures (a + e) + b == (c + e) + d
  {
    assert (a + e) + b == (a + b) + e;
    assert (c + e) + d == (c + d) + e;
  }

  lemma SumSwaps(a: multiset<Storage>, b: multiset<Storage>, c: multiset<Storage>)
    ensures (a + b) + c == (a + c) + b
  {
  }

  lemma {:induction false} TotalUpdate(ds: seq<Descriptor>, k: nat, d: Descriptor)
    requires k < |ds|
    ensures Total(ds[k := d]) + multiset(ds[k].Refs()) == Total(ds) + multiset(d.Refs())
  {
    var es, n := ds[k := d], |ds| - 1;
    hide *;
    TotalLast(ds);
    TotalLast(es);
    if k == n {
      assert es[..n] == ds[..n];
      SumSwaps(Total(ds[..n]), multiset(d.Refs()), multiset(ds[n].Refs()));
    } else {
      assert es[..n] == ds[..n][k := d];
      assert ds[..n][k] == ds[k] && es[n] == ds[n];
      TotalUpdate(ds[..n], k, d);
      SumMoves(Total(es[..n]), multiset(ds[k].Refs()), Total(ds[..n]), multiset(d.Refs()), multiset(ds[n].Refs()));
    }
  }

  lemma {:induction false} TotalHas(ds: seq<Descriptor>, k: nat)
    requires k < |ds|
    ensures multiset(ds[k].Refs()) <= Total(ds)
  {
    if k < |ds| - 1 {
      assert ds[..|ds| - 1][k] == ds[k];
      TotalHas(ds[..|ds| - 1], k);
    }
  }

  lemma {:induction false} TotalNothing(ds: seq<Descriptor>)
    requires forall k :: 0 <= k < |ds| ==> ds[k].Refs() == []
    ensures Total(ds) == multiset{}
  {
    if ds != [] {
      TotalNothing(ds[..|ds| - 1]);
    }
  }

  // ----- the invariant -----

  /** A descriptor's task is new to the stream, and what it was given is among the references. */
  ghost predicate Ready(d: Descriptor, stream: seq<Op>, tasks: nat) {
    d.task.Some? ==>
      var t := d.task.value;
      && t.id < tasks && !Queued(stream, t.id)
      && (t.kind == Manually <==> d.manual)
      && (t.kind != Inline ==> forall s <- t.args :: s in d.Refs())
  }

  ghost predicate Separate(ds: seq<Descriptor>) {
    forall j, k :: 0 <= j < k < |ds| && ds[j].task.Some? && ds[k].task.Some?
      ==> ds[j].task.value.id != ds[k].task.value.id
  }

  ghost predicate AllReady(w: World) {
    forall k :: 0 <= k < |w.descriptors| ==> Ready(w.descriptors[k], w.ledger.stream, w.tasks)
  }

  /** A descriptor that no handle shares holds nothing. */
  ghost predicate NoneLost(w: World) {
    && (forall h :: 0 <= h < |w.handles| && w.handles[h].Some? ==> w.handles[h].value < |w.descriptors|)
    && (forall k :: 0 <= k < |w.descriptors| && !Shared(w.handles, k) ==> w.descriptors[k].Refs() == [])
  }

  ghost predicate Inv(w: World) {
    && Sound(w.ledger, w.storages)
    && w.ledger.refs == w.own + Total(w.descriptors)
    && AllReady(w) && Separate(w.descriptors) && NoneLost(w)
    && forall id: nat :: Queued(w.ledger.stream, id) ==> id < w.tasks
  }

  // ----- every step keeps it -----

  /** Only descriptor k and the ledger change: the references move between them, the task stays the
      same or is gone, and only that task may have been queued. */
  ghost predicate Changes(w: World, k: nat, ledger: Ledger, d: Descriptor, own: multiset<Storage>)
    requires k < |w.descriptors|
  {
    var was := w.descriptors[k];
    && Sound(ledger, w.storages)
    && Moves(w.ledger.refs, multiset(was.Refs()), w.own, ledger.refs, multiset(d.Refs()), own)
    && Ready(d, ledger.stream, w.tasks)
    && (d.task.Some? ==> was.task.Some? && d.task.value.id == was.task.value.id)
    && (forall id: nat :: Queued(ledger.stream, id) ==>
         Queued(w.ledger.stream, id) || (was.task.Some? && d.task.None? && id == was.task.value.id))
  }

  /** All references grow by what a descriptor and the user hold more, and shrink by what they hold
      less. */
  ghost predicate Moves(refs: multiset<Storage>, was: multiset<Storage>, own: multiset<Storage>,
                        refs': multiset<Storage>, now: multiset<Storage>, own': multiset<Storage>) {
    refs' + was + own == refs + now + own'
  }

  lemma MovesSame(refs: multiset<Storage>, was: multiset<Storage>, own: multiset<Storage>)
    ensures Moves(refs, was, own, refs, was, own)
  {
  }

  lemma MovesAdd(refs: multiset<Storage>, was: multiset<Storage>, own: multiset<Storage>, s: Storage)
    ensures Moves(refs, was, own, refs + multiset{s}, was + multiset{s}, own)
    ensures Moves(refs, was, own, refs + multiset{s}, was, own + multiset{s})
  {
  }

  lemma MovesAway(refs: multiset<Storage>, was: multiset<Storage>, own: multiset<Storage>)
    requires was <= refs
    ensures Moves(refs, was, own, refs - was, multiset{}, own)
  {
  }

  lemma MovesOwn(refs: multiset<Storage>, own: multiset<Storage>, s: Storage)
    requires s in own && s in refs
    ensures Moves(refs, multiset{}, own, refs - multiset{s}, multiset{}, own - multiset{s})
  {
  }

  lemma MovesTo(refs: multiset<Storage>, was: multiset<Storage>, own: multiset<Storage>,
                refs': multiset<Storage>, now: multiset<Storage>)
    requires refs' + was == refs + now
    ensures Moves(refs, was, own, refs', now, own)
  {
    assert refs' + was + own == refs + now + own;
  }

  lemma Balance(refs: multiset<Storage>, was: multiset<Storage>, own: multiset<Storage>, refs': multiset<Storage>,
                now: multiset<Storage>, own': multiset<Storage>, total: multiset<Storage>, total': multiset<Storage>)
    requires refs == own + total
    requires Moves(refs, was, own, refs', now, own')
    requires total' + was == total + now
    ensures refs' == own' + total'
  {
    forall s ensures refs'[s] == (own' + total')[s] {
      assert (refs' + was + own)[s] == refs'[s] + was[s] + own[s];
      assert (refs + now + own')[s] == refs[s] + now[s] + own'[s];
      assert (total' + was)[s] == (total + now)[s];
    }
  }

  lemma ReadyStays(d: Descriptor, stream: seq<Op>, next: seq<Op>, tasks: nat)
    requires Ready(d, stream, tasks)
    requires d.task.Some? ==> !Queued(next, d.task.value.id)
    ensures Ready(d, next, tasks)
  {
  }

  lemma ChangeKeeps(w: World, k: nat, ledger: Ledger, d: Descriptor, own: multiset<Storage>, handles: seq<Option<nat>>)
    requires Inv(w) && k < |w.descriptors| && Changes(w, k, ledger, d, own)
    requires forall h :: 0 <= h < |handles| && handles[h].Some? ==> handles[h].value < |w.descriptors|
    requires forall j :: 0 <= j < |w.descriptors| && j != k && Shared(w.handles, j) ==> Shared(handles, j)
    requires !Shared(handles, k) ==> d.Refs() == []
    ensures Inv(w.(ledger := ledger, own := own, descriptors := w.descriptors[k := d], handles := handles))
  {
    hide Sound, Queued, Total, Shared, Moves;
    var was, ds := w.descriptors[k], w.descriptors[k := d];
    TotalUpdate(w.descriptors, k, d);
    Balance(w.ledger.refs, multiset(was.Refs()), w.own, ledger.refs, multiset(d.Refs()), own, Total(w.descriptors),
      Total(ds));
    forall j | 0 <= j < |ds| ensures Ready(ds[j], ledger.stream, w.tasks) {
      if j != k {
        assert Ready(w.descriptors[j], w.ledger.stream, w.tasks);
        ReadyStays(ds[j], w.ledger.stream, ledger.stream, w.tasks);
      }
    }
  }

  lemma OwnCounted(w: World, s: Storage)
    requires Inv(w) && s in w.own
    ensures s in w.ledger.refs && s < w.storages
  {
  }

  lemma AddRefs(d: Descriptor, s: Storage, part: bool)
    ensures multiset(d.(parts := d.parts + [s]).Refs()) == multiset(d.Refs()) + multiset{s}
    ensures multiset(d.(stores := d.stores + [s]).Refs()) == multiset(d.Refs()) + multiset{s}
    ensures forall t :: t in d.Refs() || t == s ==>
      t in d.(parts := d.parts + [s]).Refs() && t in d.(stores := d.stores + [s]).Refs()
  {
    assert d.(parts := d.parts + [s]).Refs() == d.Refs() + [s];
    var e := d.(stores := d.stores + [s]);
    assert e.Refs() == d.stores + [s] + d.parts;
    assert multiset(e.Refs()) == multiset(d.stores) + multiset{s} + multiset(d.parts);
    assert multiset(d.Refs()) == multiset(d.stores) + multiset(d.parts);
    assert e.Refs()[|d.stores|] == s;
    forall t | t in d.Refs() ensures t in e.Refs() {
      assert t in multiset(d.Refs());
      assert t in multiset(e.Refs());
    }
  }

  lemma AcquireSound(l: Ledger, s: Storage, n: nat)
    requires Sound(l, n) && s <= n
    requires s == n || s in l.refs
    ensures Sound(Acquire(l, s), if s == n then n + 1 else n)
  {
    hide Safe, Once, Discarded;
  }

  lemma AddChanges(w: World, k: nat, s: Storage, part: bool, accepted: bool)
    requires Inv(w) && k < |w.descriptors| && s in w.ledger.refs && s < w.storages
    ensures var (ledger, e, _) := Added(w.ledger, w.descriptors[k], s, part, accepted);
      Changes(w, k, ledger, e, w.own)
  {
    var d := w.descriptors[k];
    assert Ready(d, w.ledger.stream, w.tasks);
    AddRefs(d, s, part);
    MovesAdd(w.ledger.refs, multiset(d.Refs()), w.own, s);
    MovesSame(w.ledger.refs, multiset(d.Refs()), w.own);
    AcquireSound(w.ledger, s, w.storages);
    hide Sound, Queued, Total, Moves, AllReady, Separate, NoneLost;
  }

  lemma AddKeeps(w: World, h: nat, s: Storage, part: bool, accepted: bool)
    requires Inv(w) && CanDo(w, Add(h, s, part, accepted))
    ensures Inv(Step(w, Add(h, s, part, accepted)))
  {
    var k := w.handles[h].value;
    var (ledger, e, _) := Added(w.ledger, w.descriptors[k], s, part, accepted);
    OwnCounted(w, s);
    AddChanges(w, k, s, part, accepted);
    hide Changes, Inv;
    assert Shared(w.handles, k);
    assert NoneLost(w) by { InvLost(w); }
    ChangeKeeps(w, k, ledger, e, w.own, w.handles);
  }

  lemma InvLost(w: World)
    requires Inv(w)
    ensures NoneLost(w)
  {
  }

  /** Only the user's own references change. */
  lemma OwnKeeps(w: World, ledger: Ledger, own: multiset<Storage>, storages: nat)
    requires Inv(w) && Sound(ledger, storages) && Moves(w.ledger.refs, multiset{}, w.own, ledger.refs, multiset{}, own)
    requires forall id: nat :: Queued(ledger.stream, id) <==> Queued(w.ledger.stream, id)
    ensures Inv(w.(ledger := ledger, own := own, storages := storages))
  {
    hide Sound, Queued, Total, Moves;
    Balance(w.ledger.refs, multiset{}, w.own, ledger.refs, multiset{}, own, Total(w.descriptors), Total(w.descriptors));
    forall j | 0 <= j < |w.descriptors| ensures Ready(w.descriptors[j], ledger.stream, w.tasks) {
      ReadyStays(w.descriptors[j], w.ledger.stream, ledger.stream, w.tasks);
    }
  }

  lemma StoreKeeps(w: World, e: Event)
    requires Inv(w) && CanDo(w, e) && (e.NewStore? || e.ShareStore? || e.DropStore?)
    ensures Inv(Step(w, e))
  {
    hide Safe, Once, Queued, Total, AllReady, Separate, NoneLost, Moves;
    match e
    case NewStore =>
      AcquireSound(w.ledger, w.storages, w.storages);
      MovesAdd(w.ledger.refs, multiset{}, w.own, w.storages);
      hide Sound;
      OwnKeeps(w, Acquire(w.ledger, w.storages), w.own + multiset{w.storages}, w.storages + 1);
    case ShareStore(s) =>
      OwnCounted(w, s);
      AcquireSound(w.ledger, s, w.storages);
      MovesAdd(w.ledger.refs, multiset{}, w.own, s);
      hide Sound;
      OwnKeeps(w, Acquire(w.ledger, s), w.own + multiset{s}, w.storages);
    case DropStore(s) =>
      OwnCounted(w, s);
      DropSound(w.ledger, s, w.storages);
      MovesOwn(w.ledger.refs, w.own, s);
      hide Sound;
      OwnKeeps(w, Drop(w.ledger, s), w.own - multiset{s}, w.storages);
  }

  lemma NewTaskReady(w: World, kind: Kind)
    requires Inv(w)
    ensures AllReady(Step(w, NewTask(kind))) && Separate(Step(w, NewTask(kind)).descriptors)
  {
    hide Sound, Queued, Total, NoneLost, Shared, Descriptor.Refs;
    var next, n := Step(w, NewTask(kind)), |w.descriptors|;
    forall j | 0 <= j < n ensures Ready(next.descriptors[j], next.ledger.stream, next.tasks) {
      assert Ready(w.descriptors[j], w.ledger.stream, w.tasks);
    }
  }

  lemma MoreShared(handles: seq<Option<nat>>, h: Option<nat>, j: nat)
    ensures Shared(handles + [h], j) <==> Shared(handles, j) || h == Some(j)
  {
    assert (handles + [h])[|handles|] == h;
    if i :| 0 <= i < |handles| && handles[i] == Some(j) {
      assert (handles + [h])[i] == Some(j);
    }
  }

  lemma NewTaskHeld(w: World, kind: Kind)
    requires NoneLost(w)
    ensures NoneLost(Step(w, NewTask(kind)))
  {
    hide Shared;
    var next, n := Step(w, NewTask(kind)), |w.descriptors|;
    forall j | 0 <= j < n ensures Shared(next.handles, j) <==> Shared(w.handles, j) {
      MoreShared(w.handles, Some(n), j);
    }
    assert next.descriptors[n].Refs() == [];
  }

  /** A new descriptor holds nothing. */
  lemma TotalMore(ds: seq<Descriptor>, d: Descriptor)
    requires d.Refs() == []
    ensures Total(ds + [d]) == Total(ds)
  {
    assert (ds + [d])[..|ds|] == ds;
    TotalLast(ds + [d]);
    hide Total;
    assert Total(ds) + multiset(d.Refs()) == Total(ds);
  }

  lemma NewTaskTotal(w: World, kind: Kind)
    ensures Total(Step(w, NewTask(kind)).descriptors) == Total(w.descriptors)
  {
    var d := Descriptor(Some(Task(w.tasks, kind, [])), kind == Manually, [], []);
    hide Total;
    TotalMore(w.descriptors, d);
    assert Step(w, NewTask(kind)).descriptors == w.descriptors + [d];
  }

  lemma NewTaskKeeps(w: World, kind: Kind)
    requires Inv(w)
    ensures Inv(Step(w, NewTask(kind)))
  {
    NewTaskReady(w, kind);
    NewTaskHeld(w, kind);
    NewTaskTotal(w, kind);
    hide Sound, Queued, AllReady, Separate, NoneLost, Total;
  }

  lemma CopyKeeps(w: World, h: nat)
    requires Inv(w) && CanDo(w, CopyHandle(h))
    ensures Inv(Step(w, CopyHandle(h)))
  {
    hide Sound, Total, Separate, Ready, Queued;
    var next := Step(w, CopyHandle(h));
    forall j: nat | Shared(w.handles, j) ensures Shared(next.handles, j) {
      MoreShared(w.handles, w.handles[h], j);
    }
  }

  /** What a descriptor holds is counted. */
  lemma HeldCounted(w: World, k: nat)
    requires Inv(w) && k < |w.descriptors|
    ensures multiset(w.descriptors[k].Refs()) <= w.ledger.refs
  {
    TotalHas(w.descriptors, k);
  }

  lemma StillShared(handles: seq<Option<nat>>, h: nat, j: nat)
    requires h < |handles| && Shared(handles, j) && handles[h] != Some(j)
    ensures Shared(handles[h := None], j)
  {
    var i :| 0 <= i < |handles| && handles[i] == Some(j);
    assert handles[h := None][i] == Some(j);
  }

  lemma LastDropChanges(w: World, k: nat)
    requires Inv(w) && k < |w.descriptors|
    ensures var d := w.descriptors[k];
      var e := Emptied(d).(task := None);
      e.Refs() == [] && Changes(w, k, DropAll(w.ledger, d.Refs()), e, w.own)
  {
    var d := w.descriptors[k];
    HeldCounted(w, k);
    hide Safe, Once, Queued, Total, Separate, AllReady, NoneLost;
    DropAllSound(w.ledger, d.Refs(), w.storages);
    MovesAway(w.ledger.refs, multiset(d.Refs()), w.own);
    hide Sound, Moves;
    assert multiset(Emptied(d).(task := None).Refs()) == multiset{};
  }

  lemma NoChange(w: World, k: nat)
    requires Inv(w) && k < |w.descriptors|
    ensures Changes(w, k, w.ledger, w.descriptors[k], w.own)
  {
    MovesSame(w.ledger.refs, multiset(w.descriptors[k].Refs()), w.own);
    hide Sound, Queued, Total, Separate, NoneLost, Moves;
  }

  lemma DropHandleKeeps(w: World, h: nat)
    requires Inv(w) && CanDo(w, DropHandle(h))
    ensures Inv(Step(w, DropHandle(h)))
  {
    var k, handles := w.handles[h].value, w.handles[h := None];
    var d := w.descriptors[k];
    InvLost(w);
    forall j | 0 <= j < |w.descriptors| && j != k && Shared(w.handles, j) ensures Shared(handles, j) {
      StillShared(w.handles, h, j);
    }
    hide Inv, Changes, Shared, DropAll;
    if Shared(handles, k) {
      NoChange(w, k);
      ChangeKeeps(w, k, w.ledger, d, w.own, handles);
      assert w.descriptors[k := d] == w.descriptors;
    } else {
      LastDropChanges(w, k);
      ChangeKeeps(w, k, DropAll(w.ledger, d.Refs()), Emptied(d).(task := None), w.own, handles);
    }
  }

  lemma SubmitChanges(w: World, k: nat, outcome: Outcome)
    requires Inv(w) && k < |w.descriptors|
    ensures var (ledger, e, _) := Submitted(w.ledger, w.descriptors[k], outcome);
      Changes(w, k, ledger, e, w.own)
  {
    var d := w.descriptors[k];
    assert Ready(d, w.ledger.stream, w.tasks);
    HeldCounted(w, k);
    SubmittedSound(w.ledger, d, outcome, w.storages);
    var (ledger, e, _) := Submitted(w.ledger, d, outcome);
    MovesTo(w.ledger.refs, multiset(d.Refs()), w.own, ledger.refs, multiset(e.Refs()));
    hide Moves, Sound, Queued, Total, Separate, Submitted, AllReady, NoneLost;
  }

  lemma SubmitKeeps(w: World, h: nat, outcome: Outcome)
    requires Inv(w) && CanDo(w, Submit(h, outcome))
    ensures Inv(Step(w, Submit(h, outcome)))
  {
    var k := w.handles[h].value;
    var (ledger, e, _) := Submitted(w.ledger, w.descriptors[k], outcome);
    SubmitChanges(w, k, outcome);
    InvLost(w);
    hide Inv, Changes, Submitted;
    assert Shared(w.handles, k);
    ChangeKeeps(w, k, ledger, e, w.own, w.handles);
  }

  lemma StepKeeps(w: World, e: Event)
    requires Inv(w) && CanDo(w, e)
    ensures Inv(Step(w, e))
  {
    hide Inv;
    match e
    case NewStore => StoreKeeps(w, e);
    case ShareStore(_) => StoreKeeps(w, e);
    case DropStore(_) => StoreKeeps(w, e);
    case NewTask(kind) => NewTaskKeeps(w, kind);
    case CopyHandle(h) => CopyKeeps(w, h);
    case DropHandle(h) => DropHandleKeeps(w, h);
    case Add(h, s, part, accepted) => AddKeeps(w, h, s, part, accepted);
    case Submit(h, outcome) => SubmitKeeps(w, h, outcome);
  }

  // ----- whole programs -----

  lemma {:induction false} RunKeeps(w: World, events: seq<Event>)
    requires Inv(w) && IsRun(w, events)
    ensures Inv(After(w, events))
    decreases |events|
  {
    hide Inv, Step, CanDo;
    if events != [] {
      StepKeeps(w, events[0]);
      RunKeeps(Step(w, events[0]), events[1..]);
    }
  }

  lemma StartInv()
    ensures Inv(START)
  {
  }

  /** Whatever a program does, no task in the stream comes after the discard of a storage it uses, no
      task is queued twice, and a storage is discarded, once, exactly when no user reference to it is
      left anywhere. */
  lemma StreamIsSafe(events: seq<Event>)
    requires IsRun(START, events)
    ensures var w := After(START, events);
      && Safe(w.ledger.stream) && Once(w.ledger.stream)
      && forall s: Storage :: Discarded(w.ledger.stream, s) <==>
           s < w.storages && s !in w.own && forall k: nat :: k < |w.descriptors| ==> !Holds(w.descriptors, k, s)
  {
    StartInv();
    RunKeeps(START, events);
    var w := After(START, events);
    hide Safe, Once, Discarded, After, IsRun, AllReady, Separate, NoneLost;
    forall s: Storage
      ensures s in Total(w.descriptors) <==> exists k: nat :: k < |w.descriptors| && Holds(w.descriptors, k, s)
    {
      TotalMembers(w.descriptors, s);
    }
    hide Total, Sound;
  }

  predicate Holds(ds: seq<Descriptor>, k: nat, s: Storage)
    requires k < |ds|
  {
    s in multiset(ds[k].Refs())
  }

  lemma {:induction false} TotalMembers(ds: seq<Descriptor>, s: Storage)
    ensures s in Total(ds) <==> exists k: nat :: k < |ds| && Holds(ds, k, s)
  {
    if ds != [] {
      var n := |ds| - 1;
      TotalMembers(ds[..n], s);
      TotalLast(ds);
      hide Total;
      assert Holds(ds, n, s) <==> s in multiset(ds[n].Refs());
      assert forall k: nat :: k < n ==> (Holds(ds, k, s) <==> Holds(ds[..n], k, s));
    }
  }

  /** Once the program holds nothing any more, every storage has been discarded. */
  lemma NothingLeaks(events: seq<Event>)
    requires IsRun(START, events)
    requires var w := After(START, events);
      w.own == multiset{} && forall h :: 0 <= h < |w.handles| ==> w.handles[h].None?
    ensures var w := After(START, events);
      forall s: Storage :: s < w.storages ==> Discarded(w.ledger.stream, s)
  {
    StartInv();
    RunKeeps(START, events);
    var w := After(START, events);
    hide Safe, Once, Discarded, After, IsRun, AllReady, Separate;
    TotalNothing(w.descriptors);
  }

  /** At every submit that queues a task, in any program: every storage the task was given is still
      among the references of its descriptor. When the call succeeds, none of them is; and in any
      case the descriptor, so every copy of the handle, is empty. */
  lemma SubmitHolds(events: seq<Event>, h: nat, outcome: Outcome)
    requires IsRun(START, events)
    requires CanDo(After(START, events), Submit(h, outcome))
    ensures var w := After(START, events);
      var d, next := Of(w, h), Step(w, Submit(h, outcome)).descriptors[w.handles[h].value];
      && (d.task.Some? && d.task.value.kind != Inline
        ==> forall s <- d.task.value.args :: s in d.Refs() && s in w.ledger.refs)
      && next.task == None
      && (d.task.Some? && outcome == Done ==> next.Refs() == [])
  {
    StartInv();
    RunKeeps(START, events);
    var w := After(START, events);
    hide After, IsRun;
    assert CanDo(w, Submit(h, outcome));
    SubmitHoldsIn(w, h, outcome);
  }

  lemma SubmitHoldsIn(w: World, h: nat, outcome: Outcome)
    requires Inv(w) && CanDo(w, Submit(h, outcome))
    ensures var d, next := Of(w, h), Step(w, Submit(h, outcome)).descriptors[w.handles[h].value];
      && (d.task.Some? && d.task.value.kind != Inline
        ==> forall s <- d.task.value.args :: s in d.Refs() && s in w.ledger.refs)
      && next.task == None
      && (d.task.Some? && outcome == Done ==> next.Refs() == [])
  {
    var k := w.handles[h].value;
    var d := w.descriptors[k];
    assert Ready(d, w.ledger.stream, w.tasks);
    HeldCounted(w, k);
    hide Sound, Queued, DropAll, Total, AllReady, NoneLost, Separate, Enqueued, Emptied;
    assert Emptied(d.(task := None)).Refs() == [] by { EmptiedRefs(d); }
    forall s | s in d.Refs() ensures s in w.ledger.refs {
      assert s in multiset(d.Refs());
    }
  }
}

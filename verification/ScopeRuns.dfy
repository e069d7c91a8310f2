/** Whole runs of scopes: any number of them alive at once, set, moved and ended in any order. */
module ScopeRuns {
  import opened Wrappers
  import opened Machines
  import opened ScopeModel
  import opened ScopeCell

  /** The six parameters, seen uniformly. */
  datatype Param = Priority | Mode | Provenance | Procs | Parallel | Window

  datatype Val = IntVal(i: int) | ModeVal(m: ExceptionMode) | TextVal(t: string)
               | MachineVal(machine: Machine) | PolicyVal(policy: Policy)

  function Get(g: Globals, p: Param): Val {
    match p
    case Priority => IntVal(g.priority)
    case Mode => ModeVal(g.exceptionMode)
    case Provenance => TextVal(g.provenance)
    case Procs => MachineVal(g.machine)
    case Parallel => PolicyVal(g.policy)
    case Window => IntVal(g.window)
  }

  function MapOption<T, U>(o: Option<T>, f: T -> U): Option<U> {
    match o
    case None => None
    case Some(v) => Some(f(v))
  }

  function GetSaved(s: Saved, p: Param): Option<Val> {
    match p
    case Priority => MapOption(s.priority, (v: int) => IntVal(v))
    case Mode => MapOption(s.exceptionMode, (v: ExceptionMode) => ModeVal(v))
    case Provenance => MapOption(s.provenance, (v: string) => TextVal(v))
    case Procs => MapOption(s.machine, (v: Machine) => MachineVal(v))
    case Parallel => MapOption(s.policy, (v: Policy) => PolicyVal(v))
    case Window => MapOption(s.window, (v: nat) => IntVal(v))
  }

  lemma SameGlobals(g: Globals, h: Globals)
    requires forall p :: Get(g, p) == Get(h, p)
    ensures g == h
  {
    assert Get(g, Priority) == Get(h, Priority) && Get(g, Mode) == Get(h, Mode);
    assert Get(g, Provenance) == Get(h, Provenance) && Get(g, Procs) == Get(h, Procs);
    assert Get(g, Parallel) == Get(h, Parallel) && Get(g, Window) == Get(h, Window);
  }

  // ----- runs -----

  type Handle = nat // a Scope object; an Id names an Impl

  /** impls: the live Impls. owner: the Scope objects, None once moved from. log: history, not state
      of the program: the sets by live scopes, parameter by parameter, oldest first. */
  datatype World = World(g: Globals, impls: map<Id, Saved>, owner: map<Handle, Option<Id>>,
                         log: map<Param, seq<Entry<Val>>>)

  datatype Event =
    | Open(h: Handle, id: Id)
    | Set(h: Handle, setting: Setting)
    | Move(to: Handle, from: Handle)
    | Close(h: Handle, flushFails: bool)

  /** What the program may do next: objects are fresh when constructed, and a moved-from Scope is
      only good for destruction (or for being moved from again). */
  predicate Enabled(w: World, e: Event) {
    match e
    case Open(h, id) => h !in w.owner && id !in w.impls
    case Set(h, _) => h in w.owner && w.owner[h].Some?
    case Move(to, from) => to !in w.owner && from in w.owner
    case Close(h, _) => h in w.owner
  }

  function Log(w: World, p: Param): seq<Entry<Val>> {
    if p in w.log then w.log[p] else []
  }

  /** The value that a setting asks of parameter p, with g in force: a machine within the one in force, a
      window of 1024 for a streaming policy while the window is smaller. */
  function Asked(g: Globals, setting: Setting, p: Param): Option<Val> {
    match (setting, p)
    case (SetPriority(v), Priority) => Some(IntVal(v))
    case (SetExceptionMode(v), Mode) => Some(ModeVal(v))
    case (SetProvenance(v), Provenance) => Some(TextVal(v))
    case (SetMachine(m), Procs) => MapOption(MachineAnd(g.machine, m), (both: Machine) => MachineVal(both))
    case (SetPolicy(v, _), Parallel) => Some(PolicyVal(v))
    case (SetPolicy(v, _), Window) => if v.mode != OFF && g.window < 1024 then Some(IntVal(1024)) else None
    case _ => None
  }

  /** The entry that a set adds, if it exchanged p at all: what was asked. */
  function Added(id: Id, g: Globals, s: Saved, setting: Setting, p: Param): seq<Entry<Val>> {
    if GetSaved(s, p).None? && GetSaved(Apply(g, s, setting).s, p).Some? && Asked(g, setting, p).Some?
    then [Entry(id, Asked(g, setting, p).value)] else []
  }

  function Step(w: World, e: Event): World
    requires Enabled(w, e) && Owned(w)
  {
    match e
    case Open(h, id) => w.(impls := w.impls[id := NOTHING], owner := w.owner[h := Some(id)])
    case Set(h, setting) =>
      var id := w.owner[h].value;
      var s := w.impls[id];
      var eff := Apply(w.g, s, setting);
      World(eff.g, w.impls[id := eff.s], w.owner, map p: Param :: Log(w, p) + Added(id, w.g, s, setting, p))
    case Move(to, from) => w.(owner := w.owner[from := None][to := w.owner[from]])
    case Close(h, _) =>
      if w.owner[h].None? then w.(owner := w.owner - {h}) else
      var id := w.owner[h].value;
      World(Restored(w.g, w.impls[id]), w.impls - {id}, w.owner - {h}, map p: Param :: Without(Log(w, p), id))
  }

  /** Every live Impl has exactly one owner. */
  predicate Owned(w: World) {
    OwnedBy(w.owner, w.impls.Keys)
  }

  predicate OwnedBy(owner: map<Handle, Option<Id>>, ids: set<Id>) {
    && (forall h :: h in owner && owner[h].Some? ==> owner[h].value in ids)
    && (forall h, k :: h in owner && k in owner && owner[h].Some? && owner[h] == owner[k] ==> h == k)
    && (forall id :: id in ids ==> exists h :: h in owner && owner[h] == Some(id))
  }

  /** One parameter of a world. */
  function Project(w: World, p: Param): Cell<Val> {
    Cell(Get(w.g, p), SavedBy(w.impls, p), Log(w, p))
  }

  /** What the live scopes saved of one parameter. */
  function SavedBy(impls: map<Id, Saved>, p: Param): map<Id, Val> {
    map id | id in impls && GetSaved(impls[id], p).Some? :: GetSaved(impls[id], p).value
  }

  lemma SavedByPut(impls: map<Id, Saved>, id: Id, s: Saved, p: Param)
    ensures SavedBy(impls[id := s], p)
      == if GetSaved(s, p).Some? then SavedBy(impls, p)[id := GetSaved(s, p).value] else SavedBy(impls, p) - {id}
  {
    hide GetSaved;
  }

  lemma SavedByDrop(impls: map<Id, Saved>, id: Id, p: Param)
    ensures SavedBy(impls - {id}, p) == SavedBy(impls, p) - {id}
  {
    hide GetSaved;
  }

  lemma SavedByHas(impls: map<Id, Saved>, id: Id, p: Param)
    requires id in impls
    ensures id in SavedBy(impls, p) <==> GetSaved(impls[id], p).Some?
    ensures GetSaved(impls[id], p).Some? ==> SavedBy(impls, p)[id] == GetSaved(impls[id], p).value
  {
    hide GetSaved;
  }

  /** The scope an event ends, if any. */
  function Ended(w: World, e: Event): Option<Id>
    requires Enabled(w, e)
  {
    if e.Close? then w.owner[e.h] else None
  }

  /** A scope ends before every other scope that set one of its parameters earlier. */
  predicate StackOrdered(w: World, e: Event)
    requires Enabled(w, e)
  {
    Ended(w, e).Some? ==> forall p :: OnTop(Project(w, p), Ended(w, e).value)
  }

  /** Every parameter has the value of the latest live scope that set it. */
  ghost predicate AllInForce(w: World, init: Globals) {
    forall p :: InForce(Project(w, p), Get(init, p))
  }

  ghost predicate WorldInv(w: World, init: Globals) {
    Owned(w) && forall p :: Inv(Project(w, p), Get(init, p))
  }

  // ----- one step -----

  /** A set either leaves a parameter and its saved value alone, or saves the value it replaces by the one
      asked for. */
  lemma SetEffect(g: Globals, s: Saved, setting: Setting, p: Param)
    ensures var e := Apply(g, s, setting);
      (GetSaved(e.s, p) == GetSaved(s, p) && Get(e.g, p) == Get(g, p))
      || (GetSaved(s, p).None? && GetSaved(e.s, p) == Some(Get(g, p)) && Asked(g, setting, p) == Some(Get(e.g, p)))
  {
  }

  lemma RestoreEffect(g: Globals, s: Saved, p: Param)
    ensures Get(Restored(g, s), p) == Or(GetSaved(s, p), Get(g, p))
  {
  }

  lemma StepSet(w: World, e: Event, p: Param)
    requires Enabled(w, e) && Owned(w) && e.Set?
    ensures var id := w.owner[e.h].value;
      var eff := Apply(w.g, w.impls[id], e.setting);
      && Step(w, e).g == eff.g && Step(w, e).impls == w.impls[id := eff.s]
      && Log(Step(w, e), p) == Log(w, p) + Added(id, w.g, w.impls[id], e.setting, p)
  {
    hide Apply, Added;
  }

  lemma ProjectSet(w: World, e: Event, p: Param)
    requires Enabled(w, e) && Owned(w) && e.Set?
    ensures var id, c := w.owner[e.h].value, Project(w, p);
      Project(Step(w, e), p) == c
      || (id !in c.saved && Project(Step(w, e), p) == SetBy(c, id, Get(Step(w, e).g, p)))
  {
    hide Apply, Get, GetSaved, Step, Log, SavedBy, Asked;
    var id, c, c' := w.owner[e.h].value, Project(w, p), Project(Step(w, e), p);
    var s := w.impls[id];
    var eff := Apply(w.g, s, e.setting);
    StepSet(w, e, p);
    SetEffect(w.g, s, e.setting, p);
    SavedByHas(w.impls, id, p);
    SavedByPut(w.impls, id, eff.s, p);
    if GetSaved(eff.s, p) == GetSaved(s, p) {
      assert c'.log == c.log && c'.saved == c.saved;
    }
  }

  lemma StepClose(w: World, e: Event, p: Param)
    requires Enabled(w, e) && Owned(w) && Ended(w, e).Some?
    ensures var id := Ended(w, e).value;
      && Step(w, e).g == Restored(w.g, w.impls[id]) && Step(w, e).impls == w.impls - {id}
      && Log(Step(w, e), p) == Without(Log(w, p), id)
  {
    hide Restored, Without;
  }

  lemma ProjectClose(w: World, e: Event, p: Param)
    requires Enabled(w, e) && Owned(w) && Ended(w, e).Some?
    ensures Project(Step(w, e), p) == EndOf(Project(w, p), Ended(w, e).value)
  {
    hide Restored, Get, GetSaved, Without, Step, Log, SavedBy;
    var id := Ended(w, e).value;
    StepClose(w, e, p);
    RestoreEffect(w.g, w.impls[id], p);
    SavedByHas(w.impls, id, p);
    SavedByDrop(w.impls, id, p);
  }

  lemma StepOther(w: World, e: Event, p: Param)
    requires Enabled(w, e) && Owned(w) && !e.Set? && Ended(w, e).None?
    ensures Step(w, e).g == w.g && Log(Step(w, e), p) == Log(w, p)
    ensures Step(w, e).impls == if e.Open? then w.impls[e.id := NOTHING] else w.impls
  {
  }

  lemma ProjectOther(w: World, e: Event, p: Param)
    requires Enabled(w, e) && Owned(w) && !e.Set? && Ended(w, e).None?
    ensures Project(Step(w, e), p) == Project(w, p)
  {
    assert GetSaved(NOTHING, p).None?;
    hide Step, Get, GetSaved, Log;
    StepOther(w, e, p);
    if e.Open? {
      SavedByPut(w.impls, e.id, NOTHING, p);
      assert e.id !in SavedBy(w.impls, p);
      hide SavedBy;
      assert SavedBy(w.impls, p) - {e.id} == SavedBy(w.impls, p);
    }
  }

  lemma OpenOwned(owner: map<Handle, Option<Id>>, ids: set<Id>, h: Handle, id: Id)
    requires OwnedBy(owner, ids) && h !in owner && id !in ids
    ensures OwnedBy(owner[h := Some(id)], ids + {id})
  {
    var owner' := owner[h := Some(id)];
    forall i | i in ids + {id} ensures exists k :: k in owner' && owner'[k] == Some(i) {
      if i == id {
        assert owner'[h] == Some(i);
      } else {
        var k :| k in owner && owner[k] == Some(i);
        assert owner'[k] == Some(i);
      }
    }
  }

  lemma MoveOwned(owner: map<Handle, Option<Id>>, ids: set<Id>, to: Handle, from: Handle)
    requires OwnedBy(owner, ids) && to !in owner && from in owner
    ensures OwnedBy(owner[from := None][to := owner[from]], ids)
  {
    var owner' := owner[from := None][to := owner[from]];
    forall i | i in ids ensures exists k :: k in owner' && owner'[k] == Some(i) {
      var k :| k in owner && owner[k] == Some(i);
      assert owner'[if k == from then to else k] == Some(i);
    }
  }

  lemma CloseOwned(owner: map<Handle, Option<Id>>, ids: set<Id>, h: Handle)
    requires OwnedBy(owner, ids) && h in owner
    ensures OwnedBy(owner - {h}, if owner[h].Some? then ids - {owner[h].value} else ids)
  {
    var owner' := owner - {h};
    forall i | i in ids && owner[h] != Some(i) ensures exists k :: k in owner' && owner'[k] == Some(i) {
      var k :| k in owner && owner[k] == Some(i);
      assert owner'[k] == Some(i);
    }
  }

  lemma StepOwned(w: World, e: Event)
    requires Owned(w) && Enabled(w, e)
    ensures Owned(Step(w, e))
  {
    assert e.Set? ==> w.owner[e.h].value in w.impls;
    hide OwnedBy;
    match e
    case Open(h, id) =>
      OpenOwned(w.owner, w.impls.Keys, h, id);
      assert Step(w, e).impls.Keys == w.impls.Keys + {id};
    case Move(to, from) =>
      MoveOwned(w.owner, w.impls.Keys, to, from);
    case Close(h, _) =>
      CloseOwned(w.owner, w.impls.Keys, h);
      if w.owner[h].Some? {
        assert Step(w, e).impls.Keys == w.impls.Keys - {w.owner[h].value};
      }
    case Set(h, _) =>
      assert Step(w, e).impls.Keys == w.impls.Keys;
  }

  /** Every step of a stack-ordered run keeps every parameter at the value of the latest live scope
      that set it. */
  lemma StepKeeps(w: World, e: Event, init: Globals)
    requires WorldInv(w, init) && Enabled(w, e) && StackOrdered(w, e)
    ensures WorldInv(Step(w, e), init)
  {
    StepOwned(w, e);
    hide Step, Project, Owned, Inv, OnTop, Get;
    forall p ensures Inv(Project(Step(w, e), p), Get(init, p)) {
      var c := Project(w, p);
      if e.Set? {
        ProjectSet(w, e, p);
        if Project(Step(w, e), p) != c {
          SetKeeps(c, Get(init, p), w.owner[e.h].value, Get(Step(w, e).g, p));
        }
      } else if Ended(w, e).Some? {
        ProjectClose(w, e, p);
        EndKeeps(c, Get(init, p), Ended(w, e).value);
      } else {
        ProjectOther(w, e, p);
      }
    }
  }

  /** Ending a scope out of order breaks the promise for some parameter, whenever values differ. */
  lemma StepExact(w: World, e: Event, init: Globals)
    requires WorldInv(w, init) && Enabled(w, e)
    requires forall p :: Distinct(Get(init, p), Log(w, p))
    ensures e.Close? ==> (AllInForce(Step(w, e), init) <==> StackOrdered(w, e))
  {
    hide Step, Owned, OnTop, Get, InForce;
    if e.Close? && Ended(w, e).Some? {
      forall p
        ensures InForce(Project(Step(w, e), p), Get(init, p)) <==> OnTop(Project(w, p), Ended(w, e).value)
      {
        ProjectClose(w, e, p);
        EndExact(Project(w, p), Get(init, p), Ended(w, e).value);
      }
    } else if e.Close? {
      forall p ensures InForce(Project(Step(w, e), p), Get(init, p)) {
        ProjectOther(w, e, p);
        assert Inv(Project(w, p), Get(init, p));
      }
    }
  }

  // ----- whole runs -----

  predicate Run(w: World, es: seq<Event>)
    requires Owned(w)
    decreases es
  {
    es == [] || (Enabled(w, es[0]) && (StepOwned(w, es[0]); Run(Step(w, es[0]), es[1..])))
  }

  function After(w: World, es: seq<Event>): World
    requires Owned(w) && Run(w, es)
    decreases es
  {
    if es == [] then w else (StepOwned(w, es[0]); After(Step(w, es[0]), es[1..]))
  }

  /** A run all of whose steps are in stack order. */
  predicate StackRun(w: World, es: seq<Event>)
    requires Owned(w) && Run(w, es)
    decreases es
  {
    es == [] || (StackOrdered(w, es[0]) && (StepOwned(w, es[0]); StackRun(Step(w, es[0]), es[1..])))
  }

  const NO_SCOPES: map<Param, seq<Entry<Val>>> := map[]

  lemma StartOwned(g: Globals)
    ensures Owned(Start(g))
  {
  }

  function Start(g: Globals): World {
    World(g, map[], map[], NO_SCOPES)
  }

  lemma {:induction false} RunKeeps(w: World, es: seq<Event>, init: Globals)
    requires WorldInv(w, init) && Run(w, es) && StackRun(w, es)
    ensures WorldInv(After(w, es), init)
    decreases es
  {
    if es != [] {
      StepKeeps(w, es[0], init);
      RunKeeps(Step(w, es[0]), es[1..], init);
    }
  }

  /** After every event of the run, every parameter has the value of the latest live scope that set it. */
  ghost predicate InForceThroughout(w: World, es: seq<Event>, init: Globals)
    requires Owned(w) && Run(w, es)
    decreases es
  {
    es == [] || (StepOwned(w, es[0]);
                 AllInForce(Step(w, es[0]), init) && InForceThroughout(Step(w, es[0]), es[1..], init))
  }

  /** At no time do two live scopes have a parameter set to one value, or to its initial one. */
  ghost predicate DistinctThroughout(w: World, es: seq<Event>, init: Globals)
    requires Owned(w) && Run(w, es)
    decreases es
  {
    && (forall p :: Distinct(Get(init, p), Log(w, p)))
    && (es == [] || (StepOwned(w, es[0]); DistinctThroughout(Step(w, es[0]), es[1..], init)))
  }

  lemma {:induction false} RunExactFrom(w: World, es: seq<Event>, init: Globals)
    requires WorldInv(w, init) && Run(w, es) && DistinctThroughout(w, es, init)
    ensures InForceThroughout(w, es, init) <==> StackRun(w, es)
    decreases es
  {
    if es != [] {
      StepOwned(w, es[0]);
      hide WorldInv, AllInForce, StackOrdered, Step, Enabled, Distinct;
      if StackOrdered(w, es[0]) {
        StepKeeps(w, es[0], init);
        InvInForce(Step(w, es[0]), init);
        RunExactFrom(Step(w, es[0]), es[1..], init);
      } else {
        OnlyClosing(w, es[0]);
        StepExact(w, es[0], init);
      }
    }
  }

  lemma InvInForce(w: World, init: Globals)
    requires WorldInv(w, init)
    ensures AllInForce(w, init)
  {
    forall p ensures InForce(Project(w, p), Get(init, p)) {
      assert Inv(Project(w, p), Get(init, p));
    }
  }

  lemma OnlyClosing(w: World, e: Event)
    requires Enabled(w, e) && !StackOrdered(w, e)
    ensures e.Close?
  {
  }

  lemma StartInv(init: Globals)
    ensures WorldInv(Start(init), init)
  {
  }

  /** With distinct values, the parameters are what the latest live setters gave them after every event of
      a run exactly when the run is in stack order. */
  lemma RunExact(init: Globals, es: seq<Event>)
    requires Run(Start(init), es) && DistinctThroughout(Start(init), es, init)
    ensures InForceThroughout(Start(init), es, init) <==> StackRun(Start(init), es)
  {
    StartInv(init);
    RunExactFrom(Start(init), es, init);
  }

  /** Restoration: when a stack-ordered run is over and no Scope object is left, all six parameters
      have their initial values, whatever was set, moved or thrown on the way. */
  lemma Restoration(init: Globals, es: seq<Event>)
    requires Run(Start(init), es) && StackRun(Start(init), es)
    requires After(Start(init), es).owner == map[]
    ensures After(Start(init), es).g == init
  {
    var w := After(Start(init), es);
    RunKeeps(Start(init), es, init);
    forall p ensures Get(w.g, p) == Get(init, p) {
      assert Inv(Project(w, p), Get(init, p));
      LoggedIsSaved(Project(w, p), Get(init, p));
    }
    SameGlobals(w.g, init);
  }

  // ----- exactly when the initial values come back -----

  /** The scope of this set saves parameter p now. */
  predicate Saves(w: World, e: Event, p: Param)
    requires Owned(w) && Enabled(w, e)
  {
    e.Set? && var id := w.owner[e.h].value;
      id !in Project(w, p).saved && id in Project(Step(w, e), p).saved
  }

  /** No set of parameter p gives it the value v. */
  ghost predicate NeverGives(w: World, es: seq<Event>, p: Param, v: Val)
    requires Owned(w) && Run(w, es)
    decreases es
  {
    es == [] || (StepOwned(w, es[0]);
                 && (Saves(w, es[0], p) ==> Get(Step(w, es[0]).g, p) != v)
                 && NeverGives(Step(w, es[0]), es[1..], p, v))
  }

  /** A scope that saved parameter p ends while p has the value v. */
  predicate EndsOn(w: World, e: Event, p: Param, v: Val)
    requires Owned(w) && Enabled(w, e)
  {
    Ended(w, e).Some? && Ended(w, e).value in Project(w, p).saved && Get(w.g, p) == v
  }

  ghost predicate NeverEndsOn(w: World, es: seq<Event>, p: Param, v: Val)
    requires Owned(w) && Run(w, es)
    decreases es
  {
    es == [] || (StepOwned(w, es[0]);
                 !EndsOn(w, es[0], p, v) && NeverEndsOn(Step(w, es[0]), es[1..], p, v))
  }

  lemma StepPresent(w: World, e: Event, p: Param, v: Val)
    requires Owned(w) && Enabled(w, e) && OncePresent(Project(w, p), v)
    requires Saves(w, e, p) ==> Get(Step(w, e).g, p) != v
    ensures OncePresent(Project(Step(w, e), p), v)
    ensures Present(Project(Step(w, e), p), v) <==> Present(Project(w, p), v) && !EndsOn(w, e, p, v)
  {
    hide Present, OncePresent, Step, SetBy, EndOf;
    var c := Project(w, p);
    if e.Set? {
      ProjectSet(w, e, p);
      var id := w.owner[e.h].value;
      if Project(Step(w, e), p) != c {
        assert Saves(w, e, p) by { SetSaves(c, id, Get(Step(w, e).g, p)); }
        SetPresent(c, v, id, Get(Step(w, e).g, p));
      }
    } else if Ended(w, e).Some? {
      ProjectClose(w, e, p);
      var id := Ended(w, e).value;
      if id in c.saved {
        EndPresent(c, v, id);
      } else {
        EndAbsent(c, v, id);
      }
    } else {
      ProjectOther(w, e, p);
    }
  }

  lemma SetSaves(c: Cell<Val>, id: Id, v: Val)
    ensures id in SetBy(c, id, v).saved
  {
  }

  lemma {:induction false} RunPresent(w: World, es: seq<Event>, p: Param, v: Val)
    requires Owned(w) && Run(w, es) && OncePresent(Project(w, p), v) && NeverGives(w, es, p, v)
    ensures Present(Project(After(w, es), p), v) <==> Present(Project(w, p), v) && NeverEndsOn(w, es, p, v)
    decreases es
  {
    if es != [] {
      StepOwned(w, es[0]);
      hide Present, OncePresent, Step, Saves, EndsOn, Project, Owned, Enabled;
      StepPresent(w, es[0], p, v);
      RunPresent(Step(w, es[0]), es[1..], p, v);
    }
  }

  lemma NoOwner(w: World, p: Param, v: Val)
    requires Owned(w) && w.owner == map[]
    ensures Present(Project(w, p), v) <==> Get(w.g, p) == v
  {
    assert forall id :: id !in w.impls;
  }

  lemma StartPresent(init: Globals, p: Param)
    ensures OncePresent(Project(Start(init), p), Get(init, p)) && Present(Project(Start(init), p), Get(init, p))
  {
  }

  lemma AfterOwned(w: World, es: seq<Event>)
    requires Owned(w) && Run(w, es)
    ensures Owned(After(w, es))
    decreases es
  {
    hide Owned, Step, Enabled;
    if es != [] {
      StepOwned(w, es[0]);
      AfterOwned(Step(w, es[0]), es[1..]);
    }
  }

  /** Whatever the order: in a run that leaves no Scope, and in which no set gives a parameter its initial
      value, all six parameters have their initial values again exactly when, for each, no scope that saved
      it ended while it had its initial value. */
  lemma RestorationExact(init: Globals, es: seq<Event>)
    requires Run(Start(init), es) && After(Start(init), es).owner == map[]
    requires forall p :: NeverGives(Start(init), es, p, Get(init, p))
    ensures After(Start(init), es).g == init <==> forall p :: NeverEndsOn(Start(init), es, p, Get(init, p))
  {
    var w, last := Start(init), After(Start(init), es);
    AfterOwned(w, es);
    forall p ensures Get(last.g, p) == Get(init, p) <==> NeverEndsOn(w, es, p, Get(init, p)) {
      StartPresent(init, p);
      RunPresent(w, es, p, Get(init, p));
      NoOwner(last, p, Get(init, p));
    }
    hide NeverEndsOn, After, Run, Get, Start;
    if forall p :: Get(last.g, p) == Get(init, p) {
      SameGlobals(last.g, init);
    }
  }

  // ----- lifetimes of objects are not enough -----

  const START: Globals := Globals(0, IMMEDIATE, "", map[CPU := Range(0, 4, 4)], Policy(OFF, 1, 1, 1, 1), 1)

  const LEAK: seq<Event> :=
    [Open(0, 0), Open(1, 1), Set(1, SetPriority(1)), Set(0, SetPriority(2)), Close(1, false), Close(0, false)]

  lemma Opened(w: World, h: Handle, id: Id)
    requires Owned(w) && Enabled(w, Open(h, id))
    ensures var n := Step(w, Open(h, id));
      Owned(n) && n.g == w.g && n.owner == w.owner[h := Some(id)] && n.impls == w.impls[id := NOTHING]
  {
    StepOwned(w, Open(h, id));
    hide Owned;
  }

  lemma PrioritySet(w: World, h: Handle, id: Id, v: int)
    requires Owned(w) && h in w.owner && w.owner[h] == Some(id) && id in w.impls && w.impls[id].priority.None?
    ensures Enabled(w, Set(h, SetPriority(v)))
    ensures var n := Step(w, Set(h, SetPriority(v)));
      && Owned(n) && n.g == w.g.(priority := v) && n.owner == w.owner
      && n.impls == w.impls[id := w.impls[id].(priority := Some(w.g.priority))]
  {
    StepOwned(w, Set(h, SetPriority(v)));
    hide Owned, Added;
  }

  lemma Closed(w: World, h: Handle, id: Id)
    requires Owned(w) && h in w.owner && w.owner[h] == Some(id) && id in w.impls
    ensures Enabled(w, Close(h, false))
    ensures var n := Step(w, Close(h, false));
      && Owned(n) && n.g == Restored(w.g, w.impls[id]) && n.owner == w.owner - {h} && n.impls == w.impls - {id}
  {
    StepOwned(w, Close(h, false));
    hide Owned, Without;
  }

  /** The inner scope sets the priority, then the outer one does, and both end in the order in which
      objects on the stack do: the priority that the inner scope set outlives them both. */
  lemma NestedLifetimesLeak()
    ensures Run(Start(START), LEAK)
    ensures After(Start(START), LEAK).owner == map[]
    ensures After(Start(START), LEAK).g.priority == 1 && START.priority == 0
  {
    hide Owned, Step;
    var w := Start(START);
    assert Owned(w) by { StartOwned(START); }
    Opened(w, 0, 0);
    var w1 := Step(w, LEAK[0]);
    Opened(w1, 1, 1);
    var w2 := Step(w1, LEAK[1]);
    PrioritySet(w2, 1, 1, 1);
    var w3 := Step(w2, LEAK[2]);
    PrioritySet(w3, 0, 0, 2);
    var w4 := Step(w3, LEAK[3]);
    Closed(w4, 1, 1);
    var w5 := Step(w4, LEAK[4]);
    Closed(w5, 0, 0);
    var w6 := Step(w5, LEAK[5]);
    hide Enabled;
    RunLast(w5, LEAK, 5);
    RunLast(w4, LEAK, 4);
    RunLast(w3, LEAK, 3);
    RunLast(w2, LEAK, 2);
    RunLast(w1, LEAK, 1);
    RunLast(w, LEAK, 0);
  }

  /** A run from its k-th event on is that event and the run after it. */
  lemma RunLast(w: World, es: seq<Event>, k: nat)
    requires k < |es| && Owned(w) && Enabled(w, es[k]) && Owned(Step(w, es[k]))
    requires Run(Step(w, es[k]), es[k + 1..])
    ensures Run(w, es[k..]) && After(w, es[k..]) == After(Step(w, es[k]), es[k + 1..])
  {
    hide Step, Enabled;
    assert es[k..][1..] == es[k + 1..];
  }
}

/** What stack-ordered runs of scopes mean for the machine and for the scheduling window. */
module ScopeNesting {
  import opened Wrappers
  import opened Machines
  import opened ScopeModel
  import opened ScopeCell
  import opened ScopeRuns

  // ----- the machine only shrinks inwards -----

  function MachineOf(v: Val): Machine {
    if v.MachineVal? then v.machine else map[]
  }

  /** The i-th machine set is not empty and within the one before it. */
  ghost predicate Within(init: Val, log: seq<Entry<Val>>, i: nat)
    requires i < |log|
  {
    !EmptyMachine(MachineOf(log[i].v)) && Submachine(MachineOf(log[i].v), MachineOf(Expected(init, log, i)))
  }

  ghost predicate Nested(init: Val, log: seq<Entry<Val>>) {
    !EmptyMachine(MachineOf(init)) && forall i: nat :: i < |log| ==> Within(init, log, i)
  }

  lemma AndNested(a: Machine, b: Machine)
    requires MachineAnd(a, b).Some?
    ensures Submachine(MachineAnd(a, b).value, a)
  {
    forall t, id: nat ensures Has(MachineAnd(a, b).value, t, id) ==> Has(a, t, id) {
      AndHas(a, b, t, id);
    }
  }

  lemma NestedSnoc(init: Val, log: seq<Entry<Val>>, en: Entry<Val>)
    requires Nested(init, log) && !EmptyMachine(MachineOf(en.v))
    requires Submachine(MachineOf(en.v), MachineOf(Expected(init, log, |log|)))
    ensures Nested(init, log + [en])
  {
    forall i: nat | i < |log| + 1 ensures Within(init, log + [en], i) {
      if i < |log| {
        assert Within(init, log, i);
      }
    }
  }

  lemma NestedPrefix(init: Val, log: seq<Entry<Val>>, log': seq<Entry<Val>>)
    requires Nested(init, log) && log' <= log
    ensures Nested(init, log')
  {
    forall i: nat | i < |log'| ensures Within(init, log', i) {
      assert Within(init, log, i);
    }
  }

  /** A set of the machine adds one that is not empty and within the one in force. */
  lemma MachineAdded(id: Id, g: Globals, s: Saved, setting: Setting)
    ensures var added := Added(id, g, s, setting, Procs);
      added == [] || (|added| == 1 && !EmptyMachine(MachineOf(added[0].v))
        && Submachine(MachineOf(added[0].v), g.machine))
  {
    if setting.SetMachine? && MachineAnd(g.machine, setting.machine).Some? {
      AndNested(g.machine, setting.machine);
    }
  }

  lemma NestedStep(w: World, e: Event, init: Globals)
    requires WorldInv(w, init) && Enabled(w, e) && StackOrdered(w, e)
    requires Nested(Get(init, Procs), Log(w, Procs))
    ensures Nested(Get(init, Procs), Log(Step(w, e), Procs))
  {
    var top, log := Get(init, Procs), Log(w, Procs);
    assert Inv(Project(w, Procs), top) && MachineOf(Expected(top, log, |log|)) == w.g.machine;
    hide Step, Apply, Added, Nested, EmptyMachine, Submachine, Without;
    if e.Set? {
      var id := w.owner[e.h].value;
      StepSet(w, e, Procs);
      MachineAdded(id, w.g, w.impls[id], e.setting);
      var added := Added(id, w.g, w.impls[id], e.setting, Procs);
      if added == [] {
        assert log + added == log;
      } else {
        assert added == [added[0]];
        NestedSnoc(top, log, added[0]);
      }
    } else if Ended(w, e).Some? {
      CloseTakesOff(w, e, init, Procs);
      NestedPrefix(top, log, Log(Step(w, e), Procs));
    } else {
      StepOther(w, e, Procs);
    }
  }

  /** Later entries are within earlier ones. */
  lemma {:induction false} NestedWithin(init: Val, log: seq<Entry<Val>>, i: nat, n: nat)
    requires Nested(init, log) && i <= n <= |log|
    ensures Submachine(MachineOf(Expected(init, log, n)), MachineOf(Expected(init, log, i)))
    ensures !EmptyMachine(MachineOf(Expected(init, log, n)))
    decreases n
  {
    if i < n {
      assert Within(init, log, n - 1);
      NestedWithin(init, log, i, n - 1);
    } else if n > 0 {
      assert Within(init, log, n - 1);
    }
  }

  lemma {:induction false} RunNested(w: World, es: seq<Event>, init: Globals)
    requires WorldInv(w, init) && Run(w, es) && StackRun(w, es)
    requires Nested(Get(init, Procs), Log(w, Procs))
    ensures Nested(Get(init, Procs), Log(After(w, es), Procs))
    decreases es
  {
    if es != [] {
      NestedStep(w, es[0], init);
      StepKeeps(w, es[0], init);
      RunNested(Step(w, es[0]), es[1..], init);
    }
  }

  /** In every stack-ordered run from a non-empty machine, the machine in force is not empty and
      holds, kind by kind, only processors of the machine that any live scope has set. */
  lemma MachineShrinks(init: Globals, es: seq<Event>)
    requires !EmptyMachine(init.machine)
    requires Run(Start(init), es) && StackRun(Start(init), es)
    ensures var w := After(Start(init), es);
      && !EmptyMachine(w.g.machine) && Submachine(w.g.machine, init.machine)
      && forall i :: 0 <= i < |Log(w, Procs)| ==> Submachine(w.g.machine, MachineOf(Log(w, Procs)[i].v))
  {
    var w, top := After(Start(init), es), Get(init, Procs);
    RunKeeps(Start(init), es, init);
    RunNested(Start(init), es, init);
    var log := Log(w, Procs);
    assert Inv(Project(w, Procs), top);
    NestedWithin(top, log, 0, |log|);
    forall i | 0 <= i < |log| ensures Submachine(w.g.machine, MachineOf(log[i].v)) {
      NestedWithin(top, log, i + 1, |log|);
    }
  }

  // ----- the scheduling window -----

  predicate StreamingEntry(en: Entry<Val>) {
    en.v.PolicyVal? && Streaming(en.v.policy)
  }

  /** The first live scope, in the order of setting, with a streaming policy. */
  function Raiser(log: seq<Entry<Val>>): Option<Id> {
    if log == [] then None else if StreamingEntry(log[0]) then Some(log[0].id) else Raiser(log[1..])
  }

  lemma {:induction false} RaiserSnoc(log: seq<Entry<Val>>, en: Entry<Val>)
    ensures Raiser(log + [en])
      == if Raiser(log).Some? then Raiser(log) else if StreamingEntry(en) then Some(en.id) else None
  {
    if log != [] {
      assert (log + [en])[1..] == log[1..] + [en];
      RaiserSnoc(log[1..], en);
    }
  }

  lemma {:induction false} RaiserListed(log: seq<Entry<Val>>)
    ensures Raiser(log).Some? <==> exists i :: 0 <= i < |log| && StreamingEntry(log[i])
    ensures Raiser(log).Some? ==> Listed(log, Raiser(log).value)
  {
    if log != [] {
      RaiserListed(log[1..]);
      if StreamingEntry(log[0]) {
        assert log[0].id == Raiser(log).value;
      } else if Raiser(log).Some? {
        var i :| 0 <= i < |log[1..]| && log[1..][i].id == Raiser(log).value;
        assert log[i + 1].id == Raiser(log).value;
        var j :| 0 <= j < |log[1..]| && StreamingEntry(log[1..][j]);
        assert StreamingEntry(log[j + 1]);
      } else {
        forall i | 0 <= i < |log| ensures !StreamingEntry(log[i]) {
          assert i > 0 ==> log[i] == log[1..][i - 1];
        }
      }
    }
  }

  /** Only the first streaming scope has exchanged the window, and only if it was small. */
  function WindowLog(window: nat, policies: seq<Entry<Val>>): seq<Entry<Val>> {
    match Raiser(policies)
    case None => []
    case Some(id) => if window < BIG_WINDOW then [Entry(id, IntVal(BIG_WINDOW))] else []
  }

  ghost predicate WindowInv(w: World, init: Globals) {
    Log(w, Window) == WindowLog(init.window, Log(w, Parallel))
  }

  lemma WindowNow(w: World, init: Globals)
    requires WorldInv(w, init) && WindowInv(w, init)
    ensures w.g.window == if Raiser(Log(w, Parallel)).Some? && init.window < BIG_WINDOW then BIG_WINDOW else init.window
  {
    assert Inv(Project(w, Window), Get(init, Window));
  }

  /** What a set adds to the two logs keeps them in step. */
  lemma WindowAdded(id: Id, g: Globals, s: Saved, setting: Setting, windows: seq<Entry<Val>>,
                    policies: seq<Entry<Val>>, window: nat)
    requires windows == WindowLog(window, policies)
    requires g.window == if Raiser(policies).Some? && window < BIG_WINDOW then BIG_WINDOW else window
    requires s.window.Some? ==> Listed(windows, id)
    ensures windows + Added(id, g, s, setting, Window)
      == WindowLog(window, policies + Added(id, g, s, setting, Parallel))
  {
    assert windows + [] == windows && policies + [] == policies && [] + windows == windows;
    if setting.SetPolicy? && s.policy.None? {
      RaiserSnoc(policies, Entry(id, PolicyVal(setting.policy)));
    }
  }

  lemma WindowSet(w: World, e: Event, init: Globals)
    requires WorldInv(w, init) && WindowInv(w, init) && Enabled(w, e) && e.Set?
    ensures WindowInv(Step(w, e), init)
  {
    var id := w.owner[e.h].value;
    StepSet(w, e, Window);
    StepSet(w, e, Parallel);
    WindowNow(w, init);
    assert Inv(Project(w, Window), Get(init, Window));
    SavedByHas(w.impls, id, Window);
    assert w.impls[id].window.Some? ==> Listed(Log(w, Window), id);
    hide Step, Apply, Added, WorldInv, Inv;
    WindowAdded(id, w.g, w.impls[id], e.setting, Log(w, Window), Log(w, Parallel), init.window);
  }

  /** The entries of scope id, if any, are taken off the end of a log. */
  ghost predicate TakenOff(log: seq<Entry<Val>>, log': seq<Entry<Val>>, id: Id) {
    && !Listed(log', id)
    && (log' == log || (log != [] && log' == log[..|log| - 1] && log[|log| - 1].id == id))
  }

  lemma WindowEnds(policies: seq<Entry<Val>>, policies': seq<Entry<Val>>, windows: seq<Entry<Val>>,
                   windows': seq<Entry<Val>>, id: Id, window: nat)
    requires windows == WindowLog(window, policies)
    requires TakenOff(policies, policies', id) && TakenOff(windows, windows', id)
    ensures windows' == WindowLog(window, policies')
  {
    if policies' != policies {
      var n := |policies| - 1;
      assert policies == policies' + [policies[n]];
      RaiserSnoc(policies', policies[n]);
    }
    RaiserListed(policies');
    if windows' == windows && windows != [] {
      assert windows'[0].id != id;
    }
  }

  lemma CloseTakesOff(w: World, e: Event, init: Globals, p: Param)
    requires WorldInv(w, init) && Enabled(w, e) && StackOrdered(w, e) && Ended(w, e).Some?
    ensures TakenOff(Log(w, p), Log(Step(w, e), p), Ended(w, e).value)
  {
    var id, c := Ended(w, e).value, Project(w, p);
    assert Inv(c, Get(init, p)) && OnTop(c, id);
    EndLog(c, Get(init, p), id);
    ProjectClose(w, e, p);
    hide Step, Without, Inv;
    assert forall i :: 0 <= i < |EndOf(c, id).log| ==> EndOf(c, id).log[i] == c.log[i];
  }

  lemma WindowStep(w: World, e: Event, init: Globals)
    requires WorldInv(w, init) && WindowInv(w, init) && Enabled(w, e) && StackOrdered(w, e)
    ensures WindowInv(Step(w, e), init)
  {
    if e.Set? {
      WindowSet(w, e, init);
    } else if Ended(w, e).Some? {
      CloseTakesOff(w, e, init, Window);
      CloseTakesOff(w, e, init, Parallel);
      hide Step, Log, WorldInv, TakenOff;
      WindowEnds(Log(w, Parallel), Log(Step(w, e), Parallel), Log(w, Window), Log(Step(w, e), Window),
                 Ended(w, e).value, init.window);
    } else {
      StepOther(w, e, Window);
      StepOther(w, e, Parallel);
    }
  }

  lemma {:induction false} RunWindow(w: World, es: seq<Event>, init: Globals)
    requires WorldInv(w, init) && WindowInv(w, init) && Run(w, es) && StackRun(w, es)
    ensures WindowInv(After(w, es), init)
    decreases es
  {
    if es != [] {
      WindowStep(w, es[0], init);
      StepKeeps(w, es[0], init);
      RunWindow(Step(w, es[0]), es[1..], init);
    }
  }

  /** In every stack-ordered run the scheduling window is 1024 exactly while it was smaller to begin
      with and some live scope has set a streaming policy; otherwise it is what it was. */
  lemma WindowWhileStreaming(init: Globals, es: seq<Event>)
    requires Run(Start(init), es) && StackRun(Start(init), es)
    ensures var w := After(Start(init), es);
      w.g.window ==
        if init.window < 1024 && exists i :: 0 <= i < |Log(w, Parallel)| && StreamingEntry(Log(w, Parallel)[i])
        then 1024 else init.window
  {
    var w := After(Start(init), es);
    RunKeeps(Start(init), es, init);
    RunWindow(Start(init), es, init);
    WindowNow(w, init);
    RaiserListed(Log(w, Parallel));
  }

  /** The policy log lists the live scopes that have set a policy, and no others. */
  lemma LogIsLive(init: Globals, es: seq<Event>, p: Param, id: Id)
    requires Run(Start(init), es) && StackRun(Start(init), es)
    ensures var w := After(Start(init), es);
      Listed(Log(w, p), id) <==> id in w.impls && GetSaved(w.impls[id], p).Some?
  {
    var w := After(Start(init), es);
    RunKeeps(Start(init), es, init);
    var c := Project(w, p);
    assert Inv(c, Get(init, p));
    if i: nat :| i < |c.log| && c.log[i].id == id {
      assert SavedAt(c, Get(init, p), i);
    }
  }
}

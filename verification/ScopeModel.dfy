/** Scope: six global parameters, exchanged when a scope sets them and put back when it ends.
    The functions here are the effects of the calls on values; ScopeClass has the objects. */
module ScopeModel {
  import opened Wrappers
  import opened Machines

  datatype StreamingMode = OFF | RELAXED | STRICT
  datatype ExceptionMode = IMMEDIATE | DEFERRED | IGNORED

  datatype Policy = Policy(mode: StreamingMode, overdecompose: nat, cpu: nat, gpu: nat, omp: nat)

  predicate Streaming(p: Policy) {
    p.mode != OFF
  }

  const BIG_WINDOW: nat := 1024

  /** The runtime's scope. */
  datatype Globals = Globals(priority: int, exceptionMode: ExceptionMode, provenance: string,
                             machine: Machine, policy: Policy, window: nat)

  /** What one scope has to put back. */
  datatype Saved = Saved(priority: Option<int>, exceptionMode: Option<ExceptionMode>, provenance: Option<string>,
                         machine: Option<Machine>, policy: Option<Policy>, window: Option<nat>)

  const NOTHING := Saved(None, None, None, None, None, None)

  datatype Error = AlreadySet | EmptyIntersection | IncompatibleRanges | SideEffectFailed
  datatype Outcome = Done | Threw(error: Error)

  datatype Effect = Effect(g: Globals, s: Saved, outcome: Outcome)

  datatype Setting =
    | SetPriority(priority: int)
    | SetExceptionMode(exceptionMode: ExceptionMode)
    | SetProvenance(provenance: string)
    | SetMachine(machine: Machine)
    | SetPolicy(policy: Policy, flushFails: bool)

  datatype ChangeKind = ScopeBegin | ScopeEnd

  /** trigger_exchange_side_effects: whether it throws. Nesting anything different inside a STRICT
      scope does; otherwise it is up to the flush of the scheduling window. */
  predicate SideEffectThrows(current: Policy, next: Policy, kind: ChangeKind, flushFails: bool) {
    next != current && ((kind == ScopeBegin && current.mode == STRICT) || flushFails)
  }

  function ApplyPriority(g: Globals, s: Saved, v: int): Effect {
    if s.priority.Some? then Effect(g, s, Threw(AlreadySet))
    else Effect(g.(priority := v), s.(priority := Some(g.priority)), Done)
  }

  function ApplyExceptionMode(g: Globals, s: Saved, v: ExceptionMode): Effect {
    if s.exceptionMode.Some? then Effect(g, s, Threw(AlreadySet))
    else Effect(g.(exceptionMode := v), s.(exceptionMode := Some(g.exceptionMode)), Done)
  }

  function ApplyProvenance(g: Globals, s: Saved, v: string): Effect {
    if s.provenance.Some? then Effect(g, s, Threw(AlreadySet))
    else Effect(g.(provenance := v), s.(provenance := Some(g.provenance)), Done)
  }

  /** The machine is intersected with the current one before the scope is asked. */
  function ApplyMachine(g: Globals, s: Saved, m: Machine): Effect {
    var both := MachineAnd(g.machine, m);
    if both.None? then Effect(g, s, Threw(IncompatibleRanges))
    else if EmptyMachine(both.value) then Effect(g, s, Threw(EmptyIntersection))
    else if s.machine.Some? then Effect(g, s, Threw(AlreadySet))
    else Effect(g.(machine := both.value), s.(machine := Some(g.machine)), Done)
  }

  /** A streaming policy raises the scheduling window first. The policy is exchanged whether or not
      the side effects throw. */
  function ApplyPolicy(g: Globals, s: Saved, p: Policy, flushFails: bool): Effect {
    if s.policy.Some? then Effect(g, s, Threw(AlreadySet)) else
    var raise := s.window.None? && Streaming(p) && g.window < BIG_WINDOW;
    var g' := if raise then g.(window := BIG_WINDOW) else g;
    var s' := if raise then s.(window := Some(g.window)) else s;
    Effect(g'.(policy := p), s'.(policy := Some(g.policy)),
           if SideEffectThrows(g.policy, p, ScopeBegin, flushFails) then Threw(SideEffectFailed) else Done)
  }

  function Apply(g: Globals, s: Saved, setting: Setting): Effect {
    match setting
    case SetPriority(v) => ApplyPriority(g, s, v)
    case SetExceptionMode(v) => ApplyExceptionMode(g, s, v)
    case SetProvenance(v) => ApplyProvenance(g, s, v)
    case SetMachine(m) => ApplyMachine(g, s, m)
    case SetPolicy(p, flushFails) => ApplyPolicy(g, s, p, flushFails)
  }

  function Or<T>(o: Option<T>, default: T): T {
    if o.Some? then o.value else default
  }

  /** destruct: everything that was saved goes back, once. */
  function Restored(g: Globals, s: Saved): Globals {
    Globals(Or(s.priority, g.priority), Or(s.exceptionMode, g.exceptionMode), Or(s.provenance, g.provenance),
            Or(s.machine, g.machine), Or(s.policy, g.policy), Or(s.window, g.window))
  }

  /** ~Scope: the end-of-scope side effects may throw; the globals are restored either way. */
  function EndOutcome(g: Globals, s: Saved, flushFails: bool): Outcome {
    if s.policy.Some? && SideEffectThrows(g.policy, s.policy.value, ScopeEnd, flushFails)
    then Threw(SideEffectFailed) else Done
  }

  /** A constructor whose set throws destroys the scope it was building: the globals are as before,
      whatever was thrown. */
  lemma ThrowingConstructor(g: Globals, setting: Setting)
    ensures var e := Apply(g, NOTHING, setting); Restored(e.g, e.s) == g
  {
  }

  /** A set that fails changes nothing, unless it is the first policy of the scope: whatever its side
      effects throw, that one is in force and the old one is saved. */
  lemma FailedSet(g: Globals, s: Saved, setting: Setting)
    requires Apply(g, s, setting).outcome.Threw?
    ensures var e := Apply(g, s, setting);
      e.g == g && e.s == s <==> !(setting.SetPolicy? && s.policy.None?)
    ensures setting.SetPolicy? && s.policy.None? ==>
      var e := Apply(g, s, setting);
      e.g.policy == setting.policy && e.s.policy == Some(g.policy) && Restored(e.g, e.s) == Restored(g, s)
  {
  }

  /** A set fails exactly when the parameter was set before, the machine has no processor in common with
      the one in force or counts them differently, or the side effects of the policy throw. */
  lemma FailsExactly(g: Globals, s: Saved, setting: Setting)
    ensures Apply(g, s, setting).outcome.Threw? <==>
      match setting
      case SetPriority(_) => s.priority.Some?
      case SetExceptionMode(_) => s.exceptionMode.Some?
      case SetProvenance(_) => s.provenance.Some?
      case SetMachine(m) =>
        var both := MachineAnd(g.machine, m);
        both.None? || s.machine.Some? || forall t, id: nat :: !Has(both.value, t, id)
      case SetPolicy(p, flushFails) => s.policy.Some? || SideEffectThrows(g.policy, p, ScopeBegin, flushFails)
  {
    if setting.SetMachine? && MachineAnd(g.machine, setting.machine).Some? {
      EmptyHas(MachineAnd(g.machine, setting.machine).value);
    }
  }

  /** With which error: a machine is looked at before the scope is asked, and the side effects of a policy come
      after that. */
  lemma FailsWith(g: Globals, s: Saved, setting: Setting, error: Error)
    requires Apply(g, s, setting).outcome == Threw(error)
    ensures match setting
      case SetMachine(m) =>
        && (error == IncompatibleRanges <==>
             exists t :: t in g.machine && t in m && g.machine[t].perNode != m[t].perNode)
        && (error == EmptyIntersection ==> forall t, id: nat :: !(Has(g.machine, t, id) && Has(m, t, id)))
        && (error == AlreadySet ==> s.machine.Some? && exists t, id: nat :: Has(g.machine, t, id) && Has(m, t, id))
        && error != SideEffectFailed
      case SetPolicy(_, _) => error == if s.policy.Some? then AlreadySet else SideEffectFailed
      case _ => error == AlreadySet
  {
    if setting.SetMachine? {
      AndFails(g.machine, setting.machine);
      var both := MachineAnd(g.machine, setting.machine);
      if both.Some? {
        EmptyHas(both.value);
        forall t, id: nat ensures Has(both.value, t, id) <==> (Has(g.machine, t, id) && Has(setting.machine, t, id)) {
          AndHas(g.machine, setting.machine, t, id);
        }
        if t, id: nat :| Has(both.value, t, id) {
          assert Has(g.machine, t, id) && Has(setting.machine, t, id);
        }
      }
    }
  }

  /** A relaxed policy set inside a strict one is refused, and is in force nevertheless, with the larger
      window, until the scope ends. */
  lemma FailedPolicyStays(g: Globals)
    requires g.policy.mode == STRICT && g.window < BIG_WINDOW
    ensures var p := g.policy.(mode := RELAXED);
      var e := Apply(g, NOTHING, SetPolicy(p, false));
      && e.outcome == Threw(SideEffectFailed)
      && e.g == g.(policy := p, window := BIG_WINDOW)
        && e.s == NOTHING.(policy := Some(g.policy), window := Some(g.window))
  {
  }

  /** A set that is done gives its parameter the value asked for and changes no other, but for the window
      that a streaming policy raises; the scope keeps what was in force before, and nothing else. */
  lemma SetInstalls(g: Globals, s: Saved, setting: Setting)
    requires Apply(g, s, setting).outcome.Done?
    ensures var e := Apply(g, s, setting);
      match setting
      case SetPriority(v) => e.g == g.(priority := v) && e.s == s.(priority := Some(g.priority))
      case SetExceptionMode(v) => e.g == g.(exceptionMode := v) && e.s == s.(exceptionMode := Some(g.exceptionMode))
      case SetProvenance(v) => e.g == g.(provenance := v) && e.s == s.(provenance := Some(g.provenance))
      case SetMachine(m) =>
        && e.g == g.(machine := e.g.machine) && e.s == s.(machine := Some(g.machine))
        && (forall t, id: nat :: Has(e.g.machine, t, id) <==> Has(g.machine, t, id) && Has(m, t, id))
        && (forall t :: t in e.g.machine <==> t in g.machine && t in m)
      case SetPolicy(p, _) =>
        var raised := s.window.None? && p.mode != OFF && g.window < 1024;
        && e.g == g.(policy := p, window := if raised then 1024 else g.window)
        && e.s == s.(policy := Some(g.policy), window := if raised then Some(g.window) else s.window)
  {
    if setting.SetMachine? {
      forall t, id: nat
        ensures Has(MachineAnd(g.machine, setting.machine).value, t, id) <==>
          (Has(g.machine, t, id) && Has(setting.machine, t, id))
      {
        AndHas(g.machine, setting.machine, t, id);
      }
    }
  }

  /** The side effects throw only when the policy changes: at the beginning of a scope inside a strict one,
      and whenever the flush of the window fails. */
  lemma ThrowsExactly(g: Globals, s: Saved, setting: Setting, flushFails: bool)
    ensures EndOutcome(g, s, flushFails).Threw? <==> s.policy.Some? && s.policy.value != g.policy && flushFails
    ensures setting.SetPolicy? && s.policy.None? ==>
      (Apply(g, s, setting).outcome.Threw?
       <==> setting.policy != g.policy && (g.policy.mode == STRICT || setting.flushFails))
  {
  }
}

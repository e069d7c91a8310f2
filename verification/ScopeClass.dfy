/** Scope as objects: the runtime's scope, the implementation that saves what it exchanged, and the
    movable handle that owns it. Exceptions are outcomes. */
module ScopeClass {
  import opened Wrappers
  import opened Machines
  import opened ScopeModel

  /** detail::Scope */
  class RuntimeScope {
    var priority: int
    var exceptionMode: ExceptionMode
    var provenance: string
    var machine: Machine
    var policy: Policy
    var window: nat

    constructor (g: Globals)
      ensures State() == g
    {
      priority, exceptionMode, provenance := g.priority, g.exceptionMode, g.provenance;
      machine, policy, window := g.machine, g.policy, g.window;
    }

    function State(): Globals
      reads this
    {
      Globals(priority, exceptionMode, provenance, machine, policy, window)
    }

    method ExchangePriority(v: int) returns (was: int)
      modifies this
      ensures was == old(priority) && State() == old(State()).(priority := v)
    {
      was, priority := priority, v;
    }

    method ExchangeExceptionMode(v: ExceptionMode) returns (was: ExceptionMode)
      modifies this
      ensures was == old(exceptionMode) && State() == old(State()).(exceptionMode := v)
    {
      was, exceptionMode := exceptionMode, v;
    }

    method ExchangeProvenance(v: string) returns (was: string)
      modifies this
      ensures was == old(provenance) && State() == old(State()).(provenance := v)
    {
      was, provenance := provenance, v;
    }

    method ExchangeMachine(v: Machine) returns (was: Machine)
      modifies this
      ensures was == old(machine) && State() == old(State()).(machine := v)
    {
      was, machine := machine, v;
    }

    method ExchangePolicy(v: Policy) returns (was: Policy)
      modifies this
      ensures was == old(policy) && State() == old(State()).(policy := v)
    {
      was, policy := policy, v;
    }

    method ExchangeWindow(v: nat) returns (was: nat)
      modifies this
      ensures was == old(window) && State() == old(State()).(window := v)
    {
      was, window := window, v;
    }
  }

  /** Scope::Impl */
  class Impl {
    const scope: RuntimeScope
    var priority: Option<int>
    var exceptionMode: Option<ExceptionMode>
    var provenance: Option<string>
    var machine: Option<Machine>
    var policy: Option<Policy>
    var window: Option<nat>

    constructor (scope: RuntimeScope)
      ensures this.scope == scope && Fields() == NOTHING
    {
      this.scope := scope;
      priority, exceptionMode, provenance, machine, policy, window := None, None, None, None, None, None;
    }

    function Fields(): Saved
      reads this
    {
      Saved(priority, exceptionMode, provenance, machine, policy, window)
    }

    method SetPriority(v: int) returns (o: Outcome)
      modifies this, scope
      ensures Effect(scope.State(), Fields(), o) == ApplyPriority(old(scope.State()), old(Fields()), v)
    {
      if priority.Some? {
        return Threw(AlreadySet);
      }
      var was := scope.ExchangePriority(v);
      priority := Some(was);
      o := Done;
    }

    method SetExceptionMode(v: ExceptionMode) returns (o: Outcome)
      modifies this, scope
      ensures Effect(scope.State(), Fields(), o) == ApplyExceptionMode(old(scope.State()), old(Fields()), v)
    {
      if exceptionMode.Some? {
        return Threw(AlreadySet);
      }
      var was := scope.ExchangeExceptionMode(v);
      exceptionMode := Some(was);
      o := Done;
    }

    method SetProvenance(v: string) returns (o: Outcome)
      modifies this, scope
      ensures Effect(scope.State(), Fields(), o) == ApplyProvenance(old(scope.State()), old(Fields()), v)
    {
      if provenance.Some? {
        return Threw(AlreadySet);
      }
      var was := scope.ExchangeProvenance(v);
      provenance := Some(was);
      o := Done;
    }

    /** Impl::set_machine: the machine arrives already intersected. */
    method SetMachine(v: Machine) returns (o: Outcome)
      modifies this, scope
      ensures Effect(scope.State(), Fields(), o) ==
        if old(machine).Some? then Effect(old(scope.State()), old(Fields()), Threw(AlreadySet))
        else Effect(old(scope.State()).(machine := v), old(Fields()).(machine := Some(old(scope.machine))), Done)
    {
      if machine.Some? {
        return Threw(AlreadySet);
      }
      var was := scope.ExchangeMachine(v);
      machine := Some(was);
      o := Done;
    }

    method SetPolicy(p: Policy, flushFails: bool) returns (o: Outcome)
      modifies this, scope
      ensures Effect(scope.State(), Fields(), o) == ApplyPolicy(old(scope.State()), old(Fields()), p, flushFails)
    {
      if policy.Some? {
        return Threw(AlreadySet);
      }
      if window.None? {
        if Streaming(p) && scope.window < BIG_WINDOW {
          var was := scope.ExchangeWindow(BIG_WINDOW);
          window := Some(was);
        }
      }
      // the policy is exchanged in the try block and in its handler alike
      var threw := SideEffectThrows(scope.policy, p, ScopeBegin, flushFails);
      var was := scope.ExchangePolicy(p);
      policy := Some(was);
      o := if threw then Threw(SideEffectFailed) else Done;
    }

    method TriggerEndScope(flushFails: bool) returns (o: Outcome)
      ensures o == EndOutcome(scope.State(), Fields(), flushFails)
    {
      o := Done;
      if policy.Some? && SideEffectThrows(scope.policy, policy.value, ScopeEnd, flushFails) {
        o := Threw(SideEffectFailed);
      }
    }

    /** What is restored is forgotten, so that a second call finds nothing to do. */
    method Destruct()
      modifies this, scope
      ensures scope.State() == Restored(old(scope.State()), old(Fields()))
      ensures Fields() == NOTHING
    {
      if priority.Some? {
        var _ := scope.ExchangePriority(priority.value);
        priority := None;
      }
      if exceptionMode.Some? {
        var _ := scope.ExchangeExceptionMode(exceptionMode.value);
        exceptionMode := None;
      }
      if provenance.Some? {
        var _ := scope.ExchangeProvenance(provenance.value);
        provenance := None;
      }
      if machine.Some? {
        var _ := scope.ExchangeMachine(machine.value);
        machine := None;
      }
      if policy.Some? {
        var _ := scope.ExchangePolicy(policy.value);
        policy := None;
      }
      if window.Some? {
        var _ := scope.ExchangeWindow(window.value);
        window := None;
      }
    }
  }

  /** Scope: a handle on an Impl, or on nothing once moved from. */
  class Scope {
    const scope: RuntimeScope
    var impl: Impl?

    ghost predicate Valid()
      reads this, impl
    {
      impl != null ==> impl.scope == scope
    }

    constructor (scope: RuntimeScope)
      ensures this.scope == scope && Valid() && fresh(impl) && impl != null && impl.Fields() == NOTHING
    {
      this.scope := scope;
      impl := new Impl(scope);
    }

    /** Scope(Scope&&) */
    constructor Moved(from: Scope)
      requires from.Valid()
      modifies from
      ensures scope == from.scope && Valid() && impl == old(from.impl) && from.impl == null
      ensures impl != null ==> impl.Fields() == old(from.impl.Fields())
    {
      scope := from.scope;
      impl := from.impl;
      new;
      from.impl := null;
    }

    /** Scope::set_machine */
    method SetMachine(m: Machine) returns (o: Outcome)
      requires Valid() && impl != null
      modifies impl, scope
      ensures Valid()
      ensures Effect(scope.State(), impl.Fields(), o) == ApplyMachine(old(scope.State()), old(impl.Fields()), m)
    {
      var result := MachineAnd(scope.machine, m);
      if result.None? {
        return Threw(IncompatibleRanges);
      }
      if EmptyMachine(result.value) {
        return Threw(EmptyIntersection);
      }
      o := impl.SetMachine(result.value);
    }

    /** The other setters only forward to the Impl. */
    method Set(setting: Setting) returns (o: Outcome)
      requires Valid() && impl != null
      modifies impl, scope
      ensures Valid()
      ensures Effect(scope.State(), impl.Fields(), o) == Apply(old(scope.State()), old(impl.Fields()), setting)
    {
      match setting
      case SetPriority(v) => o := impl.SetPriority(v);
      case SetExceptionMode(v) => o := impl.SetExceptionMode(v);
      case SetProvenance(v) => o := impl.SetProvenance(v);
      case SetMachine(m) => o := SetMachine(m);
      case SetPolicy(p, flushFails) => o := impl.SetPolicy(p, flushFails);
    }

    /** ~Scope, then the destructor of the Impl it owns: destruct runs once or, when the side
        effects throw, twice, and the globals are restored the same. */
    method Close(flushFails: bool) returns (o: Outcome)
      requires Valid()
      modifies this, impl, scope
      ensures impl == null
      ensures old(impl) == null ==> o == Done && scope.State() == old(scope.State())
      ensures old(impl) != null ==> o == EndOutcome(old(scope.State()), old(impl.Fields()), flushFails)
      ensures old(impl) != null ==> scope.State() == Restored(old(scope.State()), old(impl.Fields()))
    {
      o := Done;
      if impl != null {
        o := impl.TriggerEndScope(flushFails);
        if o.Threw? {
          impl.Destruct();
        }
        impl.Destruct();
        impl := null;
      }
    }
  }

  /** The constructors that set a parameter: a throwing set destroys the new scope on the way out. */
  method OpenWith(scope: RuntimeScope, setting: Setting, flushFails: bool) returns (s: Scope?, o: Outcome)
    modifies scope
    ensures o.Done? ==> s != null && fresh(s) && s.Valid() && s.scope == scope && s.impl != null && fresh(s.impl)
    ensures o.Done? ==> Effect(scope.State(), s.impl.Fields(), Done) == Apply(old(scope.State()), NOTHING, setting)
    ensures o.Threw? ==> s == null && scope.State() == old(scope.State())
  {
    var t := new Scope(scope);
    o := t.Set(setting);
    if o.Threw? {
      ThrowingConstructor(old(scope.State()), setting);
      var _ := t.Close(flushFails);
      s := null;
    } else {
      s := t;
    }
  }
}

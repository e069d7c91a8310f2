/** Machine descriptors: a range of processors for each kind, and their intersection. */
module Machines {
  import opened Wrappers
  import opened Bounds

  datatype Target = GPU | OMP | CPU

  /** A half-open range of processor ids; the constructor of the source makes empty ranges [0, 0). */
  datatype Range = Range(low: nat, high: nat, perNode: nat)

  function MakeRange(low: nat, high: nat, perNode: nat): Range {
    Range(if low < high then low else 0, if low < high then high else 0, if perNode < 1 then 1 else perNode)
  }

  predicate EmptyRange(r: Range) {
    r.high <= r.low
  }

  /** None when the code throws: the ranges count processors per node differently. */
  function RangeAnd(a: Range, b: Range): Option<Range> {
    if b.perNode != a.perNode then None
    else Some(MakeRange(Max(a.low, b.low), Min(a.high, b.high), a.perNode))
  }

  type Machine = map<Target, Range>

  /** Machine::operator&: the kinds both have, each with the intersection of its ranges. */
  function MachineAnd(a: Machine, b: Machine): Option<Machine> {
    if exists t :: t in a && t in b && RangeAnd(b[t], a[t]).None? then None
    else Some(map t | t in a && t in b :: RangeAnd(b[t], a[t]).value)
  }

  predicate EmptyMachine(m: Machine) {
    forall t :: t in m ==> EmptyRange(m[t])
  }

  /** Whether processor id of kind t belongs to m. */
  predicate Has(m: Machine, t: Target, id: nat) {
    t in m && m[t].low <= id < m[t].high
  }

  ghost predicate Submachine(a: Machine, b: Machine) {
    forall t, id: nat :: Has(a, t, id) ==> Has(b, t, id)
  }

  /** The intersection holds exactly the processors that both machines hold. */
  lemma AndHas(a: Machine, b: Machine, t: Target, id: nat)
    requires MachineAnd(a, b).Some?
    ensures Has(MachineAnd(a, b).value, t, id) <==> Has(a, t, id) && Has(b, t, id)
  {
    if t in a && t in b {
      assert RangeAnd(b[t], a[t]).Some?;
    }
  }

  /** A machine is empty exactly when it holds no processor. */
  lemma EmptyHas(m: Machine)
    ensures EmptyMachine(m) <==> forall t, id: nat :: !Has(m, t, id)
  {
    if !EmptyMachine(m) {
      var t :| t in m && !EmptyRange(m[t]);
      assert Has(m, t, m[t].low);
    }
  }

  /** There is no intersection exactly when a kind that both have counts its processors per node
      differently. */
  lemma AndFails(a: Machine, b: Machine)
    ensures MachineAnd(a, b).None? <==> exists t :: t in a && t in b && a[t].perNode != b[t].perNode
  {
    if t :| t in a && t in b && a[t].perNode != b[t].perNode {
      assert RangeAnd(b[t], a[t]).None?;
    }
  }
}

/** The scoped allocator: the buffers behind its addresses, over any run. */
module AllocatorModel {
  import opened Wrappers
  import opened Bounds
  import opened Powers
  import opened BitOps

  type Address = nat
  type Buffer = nat

  const BAD_ALIGNMENT := "invalid alignment, must be a power of 2"
  const BAD_ADDRESS := "Invalid address for deallocation"
  const NO_MEMORY := "out of memory"

  predicate IsPowerOf2(n: nat) {
    n != 0 && And(n, n - 1) == 0
  }

  predicate Multiple(p: nat, a: nat) {
    a != 0 && p % a == 0
  }

  /** The buffers handed out, by address; how many were ever created, and those destroyed, counted. */
  datatype State = State(scoped: bool, alignment: nat, buffers: map<Address, Buffer>, created: nat,
                         destroyed: multiset<Buffer>)

  /** allocate_aligned, when the new buffer lies at address at; keeping it may fail. */
  function Allocated(s: State, bytes: nat, alignment: nat, at: Address, kept: bool): (State, Result<Address>) {
    if !IsPowerOf2(alignment) then (s, Err(BAD_ALIGNMENT))
    else if bytes == 0 then (s, Ok(0))
    else if kept then (s.(buffers := s.buffers[at := s.created], created := s.created + 1), Ok(at))
    else (s.(created := s.created + 1, destroyed := s.destroyed + multiset{s.created}), Err(NO_MEMORY))
  }

  function Deallocated(s: State, p: Address): (State, Result<()>) {
    if p == 0 then (s, Ok(()))
    else if p !in s.buffers then (s, Err(BAD_ADDRESS))
    else (s.(buffers := s.buffers - {p}, destroyed := s.destroyed + multiset{s.buffers[p]}), Ok(()))
  }

  /** The destructor: a scoped allocator destroys every buffer it still has. */
  function Closed(s: State): State {
    if s.scoped then s.(buffers := map[], destroyed := s.destroyed + multiset(s.buffers.Values)) else s
  }

  // ----- alignment -----

  lemma PowerOf2Is(n: nat)
    ensures IsPowerOf2(n) <==> exists k: nat :: Scale(1, k) == n
  {
    if n != 0 {
      AndPredecessor(n);
    } else {
      forall k: nat ensures Scale(1, k) != 0 {
        ScaleAtLeast(1, k);
      }
    }
  }

  lemma TimesAtLeast(d: int, a: int)
    requires a >= 0
    ensures d >= 1 ==> d * a >= a
    ensures d <= -1 ==> d * a <= -a
  {
  }

  lemma MultipleOf(m: nat, a: nat)
    requires a > 0
    ensures (m * a) % a == 0
  {
    var p := m * a;
    var q, r := p / a, p % a;
    assert p == q * a + r && 0 <= r < a;
    assert (m - q) * a == m * a - q * a;
    TimesAtLeast(m - q, a);
  }

  lemma Divides(j: nat, k: nat)
    requires j <= k
    ensures Scale(1, j) > 0 && Scale(1, k) % Scale(1, j) == 0
  {
    ScaleAtLeast(1, j);
    ScaleGrows(0, j);
    ScaleScale(1, k - j, j);
    ScaleOne(Scale(1, k - j), j);
    MultipleOf(Scale(1, k - j), Scale(1, j));
  }

  /** A multiple of a multiple of a. */
  lemma MultipleThrough(p: nat, m: nat, a: nat)
    requires Multiple(p, m) && Multiple(m, a)
    ensures Multiple(p, a)
  {
    var x, y := p / m, m / a;
    assert p == x * m && m == y * a;
    assert p == (x * y) * a;
    MultipleOf(x * y, a);
  }

  /** The larger of two powers of two is a multiple of both. */
  lemma MaxIsMultiple(a: nat, b: nat)
    requires IsPowerOf2(a) && IsPowerOf2(b)
    ensures Multiple(Max(a, b), a) && Multiple(Max(a, b), b)
  {
    PowerOf2Is(a);
    PowerOf2Is(b);
    var j: nat :| Scale(1, j) == a;
    var k: nat :| Scale(1, k) == b;
    if j <= k {
      Divides(j, k);
      if j < k {
        ScaleGrows(j, k);
      }
    } else {
      Divides(k, j);
      ScaleGrows(k, j);
    }
  }

  // ----- runs -----

  datatype Event =
    | Allocate(bytes: nat, alignment: nat, at: Address, kept: bool)
    | Deallocate(address: Address)

  /** The call creates a buffer. */
  predicate Creates(e: Event) {
    e.Allocate? && IsPowerOf2(e.alignment) && e.bytes > 0
  }

  /** A new buffer does not overlap a live one, is not at null, and is aligned as asked. */
  predicate CanDo(s: State, e: Event) {
    Creates(e) ==> e.at != 0 && e.at !in s.buffers && Multiple(e.at, Max(s.alignment, e.alignment))
  }

  function Step(s: State, e: Event): State {
    match e
    case Allocate(bytes, alignment, at, kept) => Allocated(s, bytes, alignment, at, kept).0
    case Deallocate(p) => Deallocated(s, p).0
  }

  function Open(scoped: bool, alignment: nat): State {
    State(scoped, alignment, map[], 0, multiset{})
  }

  /** The state after the first n events. */
  function After(s: State, events: seq<Event>, n: nat): State
    requires n <= |events|
  {
    if n == 0 then s else Step(After(s, events, n - 1), events[n - 1])
  }

  ghost predicate IsRun(s: State, events: seq<Event>) {
    forall n: nat :: n < |events| ==> CanDo(After(s, events, n), events[n])
  }

  /** Every buffer created is either behind exactly one address or destroyed, once. */
  ghost predicate Inv(s: State) {
    && IsPowerOf2(s.alignment)
    && (forall p <- s.buffers :: p != 0 && Multiple(p, s.alignment) && s.buffers[p] < s.created)
    && (forall p, q :: p in s.buffers && q in s.buffers && s.buffers[p] == s.buffers[q] ==> p == q)
    && (forall b: Buffer :: s.destroyed[b] == if b < s.created && b !in s.buffers.Values then 1 else 0)
  }

  lemma AllocatedKeeps(s: State, e: Event)
    requires Inv(s) && CanDo(s, e) && Creates(e)
    ensures Inv(Step(s, e))
  {
    MaxIsMultiple(s.alignment, e.alignment);
    MultipleThrough(e.at, Max(s.alignment, e.alignment), s.alignment);
    hide IsPowerOf2;
    var t := Step(s, e);
    if e.kept {
      ValuesAdd(s.buffers, e.at, s.created);
    }
  }

  lemma ValuesAdd(m: map<Address, Buffer>, p: Address, b: Buffer)
    requires p !in m
    ensures m[p := b].Values == m.Values + {b}
  {
    var n := m[p := b];
    assert n[p] == b;
    forall x | x in m.Values ensures x in n.Values {
      var q :| q in m && m[q] == x;
      assert n[q] == x;
    }
  }

  lemma ValuesRemove(m: map<Address, Buffer>, p: Address)
    requires p in m
    requires forall q, r :: q in m && r in m && m[q] == m[r] ==> q == r
    ensures (m - {p}).Values == m.Values - {m[p]}
  {
    var n := m - {p};
    forall x | x in m.Values && x != m[p] ensures x in n.Values {
      var q :| q in m && m[q] == x;
      assert n[q] == x;
    }
    forall x | x in n.Values ensures x in m.Values && x != m[p] {
      var q :| q in n && n[q] == x;
      assert m[q] == x;
    }
  }

  lemma DeallocatedKeeps(s: State, p: Address)
    requires Inv(s)
    ensures Inv(Deallocated(s, p).0)
  {
    hide IsPowerOf2;
    if p != 0 && p in s.buffers {
      ValuesRemove(s.buffers, p);
      assert s.buffers[p] in s.buffers.Values;
    }
  }

  lemma {:induction false} RunKeeps(s: State, events: seq<Event>, n: nat)
    requires Inv(s) && IsRun(s, events) && n <= |events|
    ensures Inv(After(s, events, n)) && After(s, events, n).alignment == s.alignment
      && After(s, events, n).scoped == s.scoped
  {
    hide Inv, CanDo, IsPowerOf2;
    if n > 0 {
      RunKeeps(s, events, n - 1);
      var was, e := After(s, events, n - 1), events[n - 1];
      assert CanDo(was, e);
      if Creates(e) {
        AllocatedKeeps(was, e);
      } else if e.Deallocate? {
        DeallocatedKeeps(was, e.address);
      }
    }
  }

  /** The call hands out address p. */
  predicate HandsOut(e: Event, p: Address) {
    Creates(e) && e.kept && e.at == p
  }

  /** Event i handed out p, and nothing before event n took it back. */
  predicate Out(events: seq<Event>, p: Address, i: nat, n: nat)
    requires n <= |events|
  {
    i < n && HandsOut(events[i], p) && forall j :: i < j < n ==> events[j] != Deallocate(p)
  }

  ghost predicate StillOut(events: seq<Event>, p: Address, n: nat)
    requires n <= |events|
  {
    exists i: nat :: Out(events, p, i, n)
  }

  lemma StepKeys(s: State, e: Event, p: Address)
    requires p != 0
    ensures p in Step(s, e).buffers <==> HandsOut(e, p) || (p in s.buffers && e != Deallocate(p))
  {
    hide IsPowerOf2;
  }

  lemma OutNext(events: seq<Event>, p: Address, n: nat)
    requires 0 < n <= |events|
    ensures StillOut(events, p, n)
      <==> HandsOut(events[n - 1], p) || (StillOut(events, p, n - 1) && events[n - 1] != Deallocate(p))
  {
    hide IsPowerOf2;
    if HandsOut(events[n - 1], p) {
      assert Out(events, p, n - 1, n);
    } else {
      if StillOut(events, p, n - 1) && events[n - 1] != Deallocate(p) {
        var i: nat :| Out(events, p, i, n - 1);
        assert Out(events, p, i, n);
      }
      if i: nat :| Out(events, p, i, n) {
        assert Out(events, p, i, n - 1);
      }
    }
  }

  /** The addresses with a buffer are exactly those handed out and not taken back since. */
  lemma {:induction false} KeysAreOut(scoped: bool, alignment: nat, events: seq<Event>, n: nat, p: Address)
    requires n <= |events| && p != 0
    ensures p in After(Open(scoped, alignment), events, n).buffers <==> StillOut(events, p, n)
  {
    hide Step, StillOut, HandsOut;
    if n > 0 {
      KeysAreOut(scoped, alignment, events, n - 1, p);
      StepKeys(After(Open(scoped, alignment), events, n - 1), events[n - 1], p);
      OutNext(events, p, n);
    } else {
      NoneOut(events, p);
    }
  }

  lemma NoneOut(events: seq<Event>, p: Address)
    ensures !StillOut(events, p, 0)
  {
  }

  /** In any run: an address is refused exactly when no call that handed it out is without one that took it back
      since; null never is. */
  lemma RefusesExactly(scoped: bool, alignment: nat, events: seq<Event>, n: nat, p: Address)
    requires n <= |events|
    ensures var r := Deallocated(After(Open(scoped, alignment), events, n), p).1;
      && (r == Err(BAD_ADDRESS) <==> p != 0 && !StillOut(events, p, n))
      && (r == Ok(()) <==> p == 0 || StillOut(events, p, n))
  {
    hide After, StillOut;
    if p != 0 {
      KeysAreOut(scoped, alignment, events, n, p);
    }
  }

  /** What a call returns, from the call alone: the address it hands out, null for no bytes, and otherwise why not. */
  lemma ReturnsExactly(s: State, bytes: nat, alignment: nat, at: Address, kept: bool)
    requires CanDo(s, Allocate(bytes, alignment, at, kept))
    ensures var e, r := Allocate(bytes, alignment, at, kept), Allocated(s, bytes, alignment, at, kept).1;
      && (forall p: Address :: p != 0 ==> (r == Ok(p) <==> HandsOut(e, p)))
      && (r == Ok(0) <==> bytes == 0 && exists k: nat :: Scale(1, k) == alignment)
      && (r == Err(BAD_ALIGNMENT) <==> !exists k: nat :: Scale(1, k) == alignment)
      && (r == Err(NO_MEMORY) <==> Creates(e) && !kept)
  {
    PowerOf2Is(alignment);
    hide IsPowerOf2;
    assert BAD_ALIGNMENT[0] != NO_MEMORY[0];
  }

  /** An address that is returned is a multiple of the alignment asked for and of the allocator's. */
  lemma AlignedAsAsked(s: State, e: Event)
    requires Inv(s) && CanDo(s, e) && e.Allocate?
    ensures var r := Allocated(s, e.bytes, e.alignment, e.at, e.kept).1;
      r.Ok? ==> (Multiple(r.value, e.alignment) && Multiple(r.value, s.alignment) && (r.value == 0 <==> e.bytes == 0))
  {
    if Creates(e) {
      MaxIsMultiple(s.alignment, e.alignment);
      MultipleThrough(e.at, Max(s.alignment, e.alignment), s.alignment);
      MultipleThrough(e.at, Max(s.alignment, e.alignment), e.alignment);
    }
  }

  /** When a scoped allocator goes, every buffer it ever created has been destroyed exactly once; an
      unscoped one has destroyed those given back, and no other. */
  lemma DestroyedOnce(scoped: bool, alignment: nat, events: seq<Event>, b: Buffer)
    requires IsPowerOf2(alignment) && IsRun(Open(scoped, alignment), events)
    ensures var last := After(Open(scoped, alignment), events, |events|);
      && last.destroyed[b] <= 1
      && (scoped ==> Closed(last).destroyed[b] == if b < last.created then 1 else 0)
      && (!scoped ==> (Closed(last).destroyed[b] == 1 <==> b < last.created && b !in last.buffers.Values))
  {
    var s := Open(scoped, alignment);
    assert Inv(s);
    RunKeeps(s, events, |events|);
    var last := After(s, events, |events|);
    hide After, IsRun, IsPowerOf2;
    assert multiset(last.buffers.Values)[b] == if b in last.buffers.Values then 1 else 0;
    if b in last.buffers.Values {
      var p :| p in last.buffers && last.buffers[p] == b;
    }
  }
}

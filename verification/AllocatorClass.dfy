/** The scoped allocator itself. */
module AllocatorClass {
  import opened Wrappers
  import opened AllocatorModel

  /** The result of constructing one: it refuses an alignment that is no power of two. */
  method NewAllocator(scoped: bool, alignment: nat) returns (r: Result<Allocator>)
    ensures r.Ok? <==> IsPowerOf2(alignment)
    ensures r.Ok? ==> fresh(r.value) && r.value.State() == Open(scoped, alignment)
    ensures r.Err? ==> r.message == BAD_ALIGNMENT
  {
    if !IsPowerOf2(alignment) {
      return Err(BAD_ALIGNMENT);
    }
    var a := new Allocator(scoped, alignment);
    return Ok(a);
  }

  class Allocator {
    const scoped: bool
    const alignment: nat
    var buffers: map<Address, Buffer>
    var created: nat
    var destroyed: multiset<Buffer>

    ghost function State(): State
      reads this
    {
      AllocatorModel.State(scoped, alignment, buffers, created, destroyed)
    }

    constructor (scoped: bool, alignment: nat)
      requires IsPowerOf2(alignment)
      ensures State() == Open(scoped, alignment)
    {
      this.scoped, this.alignment := scoped, alignment;
      buffers, created, destroyed := map[], 0, multiset{};
    }

    /** The memory system picks the address; keeping the buffer may fail. */
    method AllocateAligned(bytes: nat, alignment: nat, at: Address, kept: bool) returns (r: Result<Address>)
      requires CanDo(State(), Event.Allocate(bytes, alignment, at, kept))
      modifies this
      ensures (State(), r) == Allocated(old(State()), bytes, alignment, at, kept)
    {
      if !IsPowerOf2(alignment) {
        return Err(BAD_ALIGNMENT);
      }
      if bytes == 0 {
        return Ok(0);
      }
      var buffer := created;
      created := created + 1;
      if !kept {
        destroyed := destroyed + multiset{buffer};
        return Err(NO_MEMORY);
      }
      buffers := buffers[at := buffer];
      return Ok(at);
    }

    method Allocate(bytes: nat, at: Address, kept: bool) returns (r: Result<Address>)
      requires CanDo(State(), Event.Allocate(bytes, alignment, at, kept))
      modifies this
      ensures (State(), r) == Allocated(old(State()), bytes, alignment, at, kept)
    {
      r := AllocateAligned(bytes, alignment, at, kept);
    }

    method Deallocate(p: Address) returns (r: Result<()>)
      modifies this
      ensures (State(), r) == Deallocated(old(State()), p)
    {
      if p == 0 {
        return Ok(());
      }
      if p !in buffers {
        return Err(BAD_ADDRESS);
      }
      destroyed := destroyed + multiset{buffers[p]};
      buffers := buffers - {p};
      return Ok(());
    }

    /** The destructor: it sweeps the map in any order. */
    method Destruct()
      requires Inv(State())
      modifies this
      ensures State() == Closed(old(State()))
    {
      if scoped {
        var rest := buffers;
        while rest != map[]
          invariant rest.Keys <= buffers.Keys && forall p <- rest :: rest[p] == buffers[p]
          invariant buffers == old(buffers) && created == old(created)
          invariant destroyed + multiset(rest.Values) == old(destroyed) + multiset(buffers.Values)
          decreases |rest|
        {
          var p :| p in rest;
          ValuesRemove(rest, p);
          SweptOne(rest, p);
          destroyed := destroyed + multiset{rest[p]};
          rest := rest - {p};
        }
        buffers := map[];
      }
    }
  }

  lemma SweptOne(rest: map<Address, Buffer>, p: Address)
    requires p in rest && (rest - {p}).Values == rest.Values - {rest[p]}
    ensures multiset(rest.Values) == multiset{rest[p]} + multiset((rest - {p}).Values)
    ensures |rest - {p}| < |rest|
  {
    assert rest[p] in rest.Values;
    assert (rest - {p}).Keys == rest.Keys - {p};
  }
}

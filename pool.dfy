/**
 The block pool: `MemoryPool` over a system allocator that hands out fresh
 block addresses (`malloc`) and takes them back (`free`).
 */
module Pool {
  import opened FreeList

  /**
   The system allocator behind `malloc` and `free`. Addresses are abstract:
   every `Malloc` yields an address that is not live, and `live` is the set of
   addresses currently obtained and not yet freed. Byte contents and block
   sizes are not modelled.
   */
  class SystemHeap {
    var next: nat
    ghost var live: set<Block>

    ghost predicate Valid()
      reads this
    {
      forall b :: b in live ==> b < next
    }

    constructor ()
      ensures Valid() && live == {}
    {
      next := 0;
      live := {};
    }

    method Malloc() returns (b: Block)
      requires Valid()
      modifies this
      ensures Valid()
      ensures b !in old(live) && live == old(live) + {b}
    {
      b := next;
      next := next + 1;
      live := live + {b};
    }

    /** `free` of an address that is not live is undefined behaviour, hence the requires. */
    method Free(b: Block)
      requires Valid() && b in live
      modifies this
      ensures Valid() && live == old(live) - {b}
    {
      live := live - {b};
    }
  }

  /** Appending an address that was not live keeps the free list duplicate-free and accounted for. */
  lemma AppendFresh(free: seq<Block>, b: Block, live0: set<Block>)
    requires NoDup(free) && Elems(free) !! live0 && b !in live0 + Elems(free)
    ensures NoDup(free + [b]) && Elems(free + [b]) !! live0
    ensures live0 + Elems(free) + {b} == live0 + Elems(free + [b])
  {
    ElemsAppend(free, b);
  }

  class MemoryPool {
    /** The free list (`vector<void*> blocks`); its back is the next block handed out. */
    var blocks: seq<Block>
    const blockSize: nat
    const capacity: nat
    const system: SystemHeap
    /** The blocks handed out and not yet given back; the source does not track them. */
    ghost var checkedOut: set<Block>
    /** The blocks obtained from the system allocator at construction. */
    ghost const issued: set<Block>
    /** The lifecycle events of the pool's blocks, oldest first; the source keeps no such record. */
    ghost var log: seq<Event>

    ghost function State(): FreeList.State
      reads this
    {
      FreeList.State(blocks, checkedOut)
    }

    ghost predicate Valid()
      reads this
    {
      Inv(State(), issued) && |issued| == capacity
    }

    /**
     Fills the free list with `capacity` freshly obtained, pairwise-distinct
     blocks. `blockSize` and `capacity` are `const`: no later operation can
     change them.
     */
    constructor (blockSize: nat, capacity: nat, system: SystemHeap)
      requires system.Valid()
      modifies system
      ensures Valid() && system.Valid()
      ensures this.blockSize == blockSize && this.capacity == capacity && this.system == system
      ensures |blocks| == capacity && NoDup(blocks) && checkedOut == {} && issued == Elems(blocks)
      ensures Elems(blocks) !! old(system.live) && system.live == old(system.live) + Elems(blocks)
      ensures log == []
    {
      this.blockSize := blockSize;
      this.capacity := capacity;
      this.system := system;
      var free: seq<Block> := [];
      var i := 0;
      while i < capacity
        invariant i <= capacity && |free| == i
        invariant system.Valid() && NoDup(free)
        invariant Elems(free) !! old(system.live) && system.live == old(system.live) + Elems(free)
      {
        var b := system.Malloc();
        AppendFresh(free, b, old(system.live));
        free := free + [b];
        i := i + 1;
      }
      NoDupCard(free);
      blocks, checkedOut, issued, log := free, {}, Elems(free), [];
    }

    /**
     The destructor: frees every block on the free list. Blocks still checked
     out are not freed, exactly as in the source.
     */
    method Destroy()
      requires Valid() && system.Valid() && Elems(blocks) <= system.live
      modifies system
      ensures system.Valid() && system.live == old(system.live) - Elems(blocks)
      ensures forall b :: b in checkedOut && b in old(system.live) ==> b in system.live
    {
      var i := 0;
      while i < |blocks|
        invariant i <= |blocks| && system.Valid()
        invariant system.live == old(system.live) - Elems(blocks[..i])
      {
        assert blocks[..i + 1] == blocks[..i] + [blocks[i]];
        ElemsAppend(blocks[..i], blocks[i]);
        forall k | 0 <= k < i ensures blocks[..i][k] != blocks[i] {
          assert blocks[k] != blocks[i];
        }
        system.Free(blocks[i]);
        i := i + 1;
      }
      assert blocks[..i] == blocks;
    }

    /**
     `allocate`: on an empty free list fails with `bad_alloc` and changes
     nothing; otherwise returns the last free block and drops it from the list.
     */
    method Allocate() returns (r: Result<Block>)
      requires Valid()
      modifies this
      ensures Valid()
      ensures (r, State()) == FreeList.Allocate(old(State())) && log == old(log)
      ensures old(blocks) == [] ==> r == Err(BadAlloc) && blocks == old(blocks)
      ensures old(blocks) != [] ==>
        r == Ok(old(blocks)[|old(blocks)| - 1]) && blocks == old(blocks)[..|old(blocks)| - 1]
    {
      AllocatePreservesInv(State(), issued);
      if blocks == [] {
        r := Err(BadAlloc);
      } else {
        var b := blocks[|blocks| - 1];
        blocks := blocks[..|blocks| - 1];
        checkedOut := checkedOut + {b};
        r := Ok(b);
      }
    }

    /**
     `deallocate`: appends the block to the free list. The source does not
     check the block; giving back only a checked-out block of this pool, once,
     is the caller's duty, stated here as the requires.
     */
    method Deallocate(b: Block)
      requires Valid() && b in checkedOut
      modifies this
      ensures Valid()
      ensures State() == FreeList.Deallocate(old(State()), b)
      ensures blocks == old(blocks) + [b] && log == old(log) + [Returned(b)]
    {
      DeallocatePreservesInv(State(), issued, b);
      blocks := blocks + [b];
      checkedOut := checkedOut - {b};
      log := log + [Returned(b)];
    }
  }
}

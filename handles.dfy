/**
 The typed-handle wrapper: `make_unique_pool` builds a value in a pool block
 and returns an owning handle whose deleter destroys the value and then gives
 the block back; `PoolManager` owns a pool and forwards to it.
 */
module Handles {
  import opened FreeList
  import opened Pool

  /**
   The owning handle (`unique_ptr<T, function<void(T*)>>` with the pool
   deleter). `released` records that the deleter has run; it runs once.
   */
  class Handle<T> {
    const pool: MemoryPool
    const block: Block
    var value: T
    var released: bool

    /** A live handle owns a block that is checked out of its pool. */
    ghost predicate Valid()
      reads this, pool
    {
      !released ==> block in pool.checkedOut
    }

    /**
     Placement construction of `value` in `block`, wrapped in the owning
     handle. The block must already be taken from the pool. The pool's blocks
     are not touched; its log records the construction.
     */
    constructor (pool: MemoryPool, block: Block, value: T)
      requires block in pool.checkedOut
      modifies pool
      ensures this.pool == pool && this.block == block && this.value == value && !released
      ensures pool.blocks == old(pool.blocks) && pool.checkedOut == old(pool.checkedOut)
      ensures pool.log == old(pool.log) + [Constructed(block)]
    {
      this.pool := pool;
      this.block := block;
      this.value := value;
      released := false;
      new;
      pool.log := pool.log + [Constructed(block)];
    }

    /** `*ptr`: reads the value of a live handle. */
    function Get(): T
      reads this
      requires !released
    {
      value
    }

    /**
     `ptr->~T()`: ends the value's lifetime in its block, which stays checked
     out. The value's own destructor is taken to leave the pool alone.
     */
    method DestroyValue()
      requires !released && block in pool.checkedOut
      modifies pool
      ensures pool.blocks == old(pool.blocks) && pool.checkedOut == old(pool.checkedOut)
      ensures pool.log == old(pool.log) + [Destroyed(block)]
    {
      pool.log := pool.log + [Destroyed(block)];
    }

    /**
     The deleter: calls the destructor, then gives that same block back to
     the pool. A released handle cannot be released again.
     */
    method Release()
      requires pool.Valid() && Valid() && !released
      modifies this, pool
      ensures pool.Valid() && released
      ensures pool.log == old(pool.log) + [Destroyed(block)] + [Returned(block)]
      ensures pool.blocks == old(pool.blocks) + [block]
      ensures pool.checkedOut == old(pool.checkedOut) - {block}
    {
      DestroyValue();
      pool.Deallocate(block);
      released := true;
    }
  }

  /**
   `make_unique_pool`: takes one block from the pool (propagating `bad_alloc`
   and constructing nothing when the pool is exhausted), constructs `init` in
   it and returns the owning handle.
   */
  method MakeUniquePool<T>(pool: MemoryPool, init: T) returns (r: Result<Handle<T>>)
    requires pool.Valid()
    modifies pool
    ensures pool.Valid()
    ensures old(pool.blocks) == [] <==> r.Err?
    ensures r.Err? ==> r.error == BadAlloc && pool.State() == old(pool.State()) && pool.log == old(pool.log)
    ensures r.Ok? ==>
      && fresh(r.value) && r.value.Valid() && !r.value.released
      && r.value.pool == pool && r.value.value == init
      && pool.blocks + [r.value.block] == old(pool.blocks)
      && pool.checkedOut == old(pool.checkedOut) + {r.value.block}
      && pool.log == old(pool.log) + [Constructed(r.value.block)]
  {
    var memory := pool.Allocate();
    if memory.Err? {
      return Err(memory.error);
    }
    var h := new Handle(pool, memory.value, init);
    r := Ok(h);
  }

  /** Whether a value of `valueSize` bytes fits in the block a placement got, if it got one. */
  predicate Holds(valueSize: nat, blockSize: nat, r: Result<Block>)
  {
    r.Ok? ==> valueSize <= blockSize
  }

  /**
   The placement as written takes the pool's back block whatever the size
   of `T`: a value larger than a block is constructed in a block too small
   for it whenever the pool is not empty.
   */
  lemma PlacementOverflowsBlock(valueSize: nat, blockSize: nat, st: State)
    requires st.free != [] && valueSize > blockSize
    ensures FreeList.Allocate(st).0.Ok?
    ensures !Holds(valueSize, blockSize, FreeList.Allocate(st).0)
  {
  }

  /**
   The demonstration's case: after the two `int` handles, eight of the ten
   4-byte blocks are free, and `create<vector<int, PoolAllocator<int>>>`
   places the vector object (three 8-byte pointers and the adapter's 8-byte
   pool reference on a 64-bit target, 32 bytes) in the 4-byte back block.
   */
  lemma VectorInIntBlock()
    ensures FreeList.Allocate(State([0, 1, 2, 3, 4, 5, 6, 7], {8, 9})).0 == Ok(7)
    ensures !Holds(32, 4, FreeList.Allocate(State([0, 1, 2, 3, 4, 5, 6, 7], {8, 9})).0)
  {
  }

  /**
   The corrected placement: fails with `bad_alloc`, taking no block, when a
   value of `valueSize` bytes does not fit in a block; otherwise it is the
   allocation as written.
   */
  function SizedPlacement(valueSize: nat, blockSize: nat, st: State): (r: (Result<Block>, State))
    ensures valueSize > blockSize ==> r == (Err(BadAlloc), st)
    ensures valueSize <= blockSize ==> r == FreeList.Allocate(st)
  {
    if valueSize > blockSize then (Err(BadAlloc), st) else FreeList.Allocate(st)
  }

  /** Every block the corrected placement hands out can hold the value. */
  lemma SizedPlacementFits(valueSize: nat, blockSize: nat, st: State)
    ensures Holds(valueSize, blockSize, SizedPlacement(valueSize, blockSize, st).0)
  {
  }

  /**
   `make_unique_pool` corrected: refuses, constructing nothing, a `T` of
   `valueSize` bytes that does not fit in one of the pool's blocks.
   */
  method CheckedMakeUniquePool<T>(pool: MemoryPool, init: T, valueSize: nat) returns (r: Result<Handle<T>>)
    requires pool.Valid()
    modifies pool
    ensures pool.Valid()
    ensures (if r.Ok? then Ok(r.value.block) else Err(r.error), pool.State())
      == SizedPlacement(valueSize, pool.blockSize, old(pool.State()))
    ensures Holds(valueSize, pool.blockSize, if r.Ok? then Ok(r.value.block) else Err(r.error))
    ensures r.Err? ==> pool.log == old(pool.log)
    ensures r.Ok? ==>
      && fresh(r.value) && r.value.Valid() && !r.value.released
      && r.value.pool == pool && r.value.value == init
      && pool.log == old(pool.log) + [Constructed(r.value.block)]
  {
    if valueSize > pool.blockSize {
      return Err(BadAlloc);
    }
    r := MakeUniquePool(pool, init);
  }

  /** The RAII owner of a pool; `create` forwards to `make_unique_pool`. */
  class PoolManager {
    const pool: MemoryPool

    constructor (blockSize: nat, capacity: nat, system: SystemHeap)
      requires system.Valid()
      modifies system
      ensures fresh(pool) && pool.Valid() && system.Valid()
      ensures pool.blockSize == blockSize && pool.capacity == capacity && pool.system == system
      ensures |pool.blocks| == capacity && NoDup(pool.blocks) && pool.checkedOut == {} && pool.log == []
      ensures Elems(pool.blocks) !! old(system.live) && system.live == old(system.live) + Elems(pool.blocks)
    {
      pool := new MemoryPool(blockSize, capacity, system);
    }

    method Create<T>(init: T) returns (r: Result<Handle<T>>)
      requires pool.Valid()
      modifies pool
      ensures pool.Valid()
      ensures old(pool.blocks) == [] <==> r.Err?
      ensures r.Err? ==> r.error == BadAlloc && pool.State() == old(pool.State()) && pool.log == old(pool.log)
      ensures r.Ok? ==>
        && fresh(r.value) && r.value.Valid() && !r.value.released
        && r.value.pool == pool && r.value.value == init
        && pool.blocks + [r.value.block] == old(pool.blocks)
        && pool.checkedOut == old(pool.checkedOut) + {r.value.block}
        && pool.log == old(pool.log) + [Constructed(r.value.block)]
    {
      r := MakeUniquePool(pool, init);
    }
  }
}

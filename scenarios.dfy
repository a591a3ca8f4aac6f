/**
 Client code that uses only the contracts of the pool, the adapter and the
 handles, for the call sequences the program itself performs.
 */
module Scenarios {
  import opened FreeList
  import opened Pool
  import opened Handles

  /**
   A pool of two `int`-sized blocks: two allocations give distinct blocks,
   the third fails with `bad_alloc`, and after the first block is given back
   the next allocation returns it again.
   */
  method CapacityTwo() returns (first: Block, second: Block, third: Result<Block>, reused: Result<Block>)
    ensures first != second
    ensures third == Err(BadAlloc)
    ensures reused == Ok(first)
  {
    var system := new SystemHeap();
    var pool := new MemoryPool(4, 2, system);
    var r1 := pool.Allocate();
    var r2 := pool.Allocate();
    first, second := r1.value, r2.value;
    third := pool.Allocate();
    pool.Deallocate(first);
    reused := pool.Allocate();
  }

  /**
   The demonstration's handles: a manager over ten `int`-sized blocks,
   `create<int>(42)` and `create<int>(100)` read back 42 and 100, and
   releasing them at scope exit (the later one first) restores the free list
   exactly.
   */
  method CreateAndRelease() returns (v1: int, v2: int, before: seq<Block>, after: seq<Block>)
    ensures v1 == 42 && v2 == 100
    ensures |before| == 10 && after == before
  {
    var system := new SystemHeap();
    var manager := new PoolManager(4, 10, system);
    var pool := manager.pool;
    before := pool.blocks;
    var ptr1 := manager.Create(42);
    var h1 := ptr1.value;
    ghost var afterFirst := pool.blocks;
    var ptr2 := manager.Create(100);
    var h2 := ptr2.value;
    assert h1 != h2 && h1.block != h2.block;
    v1, v2 := h1.Get(), h2.Get();
    h2.Release();
    assert pool.blocks == afterFirst;
    h1.Release();
    after := pool.blocks;
  }

  /**
   After a handle is released, the next allocation on its pool reuses the
   very block the handle held. Over the handle's life its block sees the
   construction, then the destructor call, then the return to the pool.
   */
  method ReleaseThenReuse() returns (held: Block, again: Result<Block>, ghost events: seq<Event>)
    ensures again == Ok(held)
    ensures events == [Constructed(held)] + [Destroyed(held)] + [Returned(held)]
  {
    var system := new SystemHeap();
    var manager := new PoolManager(4, 10, system);
    var pool := manager.pool;
    var ptr := manager.Create(42);
    var h := ptr.value;
    held := h.block;
    assert pool.log == [Constructed(held)];
    h.Release();
    events := pool.log;
    again := pool.Allocate();
  }
}

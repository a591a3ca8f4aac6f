/**
 `PoolAllocator<T>`: the standard-allocator adapter that lets a container
 draw its storage from a `MemoryPool`.
 */
module Adapter {
  import opened FreeList
  import opened Pool

  /** A `T*` as the adapter returns it: null, or the address of a pool block. */
  datatype Pointer = Null | At(block: Block)

  /**
   The effect of `allocate(n)` on the pool, as written: no block for `n == 0`,
   otherwise exactly one pool allocation, whatever `n` is.
   */
  function Request(n: nat, st: State): (r: (Result<Pointer>, State))
    ensures n == 0 ==> r == (Ok(Null), st)
    ensures n > 0 && st.free == [] ==> r == (Err(BadAlloc), st)
    ensures n > 0 && st.free != [] ==>
      r.0.Ok? && r.0.value.At? && r.1.free + [r.0.value.block] == st.free
      && r.1.out == st.out + {r.0.value.block}
  {
    if n == 0 then (Ok(Null), st)
    else
      var (res, st1) := FreeList.Allocate(st);
      (if res.Ok? then Ok(At(res.value)) else Err(res.error), st1)
  }

  /** Any two non-zero requests have the same effect: the count is ignored. */
  lemma RequestIgnoresCount(n: nat, m: nat, st: State)
    requires n > 0 && m > 0
    ensures Request(n, st) == Request(m, st)
  {
  }

  /** Whether a successful request for `n` elements of `elemSize` bytes got a block big enough. */
  predicate Fits(n: nat, elemSize: nat, blockSize: nat, r: Result<Pointer>)
  {
    r.Ok? && r.value.At? ==> n * elemSize <= blockSize
  }

  /**
   The request as written hands out a block too small for what was asked
   whenever `n` elements of `elemSize` bytes exceed one block and the pool is
   not empty.
   */
  lemma RequestOverflowsBlock(n: nat, elemSize: nat, blockSize: nat, st: State)
    requires n > 0 && st.free != [] && n * elemSize > blockSize
    ensures Request(n, st).0.Ok? && Request(n, st).0.value.At?
    ensures !Fits(n, elemSize, blockSize, Request(n, st).0)
  {
  }

  /**
   The concrete case: two 4-byte elements from a pool of 4-byte blocks (the
   `vector<int>` in the demonstration grows to two elements in a pool built
   with `sizeof(int)`) get the single 4-byte block on the free list.
   */
  lemma TwoIntsOverflow()
    ensures Request(2, State([0], {})).0 == Ok(At(0))
    ensures !Fits(2, 4, 4, Request(2, State([0], {})).0)
  {
  }

  /**
   The corrected request: like `Request`, but fails with `bad_alloc`, taking
   no block, when `n` elements of `elemSize` bytes do not fit in one block.
   */
  function SizedRequest(n: nat, elemSize: nat, blockSize: nat, st: State): (r: (Result<Pointer>, State))
    ensures n * elemSize > blockSize ==> r == (Err(BadAlloc), st)
    ensures n * elemSize <= blockSize ==> r == Request(n, st)
  {
    if n > 0 && n * elemSize > blockSize then (Err(BadAlloc), st)
    else Request(n, st)
  }

  /** Every block the corrected request hands out can hold what was asked for. */
  lemma SizedRequestFits(n: nat, elemSize: nat, blockSize: nat, st: State)
    ensures Fits(n, elemSize, blockSize, SizedRequest(n, elemSize, blockSize, st).0)
  {
  }

  class PoolAllocator<T> {
    /** The pool this adapter draws from (a reference, `MemoryPool&`). */
    const pool: MemoryPool
    /** `sizeof(T)`, in bytes. */
    const elemSize: nat

    constructor (pool: MemoryPool, elemSize: nat)
      ensures this.pool == pool && this.elemSize == elemSize
    {
      this.pool := pool;
      this.elemSize := elemSize;
    }

    /** The rebinding constructor `PoolAllocator(const PoolAllocator<U>&)`: same pool, new element type. */
    constructor Rebind<U>(other: PoolAllocator<U>, elemSize: nat)
      ensures pool == other.pool && this.elemSize == elemSize
      ensures Equals(other)
    {
      this.pool := other.pool;
      this.elemSize := elemSize;
    }

    /** `operator==`: two adapters are equal exactly when they refer to the same pool. */
    predicate Equals<U>(other: PoolAllocator<U>)
    {
      pool == other.pool
    }

    /** `operator!=`: the negation of `operator==`. */
    predicate NotEquals<U>(other: PoolAllocator<U>)
    {
      !Equals(other)
    }

    /**
     `allocate(n)` as written: null for `n == 0` without touching the pool;
     otherwise one pool block, or `bad_alloc` if the pool is exhausted.
     */
    method Allocate(n: nat) returns (p: Result<Pointer>)
      requires pool.Valid()
      modifies pool
      ensures pool.Valid()
      ensures (p, pool.State()) == Request(n, old(pool.State())) && pool.log == old(pool.log)
    {
      if n == 0 {
        p := Ok(Null);
      } else {
        var res := pool.Allocate();
        p := if res.Ok? then Ok(At(res.value)) else Err(res.error);
      }
    }

    /** `allocate(n)` corrected: refuses a request that does not fit in one block. */
    method CheckedAllocate(n: nat) returns (p: Result<Pointer>)
      requires pool.Valid()
      modifies pool
      ensures pool.Valid()
      ensures (p, pool.State()) == SizedRequest(n, elemSize, pool.blockSize, old(pool.State()))
      ensures pool.log == old(pool.log)
      ensures Fits(n, elemSize, pool.blockSize, p)
    {
      if n > 0 && n * elemSize > pool.blockSize {
        p := Err(BadAlloc);
      } else {
        p := Allocate(n);
      }
      SizedRequestFits(n, elemSize, pool.blockSize, old(pool.State()));
    }

    /**
     `deallocate(p, n)`: gives the block back to the pool; `n` is ignored.
     The pointer must be one this adapter's pool handed out and still
     checked out.
     */
    method Deallocate(p: Pointer, n: nat)
      requires pool.Valid() && p.At? && p.block in pool.checkedOut
      modifies pool
      ensures pool.Valid()
      ensures pool.State() == FreeList.Deallocate(old(pool.State()), p.block)
      ensures pool.log == old(pool.log) + [Returned(p.block)]
    {
      pool.Deallocate(p.block);
    }
  }

  /** Adapter equality is an equivalence, and `!=` is exactly its negation. */
  lemma AdapterEquality<A, B, C>(a: PoolAllocator<A>, b: PoolAllocator<B>, c: PoolAllocator<C>)
    ensures a.Equals(a)
    ensures a.Equals(b) <==> b.Equals(a)
    ensures a.Equals(b) && b.Equals(c) ==> a.Equals(c)
    ensures a.NotEquals(b) <==> !a.Equals(b)
    ensures a.Equals(b) <==> a.pool == b.pool
  {
  }
}

/**
 The free list of a fixed-block memory pool, as a state machine on values.

 A block is an abstract address (a `nat`); the pool's state is its free list
 (a stack, the back of the sequence being the top) together with the set of
 blocks currently checked out to callers. The class `Pool.MemoryPool` is
 specified by the functions here, and the lemmas here are what make those
 specifications worth having.
 */
module FreeList {

  /** An abstract raw address handed out by the system allocator. */
  type Block = nat

  /** The one failure the pool reports: `std::bad_alloc` from an empty free list. */
  datatype PoolError = BadAlloc

  datatype Result<T> = Ok(value: T) | Err(error: PoolError)

  /** What the pool knows: its free list, and (ghost, in the class) the blocks it has handed out. */
  datatype State = State(free: seq<Block>, out: set<Block>)

  /**
   What happens to the value in a block and to the block itself, in the order
   it happens: placement construction, the explicit destructor call, and the
   return of the block to the pool.
   */
  datatype Event = Constructed(block: Block) | Destroyed(block: Block) | Returned(block: Block)

  /** The blocks listed in a free list. */
  function Elems(s: seq<Block>): (e: set<Block>)
    ensures forall i :: 0 <= i < |s| ==> s[i] in e
    ensures forall b :: b in e ==> b in s
  {
    set b | b in s
  }

  /** No address appears twice in the free list. */
  ghost predicate NoDup(s: seq<Block>)
  {
    forall i, j :: 0 <= i < j < |s| ==> s[i] != s[j]
  }

  /**
   The pool invariant: the free list has no duplicates, no free block is
   checked out, and free and checked-out blocks together are exactly the
   blocks the pool was built from.
   */
  ghost predicate Inv(st: State, issued: set<Block>)
  {
    && NoDup(st.free)
    && Elems(st.free) !! st.out
    && Elems(st.free) + st.out == issued
  }

  /**
   `MemoryPool::allocate`: fail on an empty free list, otherwise pop the
   last block and hand it out.
   */
  function Allocate(st: State): (r: (Result<Block>, State))
    ensures r.0.Err? <==> st.free == []
    ensures r.0.Err? ==> r.1 == st
    ensures r.0.Ok? ==> r.1.free + [r.0.value] == st.free && r.1.out == st.out + {r.0.value}
  {
    if st.free == [] then (Err(BadAlloc), st)
    else
      var b := st.free[|st.free| - 1];
      (Ok(b), State(st.free[..|st.free| - 1], st.out + {b}))
  }

  /** `MemoryPool::deallocate`: push the block on the back of the free list. */
  function Deallocate(st: State, b: Block): (r: State)
    ensures |r.free| == |st.free| + 1 && r.free[|st.free|] == b
    ensures forall i :: 0 <= i < |st.free| ==> r.free[i] == st.free[i]
    ensures r.out == st.out - {b}
  {
    State(st.free + [b], st.out - {b})
  }

  lemma ElemsAppend(s: seq<Block>, b: Block)
    ensures Elems(s + [b]) == Elems(s) + {b}
  {
  }

  /** A list without duplicates has as many distinct blocks as entries. */
  lemma {:induction false} NoDupCard(s: seq<Block>)
    requires NoDup(s)
    ensures |Elems(s)| == |s|
  {
    if s != [] {
      var init, last := s[..|s| - 1], s[|s| - 1];
      assert s == init + [last];
      ElemsAppend(init, last);
      forall k | 0 <= k < |init| ensures init[k] != last {
        assert s[k] != s[|s| - 1];
      }
      NoDupCard(init);
    }
  }

  /** Under the invariant, free count plus checked-out count is the capacity. */
  lemma CountConserved(st: State, issued: set<Block>)
    requires Inv(st, issued)
    ensures |st.free| + |st.out| == |issued|
  {
    NoDupCard(st.free);
  }

  /**
   An allocation keeps the invariant, and a block it hands out was free and
   was not checked out at that moment: the pool never aliases a live block.
   */
  lemma AllocatePreservesInv(st: State, issued: set<Block>)
    requires Inv(st, issued)
    ensures Inv(Allocate(st).1, issued)
    ensures Allocate(st).0.Ok? ==> Allocate(st).0.value in Elems(st.free) - st.out
  {
  }

  /**
   Giving back a block that is checked out (the caller's duty in the source)
   keeps the invariant.
   */
  lemma DeallocatePreservesInv(st: State, issued: set<Block>, b: Block)
    requires Inv(st, issued) && b in st.out
    ensures Inv(Deallocate(st, b), issued)
  {
  }

  /** `deallocate(allocate())` restores the pool state exactly. */
  lemma AllocateThenDeallocate(st: State, issued: set<Block>)
    requires Inv(st, issued) && st.free != []
    ensures Allocate(st).0.Ok?
    ensures Deallocate(Allocate(st).1, Allocate(st).0.value) == st
  {
  }

  /** LIFO reuse: after `deallocate(b)` the next `allocate` returns `b` and restores the state. */
  lemma DeallocateThenAllocate(st: State, b: Block)
    requires b in st.out
    ensures Allocate(Deallocate(st, b)) == (Ok(b), st)
  {
    var st1 := Deallocate(st, b);
    assert st1.free[..|st1.free| - 1] == st.free;
    assert (st.out - {b}) + {b} == st.out;
  }

  /** A call on the pool, for stating properties of call sequences. */
  datatype Op = AllocateOp | DeallocateOp(block: Block)

  /** Whether every `DeallocateOp` in `ops` gives back a block that is checked out at that point. */
  ghost predicate Respects(st: State, ops: seq<Op>)
    decreases |ops|
  {
    if ops == [] then true
    else match ops[0]
      case AllocateOp => Respects(Allocate(st).1, ops[1..])
      case DeallocateOp(b) => b in st.out && Respects(Deallocate(st, b), ops[1..])
  }

  /** Runs `ops` from `st`; yields the results of the allocations, in order, and the final state. */
  function Run(st: State, ops: seq<Op>): (r: (seq<Result<Block>>, State))
    ensures ops == [] ==> r == ([], st)
    decreases |ops|
  {
    if ops == [] then ([], st)
    else match ops[0]
      case AllocateOp =>
        var (r, st1) := Allocate(st);
        var (rs, st2) := Run(st1, ops[1..]);
        ([r] + rs, st2)
      case DeallocateOp(b) => Run(Deallocate(st, b), ops[1..])
  }

  /**
   For every call sequence that gives back only checked-out blocks, the
   invariant holds at the end and every block handed out is one of the
   pool's own.
   */
  lemma {:induction false} RunPreservesInv(st: State, issued: set<Block>, ops: seq<Op>)
    requires Inv(st, issued) && Respects(st, ops)
    ensures Inv(Run(st, ops).1, issued)
    ensures forall k :: 0 <= k < |Run(st, ops).0| && Run(st, ops).0[k].Ok? ==> Run(st, ops).0[k].value in issued
    decreases |ops|
  {
    if ops != [] {
      match ops[0]
      case AllocateOp =>
        AllocatePreservesInv(st, issued);
        RunPreservesInv(Allocate(st).1, issued, ops[1..]);
      case DeallocateOp(b) =>
        DeallocatePreservesInv(st, issued, b);
        RunPreservesInv(Deallocate(st, b), issued, ops[1..]);
    }
  }

  /** `n` allocations in a row. */
  function Allocations(n: nat): (ops: seq<Op>)
    ensures |ops| == n && forall k :: 0 <= k < n ==> ops[k] == AllocateOp
  {
    if n == 0 then [] else [AllocateOp] + Allocations(n - 1)
  }

  /**
   `n` allocations from a free list of at least `n` blocks hand out its last
   `n` entries from the back, and leave the first ones free.
   */
  lemma {:induction false} DrainFromBack(st: State, n: nat)
    requires n <= |st.free|
    ensures |Run(st, Allocations(n)).0| == n
    ensures forall k :: 0 <= k < n ==> Run(st, Allocations(n)).0[k] == Ok(st.free[|st.free| - 1 - k])
    ensures Run(st, Allocations(n)).1.free == st.free[..|st.free| - n]
    decreases n
  {
    if n > 0 {
      var ops := Allocations(n);
      assert ops[0] == AllocateOp && ops[1..] == Allocations(n - 1);
      var (r, st1) := Allocate(st);
      DrainFromBack(st1, n - 1);
      assert st1.free == st.free[..|st.free| - 1];
      var rs := Run(st1, Allocations(n - 1)).0;
      assert Run(st, ops).0 == [r] + rs;
      forall k | 0 <= k < n ensures Run(st, ops).0[k] == Ok(st.free[|st.free| - 1 - k]) {
        if k > 0 {
          assert Run(st, ops).0[k] == rs[k - 1];
        }
      }
    }
  }

  /**
   From a fresh pool whose `N` blocks are pairwise distinct, `N` allocations
   succeed with pairwise-distinct blocks and allocation `N + 1` fails.
   */
  lemma ExhaustFresh(s: seq<Block>)
    requires NoDup(s)
    ensures var rs := Run(State(s, {}), Allocations(|s| + 1)).0;
      && |rs| == |s| + 1
      && (forall k :: 0 <= k < |s| ==> rs[k].Ok?)
      && (forall j, k :: 0 <= j < k < |s| ==> rs[j].value != rs[k].value)
      && rs[|s|] == Err(BadAlloc)
  {
    var st := State(s, {});
    var ops := Allocations(|s| + 1);
    DrainFromBack(st, |s|);
    var (rs, st1) := Run(st, Allocations(|s|));
    assert st1.free == [];
    RunSplit(st, Allocations(|s|), [AllocateOp]);
    assert Allocations(|s|) + [AllocateOp] == ops by {
      AllocationsSnoc(|s|);
    }
    assert Run(st1, [AllocateOp]).0 == [Err(BadAlloc)];
    var all := Run(st, ops).0;
    assert all == rs + [Err(BadAlloc)];
    forall j, k | 0 <= j < k < |s| ensures all[j].value != all[k].value {
      assert all[j] == Ok(s[|s| - 1 - j]) && all[k] == Ok(s[|s| - 1 - k]);
    }
  }

  lemma {:induction false} AllocationsSnoc(n: nat)
    ensures Allocations(n) + [AllocateOp] == Allocations(n + 1)
  {
  }

  /** Running two call sequences one after the other is running their concatenation. */
  lemma {:induction false} RunSplit(st: State, ops1: seq<Op>, ops2: seq<Op>)
    ensures Run(st, ops1 + ops2).1 == Run(Run(st, ops1).1, ops2).1
    ensures Run(st, ops1 + ops2).0 == Run(st, ops1).0 + Run(Run(st, ops1).1, ops2).0
    decreases |ops1|
  {
    if ops1 == [] {
      assert ops1 + ops2 == ops2;
    } else {
      assert (ops1 + ops2)[0] == ops1[0];
      assert (ops1 + ops2)[1..] == ops1[1..] + ops2;
      match ops1[0]
      case AllocateOp =>
        RunSplit(Allocate(st).1, ops1[1..], ops2);
      case DeallocateOp(b) =>
        RunSplit(Deallocate(st, b), ops1[1..], ops2);
    }
  }
}

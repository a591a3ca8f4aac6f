# Fixed-block memory pool, modelled in Dafny

This project models the fixed-block memory pool of `main.cpp`. It has three parts.

- `MemoryPool` keeps a free list of `capacity` raw blocks of `blockSize` bytes. The blocks are obtained with `malloc` at construction. `allocate` pops the last free block, and throws `bad_alloc` when none is left. `deallocate` pushes a block back. The destructor `free`s the blocks on the free list.
- `PoolAllocator<T>` is a standard-allocator adapter over one pool. `allocate(0)` returns null. Any other `allocate(n)` takes one block. `deallocate` gives the block back. Two adapters are equal exactly when they refer to the same pool.
- `make_unique_pool` (and `PoolManager::create`, which forwards to it) takes a block, constructs a value in it, and returns an owning handle. The handle's deleter runs the destructor and then gives the same block back.

Files and modules:

- `freelist.dfy`, module `FreeList`: the pool's state as a value. It holds the free list and the set of checked-out blocks. It defines the pure `Allocate` and `Deallocate` steps, the pool invariant `Inv`, and `Run` over a sequence of calls. The lemmas about them are here.
- `pool.dfy`, module `Pool`: `SystemHeap` stands for `malloc`/`free` and hands out fresh abstract addresses. `MemoryPool` is a class with the free list as a `seq` field. Its methods are specified by the `FreeList` functions.
- `adapter.dfy`, module `Adapter`: the class `PoolAllocator<T>`, the pure effect of its `allocate` (`Request`), and a corrected variant (see Findings).
- `handles.dfy`, module `Handles`: the owning `Handle<T>`, its placement construction, the explicit destructor call and the deleter, `MakeUniquePool`, `PoolManager`, and a size-checked variant of `MakeUniquePool` (see Findings).
- `scenarios.dfy`, module `Scenarios`: client methods that use only the contracts above. They cover a two-block pool and the demonstration's `create<int>(42)` / `create<int>(100)`.

Blocks are abstract addresses (`nat`). The ghost set `checkedOut` records the blocks handed out and not yet returned. The ghost sequence `log` records, in order, each placement construction (`Constructed`), explicit destructor call (`Destroyed`) and return of a block (`Returned`). The source tracks neither. `blockSize` and `capacity` are `const` fields, so no operation can change them after construction.

The model follows the code in these respects:
- The destructor frees only the blocks on the free list (main.cpp:25-29), not the checked-out ones.
- A failing `malloc` is not detected (main.cpp:21), so there is no allocation-failure path.
- A throwing constructor at main.cpp:100 is not caught, so there is no block reclamation on that path.

## Model

| member | source | states |
|---|---|---|
| `FreeList.Allocate` | main.cpp:31-38 | Fails with `BadAlloc` exactly when the free list is empty, and then leaves the state unchanged. Otherwise the rest of the list followed by the returned block is the old list (LIFO pop), and the block joins the checked-out set. |
| `FreeList.Deallocate` | main.cpp:40-42 | The new free list is the old one with the block appended. Every earlier entry is unchanged. The checked-out set loses exactly that block. |
| `FreeList.NoDupCard` | main.cpp:20-22 | A free list without duplicates has as many distinct blocks as entries. |
| `FreeList.CountConserved` | main.cpp:17-42 | Under the pool invariant, free count plus checked-out count equals the number of blocks the pool was built with. |
| `FreeList.AllocatePreservesInv` | main.cpp:31-38 | `allocate` keeps the invariant: no duplicates, free and checked-out disjoint, their union the original blocks. A block it returns was free and not checked out, so it never aliases a live block. |
| `FreeList.DeallocatePreservesInv` | main.cpp:40-42 | Giving back a checked-out block keeps the invariant. |
| `FreeList.AllocateThenDeallocate` | main.cpp:31-42 | On a non-empty pool, `deallocate(allocate())` restores the free list and the checked-out set exactly. |
| `FreeList.DeallocateThenAllocate` | main.cpp:31-42 | After `deallocate(b)` of a checked-out `b`, the next `allocate` returns `b` and restores the previous state (LIFO reuse). |
| `FreeList.RunPreservesInv` | main.cpp:31-42 | Take any sequence of allocate/deallocate calls that gives back only checked-out blocks, and only once. Then the invariant holds at the end, and every block handed out is one of the pool's own. |
| `FreeList.DrainFromBack` | main.cpp:31-38 | `n` allocations from a list of at least `n` blocks return its last `n` entries from the back and leave the prefix free. |
| `FreeList.ExhaustFresh` | main.cpp:17-38 | Start from a fresh pool of `N` pairwise-distinct blocks. `N` allocations succeed with pairwise-distinct blocks, and allocation `N + 1` fails with `BadAlloc`. |
| `Pool.SystemHeap.Malloc` | main.cpp:21 | `malloc` yields an address that is not live and makes it live. |
| `Pool.SystemHeap.Free` | main.cpp:27 | `free` of a live address makes it not live. |
| `Pool.MemoryPool.constructor` | main.cpp:17-23 | The free list holds exactly `capacity` pairwise-distinct blocks, all fresh from the system allocator. Nothing is checked out. `blockSize` and `capacity` are the arguments. |
| `Pool.MemoryPool.Destroy` | main.cpp:25-29 | Frees exactly the blocks on the free list. Checked-out blocks stay live. |
| `Pool.MemoryPool.Allocate` | main.cpp:31-38 | On an empty free list, returns `BadAlloc` and changes nothing. Otherwise returns the last free block and drops it from the list. The abstract state moves by `FreeList.Allocate`, the invariant is kept, and the log is unchanged. |
| `Pool.MemoryPool.Deallocate` | main.cpp:40-42 | Appends the block to the free list and keeps every earlier entry. The state moves by `FreeList.Deallocate`, the invariant is kept, and the log gains `Returned` of that block. |
| `Adapter.Request` | main.cpp:58-65 | `allocate(0)` gives null and leaves the pool unchanged. For `n > 0` it takes exactly one block: the free list loses its last entry, which is returned. On an empty pool it fails and the pool is unchanged. |
| `Adapter.RequestIgnoresCount` | main.cpp:58-65 | Any two non-zero counts have the same effect on the pool and the same result. |
| `Adapter.RequestOverflowsBlock` | main.cpp:58-65 | As written, every request for `n > 0` elements that do not fit in one block succeeds on a non-empty pool, with a block too small for it. |
| `Adapter.TwoIntsOverflow` | main.cpp:58-65 | The concrete case: a request for two 4-byte elements from 4-byte blocks gets a single 4-byte block. |
| `Adapter.SizedRequest` | main.cpp:58-65 | Corrected request. It fails with `BadAlloc` and leaves the pool unchanged when `n` elements do not fit in a block. Otherwise it is the request as written. |
| `Adapter.SizedRequestFits` | main.cpp:58-65 | Every block the corrected request returns can hold the `n` elements asked for. |
| `Adapter.PoolAllocator.constructor` | main.cpp:53 | The adapter refers to the given pool. |
| `Adapter.PoolAllocator.Rebind` | main.cpp:55-56 | The rebinding constructor refers to the other adapter's pool, and so compares equal to it. |
| `Adapter.PoolAllocator.Allocate` | main.cpp:58-65 | The result and the pool's new state are those of `Request`. |
| `Adapter.PoolAllocator.CheckedAllocate` | main.cpp:58-65 | Corrected `allocate`. The result and new state are those of `SizedRequest`, and any block returned fits the request. |
| `Adapter.PoolAllocator.Deallocate` | main.cpp:67-69 | Gives the block back to the pool (the count is ignored). The pool state moves by `FreeList.Deallocate`, and the log gains `Returned` of that block. |
| `Adapter.AdapterEquality` | main.cpp:71-79 | `PoolAllocator.Equals` (`operator==`) holds exactly when both adapters refer to the same pool. It is reflexive, symmetric and transitive, and `PoolAllocator.NotEquals` (`operator!=`) is its negation. |
| `Handles.Handle.constructor` | main.cpp:97-103 | Placement construction and wrapping, in a block already checked out of the pool (allocation comes first, as at main.cpp:97-100): the handle owns the given block and value of the given pool and is live. The pool's free list and checked-out set are unchanged, and its log gains `Constructed` of that block. |
| `Handles.Handle.DestroyValue` | main.cpp:92 | `ptr->~T()` on a live handle whose block is still checked out. The free list and checked-out set are unchanged, and the log gains `Destroyed` of that block. |
| `Handles.Handle.Release` | main.cpp:91-94 | The deleter: the pool's log gains `Destroyed` and then `Returned` of the handle's block. The destructor call needs the block still checked out, so it cannot come after the deallocation. The block is appended to the free list and leaves the checked-out set. The handle is released and cannot be released again. |
| `Handles.MakeUniquePool` | main.cpp:88-104 | Fails with `BadAlloc` exactly when the pool is empty, constructing nothing and leaving the pool and its log unchanged. Otherwise it returns a fresh live handle holding `init`. The handle owns exactly the block popped from the back of the free list, and the log gains `Constructed` of that block. The size of `T` plays no part. |
| `Handles.PlacementOverflowsBlock` | main.cpp:97-100 | As written, a value larger than a block is placed in a block too small for it whenever the pool is not empty. |
| `Handles.VectorInIntBlock` | main.cpp:136 | The concrete case: with eight of the ten 4-byte blocks free, the 32-byte vector object is placed in the 4-byte back block. |
| `Handles.SizedPlacement` | main.cpp:97-100 | Corrected placement. It fails with `BadAlloc` and leaves the pool unchanged when the value does not fit in a block. Otherwise it is the allocation as written. |
| `Handles.SizedPlacementFits` | main.cpp:97-100 | Every block the corrected placement returns can hold the value. |
| `Handles.CheckedMakeUniquePool` | main.cpp:88-104 | Corrected `make_unique_pool`. The result and the pool's new state are those of `SizedPlacement`, and a handle it returns owns a block that holds the value. |
| `Handles.PoolManager.constructor` | main.cpp:111-113 | Builds a fresh pool with the given block size and capacity and an empty log, as the pool constructor does. |
| `Handles.PoolManager.Create` | main.cpp:115-118 | Same contract as `MakeUniquePool` on the manager's pool. |
| `Scenarios.CapacityTwo` | main.cpp:17-42 | In a pool of two blocks, two allocations are distinct and the third fails. After the first block is returned, the next allocation gives it back. |
| `Scenarios.CreateAndRelease` | main.cpp:122-133 | With ten `int`-sized blocks, `create<int>(42)` and `create<int>(100)` read 42 and 100. Releasing both restores the free list exactly. |
| `Scenarios.ReleaseThenReuse` | main.cpp:89-104 | Over a handle's life its block is constructed in, destroyed and returned, in that order. After the release, the next allocation returns that handle's block. |

## Findings

| source | as written | input that shows it | evidently intended | confidence | as-written member | corrected member |
|---|---|---|---|---|---|---|
| main.cpp:58-65 | `PoolAllocator::allocate(n)` returns one block of `blockSize` bytes for any `n > 0`. It never compares `n * sizeof(T)` with `blockSize`. | Pool built with `blockSize == sizeof(int) == 4`, `allocate(2)` for `int`: 8 bytes requested, 4 available. The demonstration's `vector<int, PoolAllocator<int>>` makes this request when it grows to two elements. | A request that does not fit in one block fails with `bad_alloc` instead of returning a block that is too small. | high (not executed) | `Adapter.Request`, `Adapter.RequestOverflowsBlock`, `Adapter.TwoIntsOverflow` | `Adapter.SizedRequest`, `Adapter.SizedRequestFits`, `Adapter.PoolAllocator.CheckedAllocate` |
| main.cpp:97-100 | `make_unique_pool<T>` places a `T` in a pool block without comparing `sizeof(T)` with `blockSize`. | `main.cpp:136` places a `vector<int, PoolAllocator<int>>` object in a pool built with `blockSize == sizeof(int) == 4` (main.cpp:122). The object holds three pointers and the adapter's pool reference, 32 bytes on a 64-bit target. | A `T` that does not fit in one block fails with `bad_alloc` and nothing is constructed, instead of being constructed past the end of its block. | high (not executed) | `Handles.MakeUniquePool`, `Handles.PlacementOverflowsBlock`, `Handles.VectorInIntBlock` | `Handles.SizedPlacement`, `Handles.SizedPlacementFits`, `Handles.CheckedMakeUniquePool` |

## Left out

- `main` (main.cpp:121-148): a demonstration that prints to the console. Its handle creation and release are mirrored in `Scenarios`, but the printing is not modelled.
- `factorial` (main.cpp:83-85): a compile-time helper unrelated to the pool.
- Raw memory: block contents and byte sizes are not modelled. `malloc` and `free` become `SystemHeap.Malloc`/`Free` on abstract addresses, and `blocks.reserve(capacity)` has no observable effect.
- Failure of `malloc` is not modelled, because the source never checks for it.
- Constructor failure inside `make_unique_pool`: the constructed value is the argument `init`. A throwing constructor is not modelled, and neither is the block leak the source would have on that path.
- The growth behaviour of `std::vector` with a `PoolAllocator` (main.cpp:136-139): those are the library's own calls. Only the adapter's `allocate`/`deallocate` are modelled.
- `unique_ptr` and `std::function`: they are modelled as a `Handle` object with a one-shot `Release`, not as the library types.
- Pool lifetime: a pool destroyed while handles are live, and use of a pool after `Destroy`, are not modelled.
- Handles.MakeUniquePool: has no size parameter, because value sizes are not modelled. The source does not compare `sizeof(T)` with `blockSize` either (see Findings). The size appears only as the `valueSize` argument of the corrected `CheckedMakeUniquePool`, and the 32-byte vector object size is a typical 64-bit figure, not derived.
- Handles.Handle.Release: the destructor step `Handles.Handle.DestroyValue` is modelled as an event that leaves the pool's blocks alone. That is false for the demonstration's `vector<int, PoolAllocator<int>>` (main.cpp:136): its destructor (main.cpp:92) first gives its element buffer back through `PoolAllocator::deallocate` (main.cpp:67-69), so the pool gains that block too. The contract's one-block gain holds only for a `T` whose destructor does not touch the pool.
- `size_t` arithmetic: counts and sizes are unbounded `nat`s. The wrap-around of `n * sizeof(T)` is not modelled.
- Pool.MemoryPool.Deallocate: requires the block to be checked out from this pool. The source accepts any pointer without checking. Being given a foreign or already returned block is undefined behaviour that the model does not represent.
- Adapter.PoolAllocator.Deallocate: requires a non-null pointer that this adapter's pool handed out. As written, `deallocate(nullptr, 0)` after `allocate(0)` would push a null pointer onto the free list. The model's free list holds only block addresses, so it cannot represent that.

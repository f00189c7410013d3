# QPA pool allocator — a verified Dafny model

QPA's `PoolAllocator<TChunk, TChunkCount, Growable>` hands out fixed-size
chunks carved from blocks of `TChunkCount` chunks each. It keeps two
`LinkedList` stacks: the blocks it owns and the addresses of the chunks that
are currently free. `Allocate` pops the free list, growing the pool by one
block when it is empty and the pool is growable; `Deallocate` pushes an
address back; `Reserve` grows block by block until the capacity reaches a
request; a block whose storage cannot be acquired is rolled back and reported
as a `BadAllocation`.

The project has three modules:

- `LinkedLists` (`linked_list.dfy`): the singly linked list as a class whose
  node chain is a `seq` (`contents`, head first) beside the node counter
  `mySize`, with the invariant `mySize == |contents|`.
- `PoolModel` (`pool_model.dfy`): the allocator state as a value
  (`Pool(blocks, free)`), one function per operation giving its effect, the
  invariant `WellFormed`, and the lemmas that state what the allocator
  promises.
- `PoolAllocators` (`pool_allocator.dfy`): the allocator as a class with the
  two lists as fields, each method proved to have exactly the effect the
  matching `PoolModel` function gives, so the `PoolModel` lemmas hold of it.

Modelling choices:

- Raw memory is abstract. A block's storage is identified by the number of
  blocks the pool owned when it was acquired; a chunk address is
  `Chunk(block, index)`. Distinct blocks therefore never share addresses, as
  distinct `malloc` results do not.
- `malloc` is an oracle: `AllocateBlock` and `Allocate` take `mallocOk: bool`;
  `Reserve` and the sized constructor take `mallocOk: nat -> bool`, the
  outcome of the request made while the pool owns that many blocks.
- `throw BadAllocation(...)` is `Err(OutOfMemory)` (block storage not acquired)
  or `Err(PoolExhausted)` (fixed pool with nothing free). A C++ constructor that
  throws yields no object, so the two constructors are the static methods
  `Create` and `CreateReserved` returning `Result<PoolAllocator>`.
- `TChunk*` arguments are `Option<Chunk>`, with `None` for null.
- `TChunkCount` is required to be positive; the source does not check it.
  With zero, `Reserve(n)` for `n > 0` keeps adding empty blocks until a
  storage request fails (`malloc(0)` may return null on the first one), and
  `Allocate` after growing reads the front of an empty list.
- `Deallocate` and `Destroy` require their non-null argument to be a chunk
  of this pool that is currently handed out (the comment at
  `QPA/Source/QPA/PoolAllocator.hpp:47-50` calls it memory allocated by this
  allocator). This keeps the free list free of duplicates, which is what makes
  `Size() <= Capacity()` and "an address is never handed out twice" provable.
- `IsGrowable` returns the `Growable` flag; the contract of `Allocate`
  states its effect through it.

The model follows the code: `AllocateBlock` registers the block before
checking the storage request and pops it on failure, and `Reserve` ignores
`Growable`.

## Model

| member | source | states |
|---|---|---|
| `LinkedLists.LinkedList.constructor` | QPA/Source/QPA/LinkedList.hpp:56-82 | a default-constructed list has no nodes and size zero |
| `LinkedLists.LinkedList.FromList` | QPA/Source/QPA/LinkedList.hpp:86-92 | pushing the items to the front from last to first leaves the list equal to the items in their given order |
| `LinkedLists.LinkedList.Front` | QPA/Source/QPA/LinkedList.hpp:101-105 | requires a non-empty list (the source asserts it) and returns the head's data, the most recently pushed element still present |
| `LinkedLists.LinkedList.FrontThenPop` | QPA/Source/QPA/LinkedList.hpp:114-119 | returns what Front returns and leaves exactly the tail of the list |
| `LinkedLists.LinkedList.PushFront` | QPA/Source/QPA/LinkedList.hpp:122-125 | the new element is the front, the previous elements follow unchanged, the size grows by one |
| `LinkedLists.LinkedList.PopFront` | QPA/Source/QPA/LinkedList.hpp:128-137 | removes exactly the front element of a non-empty list and leaves an empty list alone; the counter stays equal to the length |
| `LinkedLists.LinkedList.EmplaceFront` | QPA/Source/QPA/LinkedList.hpp:141-147 | the new head holds the value, the old nodes follow, the counter grows by one |
| `LinkedLists.LinkedList.Empty` | QPA/Source/QPA/LinkedList.hpp:162-165 | the counter test holds exactly when the list has no nodes |
| `LinkedLists.LinkedList.Size` | QPA/Source/QPA/LinkedList.hpp:191-194 | the counter equals the number of nodes |
| `LinkedLists.LinkedList.Reverse` | QPA/Source/QPA/LinkedList.hpp:176-188 | relinking the nodes yields the reversed element sequence and leaves the size unchanged |
| `LinkedLists.ReversedAt` | QPA/Source/QPA/LinkedList.hpp:176-188 | reversal keeps the length and puts element k at position length-1-k |
| `LinkedLists.ReversedTwice` | QPA/Source/QPA/LinkedList.hpp:176-188 | reversing twice restores the original order |
| `LinkedLists.LinkedList.ForwardValues` | QPA/Source/QPA/LinkedList.hpp:42-79 | iteration from begin() following next links visits the elements front to back |
| `LinkedLists.PushThenFrontThenPop` | QPA/Source/QPA/LinkedList.hpp:114-125 | pushing x then FrontThenPop returns x and restores the original list |
| `LinkedLists.InitializerListOrder` | TestProject/main.cpp:7-12 | the list built from {1, ..., 8} is iterated as 1, ..., 8 |
| `PoolModel.PushedChunksShape` | QPA/Source/QPA/PoolAllocator.hpp:186-189 | pushing chunks 0 .. k-1 of a block in ascending order leaves exactly k addresses on the list, highest index at the front |
| `PoolModel.PushedChunksMembers` | QPA/Source/QPA/PoolAllocator.hpp:186-189 | the pushed addresses are exactly the chunks of that block, each once |
| `PoolModel.SizeWithinCapacity` | QPA/Source/QPA/PoolAllocator.hpp:160-170 | in a well-formed pool the number of free chunks never exceeds chunks per block times blocks |
| `PoolModel.AllocateBlockEffect` | QPA/Source/QPA/PoolAllocator.hpp:179-196 | success adds one block and TChunkCount free addresses (capacity and size grow by TChunkCount), the highest-index chunk of the new block at the front and the old free list behind, unchanged; failure reports OutOfMemory and leaves the pool exactly as before |
| `PoolModel.AllocateBlockPreserves` | QPA/Source/QPA/PoolAllocator.hpp:179-196 | growing keeps the invariant: blocks newest first, free addresses owned and distinct |
| `PoolModel.AllocateReuses` | QPA/Source/QPA/PoolAllocator.hpp:124-139 | with free chunks, Allocate returns the front address and removes it; Size drops by one and the blocks, hence Capacity, are unchanged |
| `PoolModel.AllocateWhenEmpty` | QPA/Source/QPA/PoolAllocator.hpp:126-138 | with nothing free: a fixed pool reports PoolExhausted and a failed growth reports OutOfMemory, both changing nothing; a successful growth adds exactly one block, returns its highest chunk and leaves Size at TChunkCount-1 |
| `PoolModel.AllocateIssuesOutstanding` | QPA/Source/QPA/PoolAllocator.hpp:124-139 | Allocate keeps the invariant; the address it returns was not handed out before the call, and afterwards lies in an owned block and is no longer on the free list, so an address is never handed out twice while live |
| `PoolModel.DeallocatePreserves` | QPA/Source/QPA/PoolAllocator.hpp:142-149 | deallocating a handed-out chunk keeps the invariant and grows Size by one; a null pointer changes nothing |
| `PoolModel.DeallocateThenAllocate` | QPA/Source/QPA/PoolAllocator.hpp:124-149 | freed chunks are reused last-in first-out: Allocate right after Deallocate(c) returns c and restores the pool |
| `PoolModel.ReserveNeverShrinks` | QPA/Source/QPA/PoolAllocator.hpp:152-158 | Reserve only puts new blocks and free addresses in front of the existing ones, which stay unchanged |
| `PoolModel.ReserveReaches` | QPA/Source/QPA/PoolAllocator.hpp:152-158 | a successful Reserve(n) ends with capacity at least n and, when it grew, one block less would be below n; a failed one reports OutOfMemory with capacity still below n |
| `PoolModel.ReserveIdempotent` | QPA/Source/QPA/PoolAllocator.hpp:152-158 | after a successful Reserve(n), Reserve(m) with m <= n adds no block and changes nothing |
| `PoolModel.ReservePreserves` | QPA/Source/QPA/PoolAllocator.hpp:152-158 | Reserve keeps the pool invariant, whatever the storage requests return |
| `PoolModel.ReserveAllSucceed` | QPA/Source/QPA/PoolAllocator.hpp:152-158 | when every storage request succeeds Reserve succeeds and every chunk of every block it adds is on the free list, and the free count grows by exactly the capacity added |
| `PoolModel.ReserveFromEmpty` | QPA/Source/QPA/PoolAllocator.hpp:87-91 | the sized constructor, with storage available, ends at the smallest multiple of TChunkCount reaching the request, all of it free |
| `PoolModel.DefaultConstructed` | QPA/Source/QPA/PoolAllocator.hpp:81-85 | the default constructor succeeds exactly when storage is acquired, and then owns one block with Size() == Capacity() == TChunkCount |
| `PoolAllocators.PoolAllocator.Init` | QPA/Source/QPA/PoolAllocator.hpp:74-75 | the member initialisers give an empty block list and an empty free list |
| `PoolAllocators.PoolAllocator.Create` | QPA/Source/QPA/PoolAllocator.hpp:81-85 | the default constructor is one AllocateBlock on an empty pool; it fails only with OutOfMemory |
| `PoolAllocators.PoolAllocator.CreateReserved` | QPA/Source/QPA/PoolAllocator.hpp:87-91 | the sized constructor is exactly Reserve(startChunkCount) on an empty pool |
| `PoolAllocators.PoolAllocator.AllocateBlock` | QPA/Source/QPA/PoolAllocator.hpp:178-196 | the new block list and free list are those of PoolModel.AllocateBlock: chunks pushed in ascending index order after the block is registered, or the block popped again on failure |
| `PoolAllocators.PoolAllocator.Allocate` | QPA/Source/QPA/PoolAllocator.hpp:123-139 | the result and new state are those of PoolModel.Allocate and the returned chunk is owned and no longer free; with nothing free, a pool that is not growable reports PoolExhausted and changes nothing, and a growable one adds exactly one block or reports OutOfMemory |
| `PoolAllocators.PoolAllocator.IsGrowable` | QPA/Source/QPA/PoolAllocator.hpp:172-176 | returns the Growable flag, which decides in Allocate between growing and PoolExhausted |
| `PoolAllocators.PoolAllocator.Construct` | QPA/Source/QPA/PoolAllocator.hpp:102-109 | the chunk it uses and the new state are those of Allocate |
| `PoolAllocators.PoolAllocator.Deallocate` | QPA/Source/QPA/PoolAllocator.hpp:141-149 | a non-null chunk is pushed to the front of the free list, a null one changes nothing, the blocks never change |
| `PoolAllocators.PoolAllocator.Destroy` | QPA/Source/QPA/PoolAllocator.hpp:111-121 | the free-list effect is that of Deallocate; null changes nothing |
| `PoolAllocators.PoolAllocator.Reserve` | QPA/Source/QPA/PoolAllocator.hpp:151-158 | the loop ends in the result and state of PoolModel.Reserve, growing whether or not the pool is growable |
| `PoolAllocators.PoolAllocator.Size` | QPA/Source/QPA/PoolAllocator.hpp:160-164 | the number of free chunks, never more than the capacity |
| `PoolAllocators.PoolAllocator.Capacity` | QPA/Source/QPA/PoolAllocator.hpp:166-170 | TChunkCount times the number of owned blocks, a multiple of TChunkCount |
| `PoolAllocators.FixedPoolOfFour` | QPA/Source/QPA/PoolAllocator.hpp:123-149 | in a fixed pool of four chunks four allocations return distinct chunks, the fifth reports PoolExhausted with Size() == 0 and Capacity() == 4, and after one deallocation Size() == 1 and the next allocation returns the freed chunk |
| `PoolAllocators.GrowablePoolOfTwo` | QPA/Source/QPA/PoolAllocator.hpp:123-139 | a growable pool of two chunks per block starts with Capacity() == Size() == 2 and after three distinct allocations has Capacity() == 4 |

## Left out

- Raw memory: the byte size of a block, `sizeof(TChunk)` and the pointer arithmetic `&block.Chunks[chunkIndex]` are replaced by abstract `Chunk(block, index)` addresses; `malloc` is an oracle parameter.
- `~PoolAllocator`, which frees every block's storage: releasing memory is outside the model.
- Placement `new` in `Construct` and the explicit destructor call in `Destroy`: only their free-list effect is modelled; what happens to the chunk when the object's constructor throws is not modelled.
- The message text of `BadAllocation`: only the two causes are kept, as `OutOfMemory` and `PoolExhausted`.
- `LinkedList::Clear` and `~LinkedList`: node deletion is memory management; `Clear` also leaves the head and counter stale, so no property of it is stated.
- `LinkedList::Swap`: it swaps heads but not counters and is unused by the allocator.
- The const overload of `LinkedList::Front`, which calls itself; the non-const `Front` is modelled.
- The reference returned by `EmplaceFront`, through which `AllocateBlock` writes the block's storage pointer after registering it: the model registers the block with its storage already decided, which gives the same states because a failed block is popped again.
- The iterator's category typedefs and node pointer identity: only the visiting order is modelled.
- Node allocation inside the list: every push (`EmplaceFront`, and through it `AllocateBlock`'s chunk loop and `Deallocate`) is assumed to succeed. In the source, `new Node` can throw; if that happens inside `AllocateBlock`'s loop the block stays registered with only part of its chunks free, and the source's rollback does not cover that failure. The all-or-nothing result of `AllocateBlock` covers only the block storage request.
- `u64` arithmetic: sizes and capacities are unbounded `nat`, so overflow of `TChunkCount * myBlocks.Size()` is not modelled.
- Thread safety: the source has none and needs none.

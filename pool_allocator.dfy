/** The pool allocator: a list of owned blocks and a list of free chunk
    addresses, both LinkedList stacks updated in place. Every operation is
    proved to have exactly the effect PoolModel gives it, so the lemmas of
    PoolModel are facts about this class. */
module PoolAllocators {
  import opened LinkedLists
  import opened PoolModel

  class PoolAllocator {
    /** Chunks per block (TChunkCount). */
    const chunkCount: nat
    /** Whether Allocate may grow the pool (Growable). */
    const growable: bool
    const myBlocks: LinkedList<Block>
    const myFreeChunks: LinkedList<Chunk>

    /** The allocator's state as a PoolModel value. */
    ghost function State(): Pool
      reads this, myBlocks, myFreeChunks
    {
      Pool(myBlocks.contents, myFreeChunks.contents)
    }

    ghost predicate Valid()
      reads this, myBlocks, myFreeChunks
    {
      myBlocks.Valid() && myFreeChunks.Valid() && WellFormed(State(), chunkCount)
    }

    /** The member initialisers: two empty lists, before any constructor
        body runs. */
    constructor Init(chunkCount: nat, growable: bool)
      requires chunkCount > 0
      ensures Valid() && State() == EmptyPool
      ensures this.chunkCount == chunkCount && this.growable == growable
      ensures fresh(myBlocks) && fresh(myFreeChunks)
    {
      this.chunkCount := chunkCount;
      this.growable := growable;
      myBlocks := new LinkedList<Block>();
      myFreeChunks := new LinkedList<Chunk>();
    }

    /** The default constructor: acquires one block, or fails with
        OutOfMemory, in which case no allocator exists. */
    static method Create(chunkCount: nat, growable: bool, mallocOk: bool) returns (r: Result<PoolAllocator>)
      requires chunkCount > 0
      ensures r.Ok? <==> PoolModel.AllocateBlock(EmptyPool, chunkCount, mallocOk).0.Ok?
      ensures r.Err? ==> r.error == OutOfMemory
      ensures r.Ok? ==> var pool := r.value;
        && fresh(pool) && fresh(pool.myBlocks) && fresh(pool.myFreeChunks)
        && pool.Valid() && pool.chunkCount == chunkCount && pool.growable == growable
        && pool.State() == PoolModel.AllocateBlock(EmptyPool, chunkCount, mallocOk).1
    {
      var pool := new PoolAllocator.Init(chunkCount, growable);
      var grown := pool.AllocateBlock(mallocOk);
      if grown.Err? {
        return Err(grown.error);
      }
      r := Ok(pool);
    }

    /** The sized constructor: Reserve(startChunkCount) on an empty pool. */
    static method CreateReserved(chunkCount: nat, growable: bool, startChunkCount: nat, mallocOk: nat -> bool)
      returns (r: Result<PoolAllocator>)
      requires chunkCount > 0
      ensures r.Ok? <==> PoolModel.Reserve(EmptyPool, chunkCount, startChunkCount, mallocOk).0.Ok?
      ensures r.Err? ==> r.error == OutOfMemory
      ensures r.Ok? ==> var pool := r.value;
        && fresh(pool) && fresh(pool.myBlocks) && fresh(pool.myFreeChunks)
        && pool.Valid() && pool.chunkCount == chunkCount && pool.growable == growable
        && pool.State() == PoolModel.Reserve(EmptyPool, chunkCount, startChunkCount, mallocOk).1
    {
      var pool := new PoolAllocator.Init(chunkCount, growable);
      ReserveReaches(EmptyPool, chunkCount, startChunkCount, mallocOk);
      var reserved := pool.Reserve(startChunkCount, mallocOk);
      if reserved.Err? {
        return Err(reserved.error);
      }
      r := Ok(pool);
    }

    /** Registers a block, asks for its storage, and either pushes the
        addresses of its chunks in ascending index order or pops the block
        again and reports OutOfMemory. Private in the allocator. */
    method AllocateBlock(mallocOk: bool) returns (r: Result<()>)
      requires Valid()
      modifies myBlocks, myFreeChunks
      ensures Valid()
      ensures (r, State()) == PoolModel.AllocateBlock(old(State()), chunkCount, mallocOk)
    {
      AllocateBlockPreserves(State(), chunkCount, mallocOk);
      var storage := if mallocOk then Some(myBlocks.Size()) else None;
      myBlocks.EmplaceFront(Block(storage));
      if storage.Some? {
        for chunkIndex := 0 to chunkCount
          invariant myBlocks.Valid() && myFreeChunks.Valid()
          invariant myBlocks.contents == [Block(storage)] + old(myBlocks.contents)
          invariant myFreeChunks.contents == PushedChunks(storage.value, chunkIndex) + old(myFreeChunks.contents)
        {
          myFreeChunks.EmplaceFront(Chunk(storage.value, chunkIndex));
        }
        r := Ok(());
      } else {
        myBlocks.PopFront();
        r := Err(OutOfMemory);
      }
    }

    /** Hands out the front free address; when there is none, grows the
        pool by one block if it is growable and reports PoolExhausted if it
        is not. The address handed out is no longer free. */
    method Allocate(mallocOk: bool) returns (r: Result<Chunk>)
      requires Valid()
      modifies myBlocks, myFreeChunks
      ensures Valid()
      ensures (r, State()) == PoolModel.Allocate(old(State()), chunkCount, growable, mallocOk)
      ensures r.Ok? ==> Outstanding(State(), chunkCount, r.value)
      ensures old(myFreeChunks.contents) == [] && !IsGrowable() ==>
        r == Err(PoolExhausted) && State() == old(State())
      ensures old(myFreeChunks.contents) == [] && IsGrowable() ==>
        if mallocOk then |State().blocks| == old(|State().blocks|) + 1
        else r == Err(OutOfMemory) && State() == old(State())
    {
      AllocateIssuesOutstanding(State(), chunkCount, growable, mallocOk);
      if myFreeChunks.Empty() {
        AllocateWhenEmpty(State(), chunkCount, growable, mallocOk);
      }
      if myFreeChunks.Empty() {
        if growable {
          AllocateBlockEffect(State(), chunkCount, mallocOk);
          var grown := AllocateBlock(mallocOk);
          if grown.Err? {
            return Err(grown.error);
          }
        } else {
          return Err(PoolExhausted);
        }
      }
      var chunk := myFreeChunks.FrontThenPop();
      r := Ok(chunk);
    }

    /** Allocate, then construct the object in the chunk; the object's
        construction is not part of this model. */
    method Construct(mallocOk: bool) returns (r: Result<Chunk>)
      requires Valid()
      modifies myBlocks, myFreeChunks
      ensures Valid()
      ensures (r, State()) == PoolModel.Allocate(old(State()), chunkCount, growable, mallocOk)
      ensures r.Ok? ==> Outstanding(State(), chunkCount, r.value)
    {
      r := Allocate(mallocOk);
    }

    /** Makes a handed-out chunk free again by pushing it to the front of
        the free list; a null pointer is ignored. */
    method Deallocate(ptr: Option<Chunk>)
      requires Valid()
      requires ptr.Some? ==> Outstanding(State(), chunkCount, ptr.value)
      modifies myFreeChunks
      ensures Valid()
      ensures State() == PoolModel.Deallocate(old(State()), ptr)
    {
      DeallocatePreserves(State(), chunkCount, ptr);
      if ptr.Some? {
        myFreeChunks.EmplaceFront(ptr.value);
      }
    }

    /** Destroys the object in a handed-out chunk and deallocates the chunk;
        a null pointer is ignored. Only the free-list effect is modelled. */
    method Destroy(ptr: Option<Chunk>)
      requires Valid()
      requires ptr.Some? ==> Outstanding(State(), chunkCount, ptr.value)
      modifies myFreeChunks
      ensures Valid()
      ensures State() == PoolModel.Deallocate(old(State()), ptr)
    {
      if ptr.None? {
        return;
      }
      Deallocate(ptr);
    }

    /** Grows the pool block by block until its capacity reaches `n`,
        whether or not the pool is growable. */
    method Reserve(n: nat, mallocOk: nat -> bool) returns (r: Result<()>)
      requires Valid()
      modifies myBlocks, myFreeChunks
      ensures Valid()
      ensures (r, State()) == PoolModel.Reserve(old(State()), chunkCount, n, mallocOk)
    {
      r := Ok(());
      while Capacity() < n
        invariant Valid()
        invariant PoolModel.Reserve(State(), chunkCount, n, mallocOk)
               == PoolModel.Reserve(old(State()), chunkCount, n, mallocOk)
        decreases n - Capacity()
      {
        AllocateBlockEffect(State(), chunkCount, mallocOk(myBlocks.Size()));
        var grown := AllocateBlock(mallocOk(myBlocks.Size()));
        if grown.Err? {
          return grown;
        }
      }
    }

    /** The number of free chunks, never more than the capacity. */
    function Size(): (n: nat)
      reads this, myBlocks, myFreeChunks
      requires Valid()
      ensures n == |State().free|
      ensures n <= PoolModel.Capacity(State(), chunkCount)
    {
      SizeWithinCapacity(State(), chunkCount);
      myFreeChunks.Size()
    }

    /** Chunks per block times the number of owned blocks. */
    function Capacity(): (c: nat)
      reads this, myBlocks, myFreeChunks
      requires Valid()
      ensures c == chunkCount * |State().blocks|
    {
      chunkCount * myBlocks.Size()
    }

    /** Whether Allocate grows the pool when nothing is free. */
    function IsGrowable(): (g: bool)
      reads this
      ensures g <==> growable
    {
      growable
    }
  }

  /** A fixed pool of four chunks whose storage request succeeds: four
      Allocate calls hand out four different chunks, the fifth reports
      PoolExhausted with nothing free, and after one chunk is deallocated the
      next Allocate hands out that same chunk again. */
  method FixedPoolOfFour()
    returns (issued: seq<Chunk>, fifth: Result<Chunk>, sizeAfterFifth: nat, capacityAfterFifth: nat,
             sizeAfterFree: nat, reused: Result<Chunk>)
    ensures |issued| == 4 && Distinct(issued)
    ensures fifth == Err(PoolExhausted) && sizeAfterFifth == 0 && capacityAfterFifth == 4
    ensures sizeAfterFree == 1 && reused == Ok(issued[1])
  {
    DefaultConstructed(4, true);
    AllocateBlockEffect(EmptyPool, 4, true);
    var created := PoolAllocator.Create(4, false, true);
    var pool := created.value;
    assert pool.State().free == [Chunk(0, 3), Chunk(0, 2), Chunk(0, 1), Chunk(0, 0)];
    var a := pool.Allocate(true);
    assert a == Ok(Chunk(0, 3)) && pool.State().free == [Chunk(0, 2), Chunk(0, 1), Chunk(0, 0)];
    var b := pool.Allocate(true);
    assert b == Ok(Chunk(0, 2)) && pool.State().free == [Chunk(0, 1), Chunk(0, 0)];
    var c := pool.Allocate(true);
    assert c == Ok(Chunk(0, 1)) && pool.State().free == [Chunk(0, 0)];
    var d := pool.Allocate(true);
    assert d == Ok(Chunk(0, 0)) && pool.State().free == [];
    issued := [a.value, b.value, c.value, d.value];
    fifth := pool.Allocate(true);
    sizeAfterFifth, capacityAfterFifth := pool.Size(), pool.Capacity();
    pool.Deallocate(Some(b.value));
    sizeAfterFree := pool.Size();
    reused := pool.Allocate(true);
  }

  /** A growable pool of two chunks per block: after three Allocate calls
      a second block has been grown and the capacity is four. */
  method GrowablePoolOfTwo() returns (capacityBefore: nat, sizeBefore: nat, issued: seq<Chunk>, capacityAfter: nat)
    ensures capacityBefore == 2 && sizeBefore == 2
    ensures |issued| == 3 && Distinct(issued)
    ensures capacityAfter == 4
  {
    DefaultConstructed(2, true);
    AllocateBlockEffect(EmptyPool, 2, true);
    var created := PoolAllocator.Create(2, true, true);
    var pool := created.value;
    capacityBefore, sizeBefore := pool.Capacity(), pool.Size();
    var a := pool.Allocate(true);
    var b := pool.Allocate(true);
    AllocateWhenEmpty(pool.State(), 2, true, true);
    var c := pool.Allocate(true);
    issued := [a.value, b.value, c.value];
    capacityAfter := pool.Capacity();
  }
}

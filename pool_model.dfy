/** The state of a pool allocator as a value, and the effect of each of its
    operations on that state. Raw memory is abstract: a block is known by
    the number of blocks the pool owned when its storage was acquired, and a
    chunk address is the pair (block, index of the chunk inside it). */
module PoolModel {

  datatype Option<T> = None | Some(value: T)

  /** The two causes of a BadAllocation exception. */
  datatype AllocError =
    | OutOfMemory    // the storage for a new block could not be acquired
    | PoolExhausted  // no free chunk left in a pool that may not grow

  datatype Result<T> = Ok(value: T) | Err(error: AllocError)

  /** The address of chunk `index` inside the storage of block `block`. */
  datatype Chunk = Chunk(block: nat, index: nat)

  /** An owned block; `chunks` is its storage, `None` while it is null. */
  datatype Block = Block(chunks: Option<nat>)

  /** The block list and the free-chunk list, each front element first. */
  datatype Pool = Pool(blocks: seq<Block>, free: seq<Chunk>)

  const EmptyPool := Pool([], [])

  function Capacity(p: Pool, chunkCount: nat): (r: nat)
  {
    chunkCount * |p.blocks|
  }

  function Size(p: Pool): (r: nat)
  {
    |p.free|
  }

  /** `c` lies in the storage of one of the first `blockCount` blocks. */
  predicate Owned(c: Chunk, blockCount: nat, chunkCount: nat)
  {
    c.block < blockCount && c.index < chunkCount
  }

  ghost predicate Distinct<T>(s: seq<T>)
  {
    forall i, j :: 0 <= i < j < |s| ==> s[i] != s[j]
  }

  /** The pool invariant: blocks are stacked newest first, each with
      storage; every free address lies in an owned block, at most once. */
  ghost predicate WellFormed(p: Pool, chunkCount: nat)
  {
    && chunkCount > 0
    && (forall i :: 0 <= i < |p.blocks| ==> p.blocks[i] == Block(Some(|p.blocks| - 1 - i)))
    && (forall c :: c in p.free ==> Owned(c, |p.blocks|, chunkCount))
    && Distinct(p.free)
  }

  /** A chunk of the pool that is handed out, i.e. not on the free list. */
  ghost predicate Outstanding(p: Pool, chunkCount: nat, c: Chunk)
  {
    Owned(c, |p.blocks|, chunkCount) && c !in p.free
  }

  /** The free list after pushing the addresses of chunks 0, ..., k - 1 of
      `block` to its front in that order: highest index first. */
  function PushedChunks(block: nat, k: nat): (r: seq<Chunk>)
  {
    if k == 0 then [] else [Chunk(block, k - 1)] + PushedChunks(block, k - 1)
  }

  /** AllocateBlock: register a block, then either push all of its chunks
      or, when the storage request fails, pop the block again. */
  function AllocateBlock(p: Pool, chunkCount: nat, mallocOk: bool): (r: (Result<()>, Pool))
  {
    var storage := if mallocOk then Some(|p.blocks|) else None;
    var registered := [Block(storage)] + p.blocks;
    if storage.Some? then
      (Ok(()), Pool(registered, PushedChunks(storage.value, chunkCount) + p.free))
    else
      (Err(OutOfMemory), Pool(registered[1..], p.free))
  }

  /** Allocate: grow when the free list is empty and the pool may grow,
      fail when it may not; then pop the front free address. */
  function Allocate(p: Pool, chunkCount: nat, growable: bool, mallocOk: bool): (r: (Result<Chunk>, Pool))
    requires chunkCount > 0
  {
    if p.free != [] then
      (Ok(p.free[0]), Pool(p.blocks, p.free[1..]))
    else if !growable then
      (Err(PoolExhausted), p)
    else
      var (grown, q) := AllocateBlock(p, chunkCount, mallocOk);
      if grown.Err? then (Err(grown.error), q)
      else
        PushedChunksShape(|p.blocks|, chunkCount);
        (Ok(q.free[0]), Pool(q.blocks, q.free[1..]))
  }

  /** Deallocate: a null pointer changes nothing, any other address is
      pushed to the front of the free list. */
  function Deallocate(p: Pool, ptr: Option<Chunk>): (r: Pool)
  {
    if ptr.Some? then Pool(p.blocks, [ptr.value] + p.free) else p
  }

  /** Reserve: grow block by block while the capacity is below `n`; the
      first failed block acquisition ends it. `mallocOk(k)` is whether the
      storage request made while the pool owns `k` blocks succeeds. */
  function Reserve(p: Pool, chunkCount: nat, n: nat, mallocOk: nat -> bool): (r: (Result<()>, Pool))
    requires chunkCount > 0
    decreases n - Capacity(p, chunkCount)
  {
    if Capacity(p, chunkCount) >= n then (Ok(()), p)
    else
      var (grown, q) := AllocateBlock(p, chunkCount, mallocOk(|p.blocks|));
      if grown.Err? then (grown, q)
      else
        assert Capacity(q, chunkCount) == Capacity(p, chunkCount) + chunkCount;
        Reserve(q, chunkCount, n, mallocOk)
  }

  // ---------------------------------------------------------------------
  // Chunk addresses of a fresh block

  /** The pushed addresses are exactly chunks 0 .. k - 1 of the block, the
      highest index at the front. */
  lemma {:induction false} PushedChunksShape(block: nat, k: nat)
    ensures |PushedChunks(block, k)| == k
    ensures forall i :: 0 <= i < k ==> PushedChunks(block, k)[i] == Chunk(block, k - 1 - i)
  {
    if k > 0 {
      PushedChunksShape(block, k - 1);
    }
  }

  lemma PushedChunksMembers(block: nat, k: nat)
    ensures forall c :: c in PushedChunks(block, k) <==> c.block == block && c.index < k
    ensures Distinct(PushedChunks(block, k))
  {
    PushedChunksShape(block, k);
    var s := PushedChunks(block, k);
    forall c: Chunk | c.block == block && c.index < k ensures c in s {
      assert s[k - 1 - c.index] == c;
    }
  }

  // ---------------------------------------------------------------------
  // Size never exceeds capacity

  /** The addresses of chunks 0 .. k - 1 of `block`. */
  ghost function Row(block: nat, k: nat): set<Chunk>
  {
    if k == 0 then {} else Row(block, k - 1) + {Chunk(block, k - 1)}
  }

  /** The addresses of all chunks of the first `n` blocks. */
  ghost function Rows(n: nat, chunkCount: nat): set<Chunk>
  {
    if n == 0 then {} else Rows(n - 1, chunkCount) + Row(n - 1, chunkCount)
  }

  lemma {:induction false} RowCount(block: nat, k: nat)
    ensures |Row(block, k)| == k
    ensures forall c :: c in Row(block, k) <==> c.block == block && c.index < k
  {
    if k > 0 {
      RowCount(block, k - 1);
    }
  }

  lemma {:induction false} RowsCount(n: nat, chunkCount: nat)
    ensures |Rows(n, chunkCount)| == n * chunkCount
    ensures forall c :: c in Rows(n, chunkCount) <==> Owned(c, n, chunkCount)
  {
    if n > 0 {
      RowsCount(n - 1, chunkCount);
      RowCount(n - 1, chunkCount);
      assert Rows(n - 1, chunkCount) * Row(n - 1, chunkCount) == {};
      assert n * chunkCount == (n - 1) * chunkCount + chunkCount;
    }
  }

  /** A sequence without repetitions has as many elements as its set. */
  lemma {:induction false} DistinctCount<T>(s: seq<T>)
    requires Distinct(s)
    ensures |set x | x in s| == |s|
  {
    if s != [] {
      var rest := s[1..];
      DistinctCount(rest);
      assert (set x | x in s) == {s[0]} + (set x | x in rest);
      forall j | 0 <= j < |rest| ensures rest[j] != s[0] {
        assert rest[j] == s[j + 1];
      }
    }
  }

  /** The number of free chunks never exceeds the capacity. */
  lemma SizeWithinCapacity(p: Pool, chunkCount: nat)
    requires WellFormed(p, chunkCount)
    ensures Size(p) <= Capacity(p, chunkCount)
  {
    var freeSet := set x | x in p.free;
    var all := Rows(|p.blocks|, chunkCount);
    RowsCount(|p.blocks|, chunkCount);
    DistinctCount(p.free);
    assert freeSet <= all;
    assert all == freeSet + (all - freeSet);
  }

  // ---------------------------------------------------------------------
  // AllocateBlock

  /** A successful AllocateBlock adds one block and `chunkCount` free
      addresses, the highest index of the new block at the front and the
      earlier free addresses behind them unchanged; a failed one rolls back
      to exactly the state before the call and reports OutOfMemory. */
  lemma AllocateBlockEffect(p: Pool, chunkCount: nat, mallocOk: bool)
    requires chunkCount > 0
    ensures var (r, q) := AllocateBlock(p, chunkCount, mallocOk);
      && (mallocOk ==>
            && r == Ok(())
            && |q.blocks| == |p.blocks| + 1 && q.blocks[1..] == p.blocks
            && Capacity(q, chunkCount) == Capacity(p, chunkCount) + chunkCount
            && Size(q) == Size(p) + chunkCount
            && q.free[0] == Chunk(|p.blocks|, chunkCount - 1)
            && q.free[chunkCount..] == p.free
            && (forall i :: 0 <= i < chunkCount ==> q.free[i] == Chunk(|p.blocks|, chunkCount - 1 - i)))
      && (!mallocOk ==> r == Err(OutOfMemory) && q == p)
  {
    PushedChunksShape(|p.blocks|, chunkCount);
  }

  lemma AllocateBlockPreserves(p: Pool, chunkCount: nat, mallocOk: bool)
    requires WellFormed(p, chunkCount)
    ensures WellFormed(AllocateBlock(p, chunkCount, mallocOk).1, chunkCount)
  {
    var q := AllocateBlock(p, chunkCount, mallocOk).1;
    if mallocOk {
      var added := PushedChunks(|p.blocks|, chunkCount);
      PushedChunksMembers(|p.blocks|, chunkCount);
      PushedChunksShape(|p.blocks|, chunkCount);
      assert q.free == added + p.free;
      forall i, j | 0 <= i < j < |q.free| ensures q.free[i] != q.free[j] {
        if j < |added| {
        } else if i < |added| {
          assert q.free[j] in p.free;
        } else {
          assert q.free[i] == p.free[i - |added|];
        }
      }
    }
  }

  // ---------------------------------------------------------------------
  // Allocate

  /** With free chunks, Allocate hands out the front one and removes it:
      Size drops by one, the blocks and so the capacity stay the same. */
  lemma AllocateReuses(p: Pool, chunkCount: nat, growable: bool, mallocOk: bool)
    requires chunkCount > 0 && p.free != []
    ensures var (r, q) := Allocate(p, chunkCount, growable, mallocOk);
      && r == Ok(p.free[0]) && q.free == p.free[1..]
      && Size(q) == Size(p) - 1 && q.blocks == p.blocks
  {
  }

  /** With no free chunk: a fixed pool reports PoolExhausted and a growable
      pool whose block acquisition fails reports OutOfMemory, both changing
      nothing; otherwise exactly one block is grown, the highest chunk of it
      is handed out and the rest of it stays free. */
  lemma AllocateWhenEmpty(p: Pool, chunkCount: nat, growable: bool, mallocOk: bool)
    requires chunkCount > 0 && p.free == []
    ensures var (r, q) := Allocate(p, chunkCount, growable, mallocOk);
      && (!growable ==> r == Err(PoolExhausted) && q == p)
      && (growable && !mallocOk ==> r == Err(OutOfMemory) && q == p)
      && (growable && mallocOk ==>
            && r == Ok(Chunk(|p.blocks|, chunkCount - 1))
            && |q.blocks| == |p.blocks| + 1
            && Capacity(q, chunkCount) == Capacity(p, chunkCount) + chunkCount
            && Size(q) == chunkCount - 1)
  {
    AllocateBlockEffect(p, chunkCount, mallocOk);
  }

  /** Allocate keeps the invariant, and an address it hands out lies in an
      owned block and is no longer free: it cannot be handed out twice. */
  lemma AllocateIssuesOutstanding(p: Pool, chunkCount: nat, growable: bool, mallocOk: bool)
    requires WellFormed(p, chunkCount)
    ensures var (r, q) := Allocate(p, chunkCount, growable, mallocOk);
      && WellFormed(q, chunkCount)
      && (r.Ok? ==> !Outstanding(p, chunkCount, r.value))
      && (r.Ok? ==> Outstanding(q, chunkCount, r.value))
  {
    if p.free == [] {
      AllocateWhenEmpty(p, chunkCount, growable, mallocOk);
    }
    var (r, q) := Allocate(p, chunkCount, growable, mallocOk);
    var g := AllocateBlock(p, chunkCount, mallocOk).1;
    AllocateBlockPreserves(p, chunkCount, mallocOk);
    var s := if p.free != [] then p else g;
    if r.Ok? {
      assert s.free != [] && q.free == s.free[1..] && r.value == s.free[0];
      assert WellFormed(s, chunkCount);
      forall j | 0 <= j < |q.free| ensures q.free[j] != r.value {
        assert q.free[j] == s.free[j + 1];
      }
    }
  }

  // ---------------------------------------------------------------------
  // Deallocate

  /** Deallocating an outstanding chunk keeps the invariant and grows Size
      by one; a null pointer changes nothing. */
  lemma DeallocatePreserves(p: Pool, chunkCount: nat, ptr: Option<Chunk>)
    requires WellFormed(p, chunkCount)
    requires ptr.Some? ==> Outstanding(p, chunkCount, ptr.value)
    ensures WellFormed(Deallocate(p, ptr), chunkCount)
    ensures Size(Deallocate(p, ptr)) == if ptr.Some? then Size(p) + 1 else Size(p)
    ensures ptr == None ==> Deallocate(p, ptr) == p
  {
    if ptr.Some? {
      var q := Deallocate(p, ptr);
      forall i, j | 0 <= i < j < |q.free| ensures q.free[i] != q.free[j] {
        if i == 0 {
          assert q.free[j] in p.free;
        } else {
          assert q.free[i] == p.free[i - 1] && q.free[j] == p.free[j - 1];
        }
      }
    }
  }

  /** Freed chunks are reused last-in first-out: the next Allocate after a
      Deallocate hands out that same address and restores the pool. */
  lemma DeallocateThenAllocate(p: Pool, chunkCount: nat, growable: bool, mallocOk: bool, c: Chunk)
    requires chunkCount > 0
    ensures Allocate(Deallocate(p, Some(c)), chunkCount, growable, mallocOk) == (Ok(c), p)
  {
    assert ([c] + p.free)[1..] == p.free;
  }

  // ---------------------------------------------------------------------
  // Reserve

  /** Reserve only adds blocks in front of the existing ones and free
      addresses in front of the existing ones: it never shrinks the pool. */
  lemma {:induction false} ReserveNeverShrinks(p: Pool, chunkCount: nat, n: nat, mallocOk: nat -> bool)
    requires chunkCount > 0
    ensures var q := Reserve(p, chunkCount, n, mallocOk).1;
      && |q.blocks| >= |p.blocks| && q.blocks[|q.blocks| - |p.blocks|..] == p.blocks
      && |q.free| >= |p.free| && q.free[|q.free| - |p.free|..] == p.free
    decreases n - Capacity(p, chunkCount)
  {
    if Capacity(p, chunkCount) < n {
      var (grown, q) := AllocateBlock(p, chunkCount, mallocOk(|p.blocks|));
      AllocateBlockEffect(p, chunkCount, mallocOk(|p.blocks|));
      if grown.Ok? {
        ReserveNeverShrinks(q, chunkCount, n, mallocOk);
        var q' := Reserve(q, chunkCount, n, mallocOk).1;
        assert q'.blocks[|q'.blocks| - |p.blocks|..] == q'.blocks[|q'.blocks| - |q.blocks|..][1..];
        assert q'.free[|q'.free| - |p.free|..] == q'.free[|q'.free| - |q.free|..][chunkCount..];
      }
    }
  }

  /** A successful Reserve(n) ends with capacity at least `n`; when it
      grew, the capacity one block earlier was still below `n`, so it
      stopped at the first capacity that reaches `n`. A failed one reports
      OutOfMemory with the capacity still below `n`. */
  lemma {:induction false} ReserveReaches(p: Pool, chunkCount: nat, n: nat, mallocOk: nat -> bool)
    requires chunkCount > 0
    ensures var (r, q) := Reserve(p, chunkCount, n, mallocOk);
      && (r.Ok? ==> Capacity(q, chunkCount) >= n)
      && (r.Ok? && q != p ==> Capacity(q, chunkCount) - chunkCount < n)
      && (r.Err? ==> r.error == OutOfMemory && Capacity(q, chunkCount) < n)
    decreases n - Capacity(p, chunkCount)
  {
    if Capacity(p, chunkCount) < n {
      var (grown, q) := AllocateBlock(p, chunkCount, mallocOk(|p.blocks|));
      AllocateBlockEffect(p, chunkCount, mallocOk(|p.blocks|));
      if grown.Ok? {
        ReserveReaches(q, chunkCount, n, mallocOk);
        var q' := Reserve(q, chunkCount, n, mallocOk).1;
        if q' == q {
          assert Capacity(q, chunkCount) - chunkCount == Capacity(p, chunkCount);
        }
      }
    }
  }

  /** Reserve(n) adds no block when the capacity already reaches `n`, so
      a second Reserve with a request no larger is a no-op. */
  lemma ReserveIdempotent(p: Pool, chunkCount: nat, n: nat, m: nat, mallocOk: nat -> bool)
    requires chunkCount > 0 && m <= n
    ensures var (r, q) := Reserve(p, chunkCount, n, mallocOk);
      r.Ok? ==> Reserve(q, chunkCount, m, mallocOk) == (Ok(()), q)
  {
    ReserveReaches(p, chunkCount, n, mallocOk);
  }

  lemma {:induction false} ReservePreserves(p: Pool, chunkCount: nat, n: nat, mallocOk: nat -> bool)
    requires WellFormed(p, chunkCount)
    ensures WellFormed(Reserve(p, chunkCount, n, mallocOk).1, chunkCount)
    decreases n - Capacity(p, chunkCount)
  {
    if Capacity(p, chunkCount) < n {
      var (grown, q) := AllocateBlock(p, chunkCount, mallocOk(|p.blocks|));
      AllocateBlockPreserves(p, chunkCount, mallocOk(|p.blocks|));
      AllocateBlockEffect(p, chunkCount, mallocOk(|p.blocks|));
      if grown.Ok? {
        ReservePreserves(q, chunkCount, n, mallocOk);
      }
    }
  }

  /** When every storage request succeeds, Reserve(n) on the empty pool
      (the sized constructor) ends with the smallest multiple of
      `chunkCount` that is at least `n`, all of it free. */
  lemma {:induction false} ReserveFromEmpty(chunkCount: nat, n: nat, mallocOk: nat -> bool)
    requires chunkCount > 0
    requires forall k :: mallocOk(k)
    ensures var (r, q) := Reserve(EmptyPool, chunkCount, n, mallocOk);
      && r == Ok(())
      && Capacity(q, chunkCount) >= n
      && Capacity(q, chunkCount) - chunkCount < n
      && Size(q) == Capacity(q, chunkCount)
  {
    ReserveAllSucceed(EmptyPool, chunkCount, n, mallocOk);
    ReserveReaches(EmptyPool, chunkCount, n, mallocOk);
  }

  lemma {:induction false} ReserveAllSucceed(p: Pool, chunkCount: nat, n: nat, mallocOk: nat -> bool)
    requires chunkCount > 0
    requires forall k :: mallocOk(k)
    ensures var (r, q) := Reserve(p, chunkCount, n, mallocOk);
      && r == Ok(())
      && Size(q) - Size(p) == Capacity(q, chunkCount) - Capacity(p, chunkCount)
      && (forall c :: Owned(c, |q.blocks|, chunkCount) && !Owned(c, |p.blocks|, chunkCount) ==> c in q.free)
    decreases n - Capacity(p, chunkCount)
  {
    if Capacity(p, chunkCount) < n {
      var q := AllocateBlock(p, chunkCount, mallocOk(|p.blocks|)).1;
      AllocateBlockEffect(p, chunkCount, mallocOk(|p.blocks|));
      PushedChunksMembers(|p.blocks|, chunkCount);
      ReserveAllSucceed(q, chunkCount, n, mallocOk);
      ReserveNeverShrinks(q, chunkCount, n, mallocOk);
      var q' := Reserve(q, chunkCount, n, mallocOk).1;
      forall c | Owned(c, |q'.blocks|, chunkCount) && !Owned(c, |p.blocks|, chunkCount)
        ensures c in q'.free
      {
        if Owned(c, |q.blocks|, chunkCount) {
          assert c in PushedChunks(|p.blocks|, chunkCount) && q.free == PushedChunks(|p.blocks|, chunkCount) + p.free;
          assert c in q'.free[|q'.free| - |q.free|..];
        }
      }
    }
  }

  // ---------------------------------------------------------------------
  // Construction

  /** The default constructor acquires one block: on success the pool is
      well formed with one block and Size() == Capacity() == chunkCount. */
  lemma DefaultConstructed(chunkCount: nat, mallocOk: bool)
    requires chunkCount > 0
    ensures var (r, q) := AllocateBlock(EmptyPool, chunkCount, mallocOk);
      && (r.Ok? <==> mallocOk)
      && WellFormed(q, chunkCount)
      && (mallocOk ==> |q.blocks| == 1 && Size(q) == Capacity(q, chunkCount) == chunkCount)
  {
    AllocateBlockEffect(EmptyPool, chunkCount, mallocOk);
    AllocateBlockPreserves(EmptyPool, chunkCount, mallocOk);
  }
}

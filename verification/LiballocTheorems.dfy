/** What the heap promises over calls and over whole runs. */
module LiballocTheorems {
  import opened Machine
  import opened LiballocModel
  import opened LiballocInvariant
  import opened LiballocLists
  import opened LiballocTiling
  import opened LiballocOps
  import opened LiballocMalloc
  import opened LiballocBytes

  // ----- exact tiling

  /** The tags met by following split_right from a. */
  ghost function Chain(s: State, a: int): (c: seq<int>)
    requires Tiled(s) && a in s.owner
    decreases TWO32 - a
  {
    RealSizeBounds(s, a);
    var next := s.tags[a].splitRight;
    if next == 0 then [a]
    else
      RealSizeBounds(s, next);
      [a] + Chain(s, next)
  }

  function SumSizes(s: State, c: seq<int>): int {
    if c == [] then 0 else Get(s.tags, c[0]).realSize + SumSizes(s, c[1..])
  }

  function ChunkEnd(s: State, a: int): int {
    if a in s.owner && s.owner[a] in s.chunks then s.owner[a] + s.chunks[s.owner[a]] else 0
  }

  /** Following split_right from a tag, the tags abut inside one chunk and their real sizes add
      up to what is left of it. */
  lemma {:induction false} ChainFills(s: State, a: int)
    requires Tiled(s) && a in s.owner
    ensures var c := Chain(s, a);
      && c[0] == a
      && a + SumSizes(s, c) == ChunkEnd(s, a)
      && (forall i :: 0 <= i < |c| ==> c[i] in s.owner && s.owner[c[i]] == s.owner[a])
      && (forall i :: 0 <= i < |c| - 1 ==> c[i] + Get(s.tags, c[i]).realSize == c[i + 1])
    decreases TWO32 - a
  {
    RealSizeBounds(s, a);
    var next := s.tags[a].splitRight;
    var c := Chain(s, a);
    if next == 0 {
      assert c[1..] == [];
    } else {
      RealSizeBounds(s, next);
      ChainFills(s, next);
      var d := Chain(s, next);
      assert c[1..] == d;
    }
  }

  /** ... and no tag of the chunk is missed. */
  lemma {:induction false} ChainMeets(s: State, a: int, b: int)
    requires Tiled(s) && a in s.owner && b in s.owner && s.owner[b] == s.owner[a] && a <= b
    ensures b in Chain(s, a)
    decreases TWO32 - a
  {
    RealSizeBounds(s, a);
    RealSizeBounds(s, b);
    if a < b {
      assert Get(s.tags, a).realSize + a <= b;
      var next := s.tags[a].splitRight;
      RealSizeBounds(s, next);
      ChainMeets(s, next, b);
    }
  }

  /** A chunk is exactly tiled: the chain from its base is all its tags and fills its pages. */
  lemma ChunkExactlyTiled(s: State, base: int)
    requires Inv(s) && base in s.chunks
    ensures base in s.owner
    ensures SumSizes(s, Chain(s, base)) == s.chunks[base]
    ensures forall b :: b in Chain(s, base) <==> b in s.owner && s.owner[b] == base
  {
    assert ChunkOk(s, base);
    ChainFills(s, base);
    forall b | b in s.owner && s.owner[b] == base
      ensures b in Chain(s, base)
    {
      RealSizeBounds(s, b);
      ChainMeets(s, base, b);
    }
  }

  // ----- the free lists

  /** A tag has index k exactly when it stands in free list k, and then it stands there once. */
  lemma IndexIffListed(s: State, a: int, k: int)
    requires Inv(s) && a in s.owner && 0 <= k < MAXEXP
    ensures Get(s.tags, a).index == k <==> a in s.lists[k]
    ensures var l := s.lists[k]; forall i, j :: 0 <= i < |l| && 0 <= j < |l| && l[i] == a == l[j] ==> i == j
    ensures a in s.lists[k] ==> k == ClassOf(Get(s.tags, a).realSize)
  {
    assert TagListed(s, a);
    NullIsNoTag(s);
    var l := s.lists[k];
    assert ListOk(s.tags, s.owner, s.heads[k], l, k);
    if a in l {
      var i :| 0 <= i < |l| && l[i] == a;
      assert NodeOk(s.tags, s.owner, l, i, k);
      assert TagSized(Get(s.tags, a));
    }
  }

  // ----- the counters say how many complete chunks stand by

  /** The complete free chunks of class k, read off the blocks. */
  function StandingBy(blocks: map<int, Block>, chunks: map<int, int>, k: int): set<int> {
    set a | a in chunks && a in blocks && blocks[a] == Free(chunks[a]) && ClassOf(chunks[a]) == k
  }

  lemma CountersCountChunks(s: State, k: int)
    requires Inv(s) && 0 <= k < MAXEXP
    ensures Whole(s, k) == StandingBy(Blocks(s), s.chunks, k)
    ensures s.complete[k] == |StandingBy(Blocks(s), s.chunks, k)| <= MAXCOMPLETE
  {
    NullIsNoTag(s);
    forall a
      ensures a in Whole(s, k) <==> a in StandingBy(Blocks(s), s.chunks, k)
    {
      if a in s.owner {
        WholeIsChunk(s, a);
        assert TagSized(Get(s.tags, a));
      }
    }
  }

  // ----- a malloc undone by free

  /** The free blocks on either side of a live block, and what it would merge into. */
  ghost predicate Surroundings(s: State, a: int, gone: set<int>, realSize: int) {
    IsLive(s, a) && MergedStart(s, a) == a && MergedSize(s, a) == realSize && FreeNeighbours(s, a) == gone
  }

  /** The tag that settling cuts off, if any. */
  function Rest(a: int, realSize: int, size: int): set<int> {
    if realSize - size - 2 * HEADER >= 256 then {a + HEADER + size} else {}
  }

  /** What settling leaves around the block: a free rest on the right if it was cut, and
      otherwise no free neighbour at all. */
  lemma SettleNeighbours(s: State, a: int, size: int)
    requires InHand(s, a) && Lonely(s, a)
    requires 0 <= size && size + HEADER <= Get(s.tags, a).realSize
    ensures var realSize := Get(s.tags, a).realSize;
      Surroundings(Settled(s, a, size), a, Rest(a, realSize, size), realSize)
  {
    SizedInHand(s, a, size);
    var s2 := SetSize(s, a, size);
    if Splits(Get(s2.tags, a).realSize, size) {
      SplitNeighbours(s2, a);
    } else {
      LonelySurroundings(s2, a);
    }
  }

  lemma LonelySurroundings(s: State, a: int)
    requires IsLive(s, a) && Lonely(s, a)
    ensures Surroundings(s, a, {}, Get(s.tags, a).realSize)
  {
  }

  lemma SplitNeighbours(s: State, a: int)
    requires InHand(s, a) && CanSplit(s, a) && Get(s.tags, a).size + 2 * HEADER < Get(s.tags, a).realSize
    ensures Surroundings(Split(s, a), a, {CarvePoint(s, a)}, Get(s.tags, a).realSize)
  {
    SplitIsInsert(s, a);
    var c := Carving(s, a);
    var n := CarvePoint(s, a);
    var k := ClassOf(Get(c.tags, n).realSize);
    InsertReindexed(c, n, k);
    CarvedNeighbours(s, c, Insert(c, n, k), a, k);
  }

  lemma CarvedNeighbours(s: State, c: State, r: State, a: int, k: int)
    requires InHand(s, a) && CanSplit(s, a) && IsCarving(s, c, a) && 0 <= k
    requires Reindexed(c, r, CarvePoint(s, a), k)
    ensures Surroundings(r, a, {CarvePoint(s, a)}, Get(s.tags, a).realSize)
  {
    var n := CarvePoint(s, a);
    NullIsNoTag(s);
    assert TagTiled(s, a);
    assert a in c.tags && n in c.tags && a in r.tags && n in r.tags;
    var left := s.tags[a].splitLeft;
    assert left in s.owner ==> left in c.tags && left in r.tags;
  }

  lemma MallocNeighbours(s: State, size: int, granted: bool)
    requires Inv(s) && 0 <= size && size + HEADER < TWO32
    requires granted ==> Fits(s, size)
    requires Found(s, size) != 0
    ensures var (a, realSize) := Source(s, size);
      Surroundings(Malloc(s, size, granted).0, a,
                   Rest(a, realSize, size), realSize)
  {
    TakenSource(s, size);
    SettleNeighbours(Take(s, Found(s, size)), Found(s, size), size);
  }

  lemma CutAndMerge(m: map<int, Block>, a: int, realSize: int, size: int)
    requires a in m && m[a] == Free(realSize) && a + HEADER + size !in m && size >= 0
    ensures (CutBlocks(m, a, realSize, size) - {a + HEADER + size} - {a})[a := Free(realSize)] == m
  {
  }

  lemma SetAndReset(m: map<int, Block>, a: int, realSize: int, size: int)
    requires a in m && m[a] == Free(realSize)
    ensures (m[a := Live(realSize, size)] - {} - {a})[a := Free(realSize)] == m
  {
  }

  /** A malloc served from a free list and the free of its result restore the blocks, free and
      live, the complete counters and the chunks, whether or not malloc cut the block. */
  lemma MallocFreeUndo(s: State, size: int, granted: bool)
    requires Inv(s) && 0 <= size && size + HEADER < TWO32
    requires granted ==> Fits(s, size)
    requires Found(s, size) != 0
    ensures var (r, p) := Malloc(s, size, granted);
      var (q, rel) := FreeTag(r, p - HEADER);
      && IsLive(r, p - HEADER) && Inv(q) && rel == Kept
      && Blocks(q) == Blocks(s) && q.complete == s.complete && q.chunks == s.chunks
  {
    MallocHolds(s, size, granted);
    MallocChunks(s, size, granted);
    MallocNeighbours(s, size, granted);
    var (r, p) := Malloc(s, size, granted);
    FreeHolds(r, p - HEADER);
    UndoFrom(s, size, granted, r, FreeTag(r, p - HEADER).0, FreeTag(r, p - HEADER).1);
  }

  lemma UndoFrom(s: State, size: int, granted: bool, r: State, q: State, rel: Released)
    requires Inv(s) && 0 <= size && size + HEADER < TWO32
    requires granted ==> Fits(s, size)
    requires Found(s, size) != 0 && MallocEffect(s, size, granted, r, Source(s, size).0 + HEADER)
    requires r.chunks == s.chunks
    requires var (a, realSize) := Source(s, size);
      && Surroundings(r, a, Rest(a, realSize, size), realSize)
      && FreeEffect(r, a, q, rel)
    ensures Inv(q) && rel == Kept && Blocks(q) == Blocks(s) && q.complete == s.complete && q.chunks == s.chunks
  {
    SourceIsFree(s, size, granted);
    var (a, realSize) := Source(s, size);
    UndoKept(s, r, a, realSize, size);
    if realSize - size - 2 * HEADER >= 256 {
      RestIsNew(s, a, realSize, size);
    }
    SettleUndo(Blocks(s), a, realSize, size);
    SameCounters(s, q);
  }

  lemma SettleUndo(m: map<int, Block>, a: int, realSize: int, size: int)
    requires a in m && m[a] == Free(realSize) && size >= 0
    requires Rest(a, realSize, size) !! m.Keys
    ensures (Settle(m, a, realSize, size) - Rest(a, realSize, size) - {a})[a := Free(realSize)] == m
  {
    if realSize - size - 2 * HEADER >= 256 {
      assert a + HEADER + size in Rest(a, realSize, size);
      CutAndMerge(m, a, realSize, size);
    } else {
      SetAndReset(m, a, realSize, size);
    }
  }

  lemma RestIsNew(s: State, a: int, realSize: int, size: int)
    requires Inv(s) && IsFree(s, a) && Blocks(s)[a] == Free(realSize) && 0 <= size && size + HEADER < realSize
    ensures a + HEADER + size !in Blocks(s)
  {
    var n := a + HEADER + size;
    assert n in s.owner ==> Get(s.tags, a).realSize + a <= n;
  }

  lemma SameCounters(s: State, q: State)
    requires Inv(s) && Inv(q) && Blocks(q) == Blocks(s) && q.chunks == s.chunks
    ensures q.complete == s.complete
  {
    forall k | 0 <= k < MAXEXP
      ensures q.complete[k] == s.complete[k]
    {
      CountersCountChunks(s, k);
      CountersCountChunks(q, k);
    }
  }

  /** With a taken, its class has room for it again. */
  lemma UndoKept(s: State, r: State, a: int, realSize: int, size: int)
    requires Inv(s) && Inv(r) && r.chunks == s.chunks && 0 <= size
    requires IsFree(s, a) && Blocks(s)[a] == Free(realSize) && size + HEADER <= realSize
    requires Blocks(r) == Settle(Blocks(s), a, realSize, size)
    ensures a in s.chunks && s.chunks[a] == realSize ==> r.complete[ClassOf(realSize)] < MAXCOMPLETE
  {
    var k := ClassOf(realSize);
    if a in s.chunks && s.chunks[a] == realSize {
      CountersCountChunks(s, k);
      CountersCountChunks(r, k);
      var S := StandingBy(Blocks(s), s.chunks, k);
      var R := StandingBy(Blocks(r), r.chunks, k);
      assert a in S && a !in R;
      if realSize - size - 2 * HEADER >= 256 {
        RestIsNew(s, a, realSize, size);
      }
      forall b | b in R
        ensures b in S
      {
        assert ChunkOk(s, b);
      }
      assert R <= S - {a};
      CardinalityMonotone(R, S - {a});
    }
  }

  lemma CardinalityMonotone(a: set<int>, b: set<int>)
    requires a <= b
    ensures |a| <= |b|
  {
    assert b == a + (b - a);
  }
}

/** What malloc and free decide, told from the blocks and the chunks alone. */
module LiballocFit {
  import opened Machine
  import opened LiballocModel
  import opened LiballocInvariant
  import opened LiballocLists
  import opened LiballocTiling
  import opened LiballocOps
  import opened LiballocMalloc
  import opened LiballocTheorems
  import opened LiballocRuns

  // ----- size classes

  /** n bytes are of class k: from 2^k on and below 2^(k+1), the least class taking in all below it. */
  predicate InClass(n: int, k: nat) {
    8 <= k && (k == 8 || Pow2(k) <= n) && n < Pow2(k + 1)
  }

  lemma ClassUnique(n: int, j: nat, k: nat)
    requires InClass(n, j) && InClass(n, k)
    ensures j == k
  {
    if j < k {
      Pow2Monotone(j + 1, k);
    } else if k < j {
      Pow2Monotone(k + 1, j);
    }
  }

  /** The class of a request. */
  lemma RequestClass(size: int, k: nat)
    requires 0 <= size < TWO32
    ensures InClass(size, k) <==> k == AtLeastMin(GetExp(size))
  {
    Pow2Of32();
    assert Pow2(9) == 2 * Pow2(8);
    assert InClass(size, AtLeastMin(GetExp(size)));
    if InClass(size, k) {
      ClassUnique(size, k, AtLeastMin(GetExp(size)));
    }
  }

  /** A free tag's class is that of the bytes after its header. */
  lemma TagClass(realSize: int, k: nat)
    requires 32 <= realSize < TWO32
    ensures InClass(realSize - 32, k) <==> k == ClassOf(realSize)
  {
    RequestClass(realSize - 32, k);
  }

  // ----- malloc

  ghost predicate SameClass(m: int, n: int) {
    exists k: nat :: InClass(m, k) && InClass(n, k)
  }

  /** Block a can serve a request of `size` bytes: it is free, of the request's class, and has room for
      two headers besides. */
  ghost predicate Fitting(m: map<int, Block>, size: int, a: int) {
    a in m && m[a].Free? && m[a].realSize >= size + 64 && SameClass(size, m[a].realSize - 32)
  }

  ghost predicate CanServe(m: map<int, Block>, size: int) {
    exists a :: Fitting(m, size, a)
  }

  /** A block that fits stands in the list malloc searches. */
  lemma FitIsFound(s: State, size: int, a: int)
    requires Inv(s) && 0 <= size < TWO32 && Fitting(Blocks(s), size, a)
    ensures size + HEADER < TWO32 && Found(s, size) != 0
  {
    RealSizeBounds(s, a);
    var k: nat :| InClass(size, k) && InClass(Get(s.tags, a).realSize - 32, k);
    RequestClass(size, k);
    TagClass(Get(s.tags, a).realSize, k);
    NullIsNoTag(s);
    assert TagSized(Get(s.tags, a)) && TagListed(s, a);
    ListHasNoNull(s, k);
    FirstFitSpec(s.tags, s.lists[k], size);
    assert Accepts(s.tags, a, size);
  }

  lemma ListHasNoNull(s: State, k: int)
    requires Inv(s) && 0 <= k < MAXEXP
    ensures 0 !in s.lists[k]
  {
    forall a | a in s.lists[k]
      ensures a != 0
    {
      ListedUnderClass(s, a, k);
      NullIsNoTag(s);
    }
  }

  /** The tag malloc finds is a block that fits. */
  lemma FoundFits(s: State, size: int)
    requires Inv(s) && 0 <= size < TWO32 && Found(s, size) != 0
    ensures size + HEADER < TWO32 && Fitting(Blocks(s), size, Found(s, size))
  {
    if size + HEADER >= TWO32 {
      WrapFindsNothing(s, size, size + HEADER - TWO32);
    }
    var a, k := Found(s, size), AtLeastMin(GetExp(size));
    FirstFitIsFree(s, k, size);
    RealSizeBounds(s, a);
    ListedUnderClass(s, a, k);
    RequestClass(size, k);
    TagClass(Get(s.tags, a).realSize, k);
  }

  lemma FoundIff(s: State, size: int)
    requires Inv(s) && 0 <= size < TWO32
    ensures Found(s, size) != 0 <==> CanServe(Blocks(s), size)
  {
    if a :| Fitting(Blocks(s), size, a) {
      FitIsFound(s, size, a);
    }
    if Found(s, size) != 0 {
      FoundFits(s, size);
    }
  }

  /** Of the list of the request's class it is the first with room. */
  lemma FoundIsFirst(s: State, size: int, k: nat)
    requires Inv(s) && 0 <= size < TWO32 && InClass(size, k) && Found(s, size) != 0
    ensures k < 32
    ensures exists i :: 0 <= i < |s.lists[k]| && s.lists[k][i] == Found(s, size)
                     && forall j :: 0 <= j < i ==> Get(s.tags, s.lists[k][j]).realSize < size + 64
  {
    RequestClass(size, k);
    FoundFits(s, size);
    ListHasNoNull(s, k);
    FirstFitSpec(s.tags, s.lists[k], size);
    var i :| FirstAt(s.tags, s.lists[k], size, i) && s.lists[k][i] == Found(s, size);
    forall j | 0 <= j < i
      ensures Get(s.tags, s.lists[k][j]).realSize < size + 64
    {
      assert !Accepts(s.tags, s.lists[k][j], size);
      ListedUnderClass(s, s.lists[k][j], k);
      RealSizeBounds(s, s.lists[k][j]);
    }
  }

  /** Without help from the pager malloc returns NULL exactly when no block fits. */
  lemma NullIff(s: State, size: int)
    requires Inv(s) && 0 <= size < TWO32
    ensures Malloc(s, size, false).1 == 0 <==> !CanServe(Blocks(s), size)
  {
    FoundIff(s, size);
    if Found(s, size) != 0 {
      FoundFits(s, size);
      MallocHolds(s, size, false);
    }
  }

  /** Free block a made live, and its tail cut off when at least 256 bytes of it are of use. */
  function CutAt(m: map<int, Block>, a: int, size: int): map<int, Block>
    requires a in m
  {
    var realSize := m[a].realSize;
    if realSize >= size + 320 then m[a := Live(size + 32, size)][a + 32 + size := Free(realSize - 32 - size)]
    else m[a := Live(realSize, size)]
  }

  /** The least number of whole pages, 16 at least, that hold n bytes. */
  predicate LeastPages(len: int, n: int) {
    len % 4096 == 0 && len >= 65536 && len >= n && (len == 65536 || len - 4096 < n)
  }

  /** Block p - 32, which fits, has become live, cut where 256 bytes and a header are left. */
  ghost predicate TookFit(s: State, size: int, r: State, p: int) {
    && p - 32 in s.owner && Fitting(Blocks(s), size, p - 32)
    && r.chunks == s.chunks && r.top == s.top
    && Blocks(r) == CutAt(Blocks(s), p - 32, size)
  }

  /** When a block fits malloc takes one, whatever the pager would answer. */
  lemma ServedFromFit(s: State, size: int, granted: bool)
    requires Inv(s) && 0 <= size < TWO32 && (granted ==> Fits(s, size)) && CanServe(Blocks(s), size)
    ensures TookFit(s, size, Malloc(s, size, granted).0, Malloc(s, size, granted).1)
  {
    FoundIff(s, size);
    FoundFits(s, size);
    MallocHolds(s, size, granted);
    MallocChunks(s, size, granted);
    TookFrom(s, size, granted, Malloc(s, size, granted).0, Malloc(s, size, granted).1);
  }

  lemma TookFrom(s: State, size: int, granted: bool, r: State, p: int)
    requires Inv(s) && 0 <= size < TWO32 && Found(s, size) != 0 && MallocEffect(s, size, granted, r, p)
    requires Fitting(Blocks(s), size, Found(s, size))
    requires r.chunks == s.chunks && r.top == s.top
    ensures TookFit(s, size, r, p)
  {
    assert p - 32 == Found(s, size);
  }

  lemma RequestPages(size: int) returns (len: int)
    requires 0 <= size && size + 32 < TWO32
    ensures len == PagesFor(size) * PAGE_SIZE && LeastPages(len, size + 32)
  {
    len := PagesFor(size) * PAGE_SIZE;
  }

  /** No chunk is taken when a block fits, else one of `len` bytes at the top, as if it had been a free
      block. */
  ghost predicate ChunkTaken(s: State, size: int, r: State, p: int, len: int) {
    if CanServe(Blocks(s), size) then r.chunks == s.chunks && r.top == s.top
    else
      && s.top !in s.chunks && r.chunks == s.chunks[s.top := len] && r.top == s.top + len
      && p == s.top + 32 && Blocks(r) == CutAt(Blocks(s)[s.top := Free(len)], s.top, size)
  }

  /** Only when no block fits does malloc take a chunk: one, at the top, of just enough pages. */
  lemma ChunkIff(s: State, size: int) returns (len: int)
    requires Inv(s) && 0 <= size && size + 32 < TWO32 && Fits(s, size)
    ensures LeastPages(len, size + 32)
    ensures ChunkTaken(s, size, Malloc(s, size, true).0, Malloc(s, size, true).1, len)
  {
    len := RequestPages(size);
    MallocChunks(s, size, true);
    MallocHolds(s, size, true);
    ChunkFrom(s, size, Malloc(s, size, true).0, Malloc(s, size, true).1, len);
  }

  lemma ChunkFrom(s: State, size: int, r: State, p: int, len: int)
    requires Inv(s) && 0 <= size < TWO32 && len == PagesFor(size) * PAGE_SIZE && MallocEffect(s, size, true, r, p)
    requires if Found(s, size) == 0 then r.chunks == s.chunks[s.top := len] && r.top == s.top + len
             else r.chunks == s.chunks && r.top == s.top
    ensures ChunkTaken(s, size, r, p, len)
  {
    FoundIff(s, size);
    TopIsNew(s);
    if Found(s, size) == 0 {
      SettleIsCut(Blocks(s), s.top, len, size);
    }
  }

  lemma SettleIsCut(m: map<int, Block>, a: int, len: int, size: int)
    ensures Settle(m, a, len, size) == CutAt(m[a := Free(len)], a, size)
  {
    SettleOver(m, a, Free(len), len, size);
  }

  lemma TopIsNew(s: State)
    requires Tiled(s)
    ensures s.top !in s.chunks
  {
    assert s.top in s.chunks ==> ChunkOk(s, s.top);
  }

  // ----- free

  /** free retires a live block, and leaves the heap alone for any other pointer it can be given. */
  lemma FreeDoes(s: State, p: int)
    requires Inv(s) && Freeable(s, p)
    ensures if IsLive(s, p - 32) then FreePtr(s, p) == FreeTag(s, p - 32) && !IsLive(FreePtr(s, p).0, p - 32)
            else FreePtr(s, p) == (s, Released.Kept)
  {
    if IsLive(s, p - 32) {
      LiveIsGenuine(s, p);
      FreeRetires(s, p - 32);
    } else if p != 0 && Get(s.tags, U32(p - HEADER)).magic == MAGIC {
      FreedIsLive(s, p);
    }
  }

  /** The complete free chunks of class k. */
  function Standing(m: map<int, Block>, chunks: map<int, int>, k: nat): set<int> {
    set a | a in chunks && a in m && m[a] == Free(chunks[a]) && InClass(chunks[a] - 32, k)
  }

  lemma CounterIs(s: State, k: nat)
    requires Inv(s) && k < MAXEXP
    ensures s.complete[k] == |Standing(Blocks(s), s.chunks, k)| <= 5
  {
    CountersCountChunks(s, k);
    forall a | a in s.chunks && a in Blocks(s)
      ensures InClass(s.chunks[a] - 32, k) <==> ClassOf(s.chunks[a]) == k
    {
      assert ChunkOk(s, a);
      TagClass(s.chunks[a], k);
    }
    assert Standing(Blocks(s), s.chunks, k) == StandingBy(Blocks(s), s.chunks, k);
  }

  /** free gives memory back exactly when block and free neighbours make up a chunk and five free
      chunks of its class stand by. */
  lemma ReleasesIff(s: State, a: int, k: nat)
    requires Inv(s) && IsLive(s, a) && InClass(MergedSize(s, a) - 32, k)
    ensures var b, n := MergedStart(s, a), MergedSize(s, a);
      FreeTag(s, a).1.Chunk? <==>
        b in s.chunks && s.chunks[b] == n && |Standing(Blocks(s), s.chunks, k)| == 5
  {
    FreeHolds(s, a);
    var b, n := MergedStart(s, a), MergedSize(s, a);
    if b in s.chunks && s.chunks[b] == n {
      assert ChunkOk(s, b);
      TagClass(n, k);
      CounterIs(s, k);
    }
  }
}

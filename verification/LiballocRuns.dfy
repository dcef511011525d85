/** liballoc_memcpy and realloc, and safety over whole runs of the allocator. */
module LiballocRuns {
  import opened Machine
  import opened LiballocModel
  import opened LiballocInvariant
  import opened LiballocTiling
  import opened LiballocOps
  import opened LiballocMalloc
  import opened LiballocBytes
  import opened LiballocTheorems

  // ----- liballoc_memcpy

  function SetByte(bytes: map<int, int>, x: int, v: int): map<int, int> {
    if v == UNKNOWN then bytes - {x} else bytes[x := v]
  }

  /** The plain copy: byte by byte, ascending. */
  function ByteCopy(bytes: map<int, int>, d: int, p: int, n: nat): map<int, int>
    decreases n
  {
    if n == 0 then bytes else ByteCopy(SetByte(bytes, d, ByteAt(bytes, p)), d + 1, p + 1, n - 1)
  }

  /** One 32-bit load and store. */
  function CopyWord(bytes: map<int, int>, d: int, p: int): map<int, int> {
    var b0 := SetByte(bytes, d, ByteAt(bytes, p));
    var b1 := SetByte(b0, d + 1, ByteAt(bytes, p + 1));
    var b2 := SetByte(b1, d + 2, ByteAt(bytes, p + 2));
    SetByte(b2, d + 3, ByteAt(bytes, p + 3))
  }

  /** liballoc_memcpy: words while four bytes remain, then bytes. */
  function WordCopy(bytes: map<int, int>, d: int, p: int, n: nat): map<int, int>
    decreases n
  {
    if n >= 4 then WordCopy(CopyWord(bytes, d, p), d + 4, p + 4, n - 4) else ByteCopy(bytes, d, p, n)
  }

  lemma {:induction false} ByteCopyAppend(bytes: map<int, int>, d: int, p: int, m: nat, n: nat)
    ensures ByteCopy(bytes, d, p, m + n) == ByteCopy(ByteCopy(bytes, d, p, m), d + m, p + m, n)
    decreases m
  {
    if m > 0 {
      ByteCopyAppend(SetByte(bytes, d, ByteAt(bytes, p)), d + 1, p + 1, m - 1, n);
    }
  }

  lemma WordIsFourBytes(bytes: map<int, int>, d: int, p: int)
    requires d <= p || p + 4 <= d
    ensures CopyWord(bytes, d, p) == ByteCopy(bytes, d, p, 4)
  {
    var b1 := SetByte(bytes, d, ByteAt(bytes, p));
    var b2 := SetByte(b1, d + 1, ByteAt(b1, p + 1));
    var b3 := SetByte(b2, d + 2, ByteAt(b2, p + 2));
    assert ByteCopy(bytes, d, p, 4) == ByteCopy(b1, d + 1, p + 1, 3);
    assert ByteCopy(b1, d + 1, p + 1, 3) == ByteCopy(b2, d + 2, p + 2, 2);
    assert ByteCopy(b2, d + 2, p + 2, 2) == ByteCopy(b3, d + 3, p + 3, 1);
  }

  lemma {:induction false} WordCopyIsByteCopy(bytes: map<int, int>, d: int, p: int, n: nat)
    requires d <= p || p + 4 <= d
    ensures WordCopy(bytes, d, p, n) == ByteCopy(bytes, d, p, n)
    decreases n
  {
    if n >= 4 {
      WordIsFourBytes(bytes, d, p);
      WordCopyIsByteCopy(CopyWord(bytes, d, p), d + 4, p + 4, n - 4);
      ByteCopyAppend(bytes, d, p, 4, n - 4);
    }
  }

  /** With the target one to three bytes above the source, the word copy is not the byte copy. */
  lemma OverlapDiffers(d: int, p: int)
    requires p < d < p + 4
    ensures exists bytes :: WordCopy(bytes, d, p, 4) != ByteCopy(bytes, d, p, 4)
  {
    var bytes := map[p := 1, d := 2];
    var k := d - p;
    var b1 := SetByte(bytes, d, ByteAt(bytes, p));
    var b2 := SetByte(b1, d + 1, ByteAt(b1, p + 1));
    var b3 := SetByte(b2, d + 2, ByteAt(b2, p + 2));
    assert ByteCopy(bytes, d, p, 4) == ByteCopy(b1, d + 1, p + 1, 3);
    assert ByteCopy(b1, d + 1, p + 1, 3) == ByteCopy(b2, d + 2, p + 2, 2);
    assert ByteCopy(b2, d + 2, p + 2, 2) == ByteCopy(b3, d + 3, p + 3, 1);
    var w := CopyWord(bytes, d, p);
    assert WordCopy(bytes, d, p, 4) == ByteCopy(w, d + 4, p + 4, 0) == w;
    assert ByteAt(w, d + k) == 2;
    assert ByteAt(ByteCopy(bytes, d, p, 4), d + k) == 1;
  }

  /** The word-then-byte copy equals the byte copy on every memory exactly when no word
      is stored onto bytes of itself still to be read. */
  lemma WordCopyExact(d: int, p: int)
    ensures (forall bytes, n: nat :: WordCopy(bytes, d, p, n) == ByteCopy(bytes, d, p, n)) <==> d <= p || p + 4 <= d
  {
    if d <= p || p + 4 <= d {
      forall bytes: map<int, int>, n: nat
        ensures WordCopy(bytes, d, p, n) == ByteCopy(bytes, d, p, n)
      {
        WordCopyIsByteCopy(bytes, d, p, n);
      }
    } else {
      OverlapDiffers(d, p);
    }
  }

  /** Copying between disjoint ranges moves the n bytes and nothing else. */
  lemma {:induction false} ByteCopyMoves(bytes: map<int, int>, d: int, p: int, n: nat, x: int)
    requires d + n <= p || p + n <= d
    ensures ByteAt(ByteCopy(bytes, d, p, n), x) ==
      if d <= x < d + n then ByteAt(bytes, p + (x - d)) else ByteAt(bytes, x)
    decreases n
  {
    if n > 0 {
      ByteCopyMoves(SetByte(bytes, d, ByteAt(bytes, p)), d + 1, p + 1, n - 1, x);
    }
  }

  lemma WordCopyMoves(bytes: map<int, int>, d: int, p: int, n: nat, x: int)
    requires d + n <= p || p + n <= d
    ensures ByteAt(WordCopy(bytes, d, p, n), x) ==
      if d <= x < d + n then ByteAt(bytes, p + (x - d)) else ByteAt(bytes, x)
  {
    if n >= 4 {
      WordCopyIsByteCopy(bytes, d, p, n);
    }
    ByteCopyMoves(bytes, d, p, n, x);
  }

  // ----- realloc

  function Min(a: int, b: int): int {
    if a > b then b else a
  }

  /** realloc. It copies and frees even when malloc has returned NULL. */
  function Realloc(s: State, p: int, size: int, granted: bool): (r: (State, int))
    requires Shape(s) && 0 <= size < TWO32
    ensures Shape(r.0)
  {
    if size == 0 then (FreePtr(s, p).0, 0)
    else if p == 0 then Malloc(s, size, granted)
    else
      var (s1, q) := Malloc(s, size, granted);
      (FreePtr(Copied(s1, q, p, Kept(s, p, size)), p).0, q)
  }

  /** How many bytes realloc copies. */
  function Kept(s: State, p: int, size: int): nat
    requires size >= 0
  {
    var n := Min(Get(s.tags, U32(p - HEADER)).size, size);
    if n < 0 then 0 else n
  }

  function Copied(s: State, q: int, p: int, n: nat): State {
    s.(bytes := WordCopy(s.bytes, q, p, n))
  }

  lemma BytesDoNotMatter(s: State, bytes: map<int, int>)
    requires Inv(s)
    ensures var r := s.(bytes := bytes); Inv(r) && Blocks(r) == Blocks(s)
    ensures forall a :: IsLive(s.(bytes := bytes), a) <==> IsLive(s, a)
  {
    var r := s.(bytes := bytes);
    SameTilingTiled(s, r) by {
      forall a | a in s.owner
        ensures a in r.tags
      {
        assert TagTiled(s, a);
      }
    }
    forall a | a in r.owner
      ensures TagListed(r, a)
    {
      assert TagListed(s, a);
    }
    forall k | 0 <= k < MAXEXP
      ensures Whole(r, k) == Whole(s, k)
    {
    }
  }

  /** realloc's requests: a live block, a size that does not wrap. */
  ghost predicate ReallocOk(s: State, p: int, size: int, granted: bool) {
    && Inv(s) && IsLive(s, p - HEADER) && 0 < size && size + HEADER < TWO32
    && (granted ==> Fits(s, size))
  }

  lemma LiveAddress(s: State, p: int)
    requires Inv(s) && IsLive(s, p - HEADER)
    ensures p > 0 && U32(p - HEADER) == p - HEADER
  {
    RealSizeBounds(s, p - HEADER);
  }

  lemma LiveIsGenuine(s: State, p: int)
    requires Inv(s) && IsLive(s, p - HEADER)
    ensures p > 0 && U32(p - HEADER) == p - HEADER && Get(s.tags, p - HEADER).magic == 0xc001c0de
    ensures FreePtr(s, p) == FreeTag(s, p - HEADER)
  {
    RealSizeBounds(s, p - HEADER);
    LiveAddress(s, p);
    GenuineIsFreed(s, p);
  }

  lemma GenuineIsFreed(s: State, p: int)
    requires Shape(s) && p > 0 && U32(p - HEADER) == p - HEADER && Get(s.tags, p - HEADER).magic == MAGIC
    ensures FreePtr(s, p) == FreeTag(s, p - HEADER)
  {
  }

  /** malloc's promise: a live block of the size asked for, none of it live before; every live
      block and payload byte kept. */
  ghost predicate Served(s: State, size: int, r: State, q: int) {
    && Inv(r)
    && IsLive(r, q - HEADER) && Get(r.tags, q - HEADER).size == size && !IsLive(s, q - HEADER)
    && Spared(s, r, 0)
  }

  /** Every live block but f (0 for none), and every byte of its payload, is the same in r. */
  ghost predicate Spared(s: State, r: State, f: int) {
    && (forall a {:trigger IsLive(r, a)} :: IsLive(s, a) && a != f ==> SameLive(s, r, a))
    && (forall a, x {:trigger InPayload(s, a, x)} :: InPayload(s, a, x) && a != f ==>
         (InPayload(r, a, x) && ByteAt(r.bytes, x) == ByteAt(s.bytes, x)))
  }

  /** free's promise: the block retired, all others kept. */
  ghost predicate Retired(s: State, f: int, r: State) {
    Inv(r) && !IsLive(r, f) && Spared(s, r, f)
  }

  lemma MallocServes(s: State, size: int, granted: bool)
    requires Inv(s) && 0 <= size && size + HEADER < TWO32
    requires granted ==> Fits(s, size)
    requires Found(s, size) != 0 || granted
    ensures Served(s, size, Malloc(s, size, granted).0, Malloc(s, size, granted).1)
    ensures Malloc(s, size, granted).1 != 0
  {
    MallocHolds(s, size, granted);
    MallocSpares(s, size, granted);
    ServesFrom(s, size, granted, Malloc(s, size, granted).0, Malloc(s, size, granted).1);
  }

  lemma ServesFrom(s: State, size: int, granted: bool, r: State, q: int)
    requires Inv(s) && 0 <= size && size + HEADER < TWO32
    requires granted ==> Fits(s, size)
    requires Found(s, size) != 0 || granted
    requires MallocEffect(s, size, granted, r, q) && Spared(s, r, 0)
    ensures Served(s, size, r, q)
  {
    SourceIsFree(s, size, granted);
    var (a, realSize) := Source(s, size);
    SettledIsLive(s, r, a, realSize, size);
  }

  lemma MallocSpares(s: State, size: int, granted: bool)
    requires Inv(s) && 0 <= size && size + HEADER < TWO32
    requires granted ==> Fits(s, size)
    ensures Spared(s, Malloc(s, size, granted).0, 0)
  {
    var (r, q) := Malloc(s, size, granted);
    MallocHolds(s, size, granted);
    forall a | IsLive(s, a)
      ensures SameLive(s, r, a)
    {
      MallocKeepsLive(s, size, granted, r, q, a);
    }
    forall a, x | InPayload(s, a, x)
      ensures InPayload(r, a, x) && ByteAt(r.bytes, x) == ByteAt(s.bytes, x)
    {
      MallocSparesPayloads(s, size, granted, a, x);
    }
  }

  lemma SettledIsLive(s: State, r: State, a: int, realSize: int, size: int)
    requires Blocks(r) == Settle(Blocks(s), a, realSize, size) && size >= 0
    ensures IsLive(r, a) && Get(r.tags, a).size == size
  {
    assert Blocks(r)[a].Live?;
  }

  lemma FreeRetires(s: State, f: int)
    requires Inv(s) && IsLive(s, f)
    ensures Retired(s, f, FreeTag(s, f).0)
  {
    var (r, rel) := FreeTag(s, f);
    FreeHolds(s, f);
    FreeKeepsLive(s, f, r, rel, f);
    forall a | IsLive(s, a) && a != f
      ensures SameLive(s, r, a)
    {
      FreeKeepsLive(s, f, r, rel, a);
    }
    forall a, x | InPayload(s, a, x) && a != f
      ensures InPayload(r, a, x) && ByteAt(r.bytes, x) == ByteAt(s.bytes, x)
    {
      FreeSparesPayloads(s, f, a, x);
    }
  }

  /** Live payloads are pairwise disjoint. */
  lemma PayloadsApart(s: State, a: int, b: int)
    requires Inv(s) && IsLive(s, a) && IsLive(s, b) && a != b
    ensures a + HEADER + Get(s.tags, a).size <= b || b + HEADER + Get(s.tags, b).size <= a
    ensures Get(s.tags, a).size >= 0 && Get(s.tags, b).size >= 0
  {
    NullIsNoTag(s);
    assert TagSized(Get(s.tags, a)) && TagSized(Get(s.tags, b));
    RealSizeBounds(s, a);
    RealSizeBounds(s, b);
    if a < b {
      assert Get(s.tags, a).realSize + a <= b;
    } else {
      assert Get(s.tags, b).realSize + b <= a;
    }
  }

  /** The n bytes from q on are the n bytes from p on. */
  ghost predicate SameRange(dst: map<int, int>, q: int, src: map<int, int>, p: int, n: int) {
    forall x {:trigger ByteAt(dst, x)} :: q <= x < q + n ==> ByteAt(dst, x) == ByteAt(src, p + (x - q))
  }

  /** The copy between malloc and free leaves the two blocks live and the first n bytes equal. */
  ghost predicate Middle(s: State, p: int, size: int, s2: State, q: int) {
    && Inv(s2) && q != p && size >= 0
    && IsLive(s2, p - HEADER)
    && IsLive(s2, q - HEADER) && Get(s2.tags, q - HEADER).size == size
    && SameRange(s2.bytes, q, s.bytes, p, Kept(s, p, size))
    && Spared(s, s2, 0)
  }

  lemma KeptIsMin(s: State, p: int, size: int)
    requires Inv(s) && IsLive(s, p - HEADER) && size >= 0
    ensures var was, n := Get(s.tags, p - HEADER).size, Kept(s, p, size);
      0 <= n < KHEAP && n <= was && n <= size && (n == was || n == size)
  {
    LiveAddress(s, p);
    RealSizeBounds(s, p - HEADER);
    NullIsNoTag(s);
    assert TagSized(Get(s.tags, p - HEADER));
  }

  lemma CopyStep(s: State, p: int, size: int, s1: State, q: int)
    requires Inv(s) && IsLive(s, p - HEADER) && Served(s, size, s1, q) && size > 0
    ensures Middle(s, p, size, Copied(s1, q, p, Kept(s, p, size)), q)
  {
    KeptIsMin(s, p, size);
    NullIsNoTag(s);
    assert IsLive(s1, p - HEADER);
    PayloadsApart(s1, p - HEADER, q - HEADER);
    var n := Kept(s, p, size);
    var s2 := Copied(s1, q, p, n);
    BytesDoNotMatter(s1, s2.bytes);
    forall x | q <= x < q + n
      ensures ByteAt(s2.bytes, x) == ByteAt(s.bytes, p + (x - q))
    {
      WordCopyMoves(s1.bytes, q, p, n, x);
      assert InPayload(s, p - HEADER, p + (x - q));
    }
    forall a | IsLive(s, a)
      ensures SameLive(s, s2, a)
    {
      assert IsLive(s1, a);
    }
    forall a, x | InPayload(s, a, x)
      ensures InPayload(s2, a, x) && ByteAt(s2.bytes, x) == ByteAt(s.bytes, x)
    {
      assert IsLive(s1, a);
      PayloadsApart(s1, a, q - HEADER);
      WordCopyMoves(s1.bytes, q, p, n, x);
    }
  }

  /** What a realloc that is served promises. */
  ghost predicate Moved(s: State, p: int, size: int, r: State, q: int) {
    && Inv(r) && !IsLive(r, p - HEADER) && size >= 0
    && IsLive(r, q - HEADER) && Get(r.tags, q - HEADER).size == size
    && SameRange(r.bytes, q, s.bytes, p, Kept(s, p, size))
    && Spared(s, r, p - HEADER)
  }

  lemma SparedTwice(s: State, s2: State, r: State, f: int)
    requires Inv(s) && Spared(s, s2, 0) && Spared(s2, r, f)
    ensures Spared(s, r, f)
  {
    NullIsNoTag(s);
    forall a | IsLive(s, a) && a != f
      ensures SameLive(s, r, a)
    {
      assert IsLive(s2, a) && IsLive(r, a);
    }
    forall a, x | InPayload(s, a, x) && a != f
      ensures InPayload(r, a, x) && ByteAt(r.bytes, x) == ByteAt(s.bytes, x)
    {
      assert InPayload(s2, a, x);
    }
  }

  lemma MoveStep(s: State, p: int, size: int, s2: State, q: int, r: State)
    requires Inv(s) && IsLive(s, p - HEADER)
    requires Middle(s, p, size, s2, q) && Retired(s2, p - HEADER, r)
    ensures Moved(s, p, size, r, q)
  {
    KeptIsMin(s, p, size);
    SparedTwice(s, s2, r, p - HEADER);
    assert IsLive(r, q - HEADER);
    var n := Kept(s, p, size);
    forall x | q <= x < q + n
      ensures ByteAt(r.bytes, x) == ByteAt(s.bytes, p + (x - q))
    {
      assert InPayload(s2, q - HEADER, x);
      assert ByteAt(s2.bytes, x) == ByteAt(s.bytes, p + (x - q));
    }
  }

  lemma ServedMiddle(s: State, p: int, size: int, granted: bool)
    requires ReallocOk(s, p, size, granted) && (Found(s, size) != 0 || granted)
    ensures var (s1, q) := Malloc(s, size, granted);
      q != 0 && Middle(s, p, size, Copied(s1, q, p, Kept(s, p, size)), q)
  {
    MallocServes(s, size, granted);
    CopyStep(s, p, size, Malloc(s, size, granted).0, Malloc(s, size, granted).1);
  }

  /** realloc that gets memory: the result is a live block of the new size whose first
      min(old, new) bytes are the old block's, the old block is retired, and every other live
      payload is as it was. */
  lemma ReallocMoves(s: State, p: int, size: int, granted: bool)
    requires ReallocOk(s, p, size, granted) && (Found(s, size) != 0 || granted)
    ensures Moved(s, p, size, Realloc(s, p, size, granted).0, Realloc(s, p, size, granted).1)
    ensures Realloc(s, p, size, granted).1 != 0
  {
    ServedMiddle(s, p, size, granted);
    var (s1, q) := Malloc(s, size, granted);
    FinishMove(s, p, size, Copied(s1, q, p, Kept(s, p, size)), q);
    LiveIsGenuine(s, p);
  }

  /** ... that is, byte i of the result is byte i of the old block, for every i both sizes have. */
  lemma ReallocKeepsByte(s: State, p: int, size: int, granted: bool, i: int)
    requires ReallocOk(s, p, size, granted) && (Found(s, size) != 0 || granted)
    requires 0 <= i < Get(s.tags, p - HEADER).size && i < size
    ensures var (r, q) := Realloc(s, p, size, granted);
      q != 0 && InPayload(r, q - HEADER, q + i) && ByteAt(r.bytes, q + i) == ByteAt(s.bytes, p + i)
  {
    ReallocMoves(s, p, size, granted);
    KeptIsMin(s, p, size);
    MovedByte(s, p, size, Realloc(s, p, size, granted).0, Realloc(s, p, size, granted).1, i);
  }

  lemma MovedByte(s: State, p: int, size: int, r: State, q: int, i: int)
    requires Moved(s, p, size, r, q) && 0 <= i < Kept(s, p, size) && i < size
    ensures InPayload(r, q - HEADER, q + i) && ByteAt(r.bytes, q + i) == ByteAt(s.bytes, p + i)
  {
    assert q <= q + i < q + Kept(s, p, size);
  }

  lemma FinishMove(s: State, p: int, size: int, s2: State, q: int)
    requires Inv(s) && IsLive(s, p - HEADER) && Middle(s, p, size, s2, q)
    ensures Moved(s, p, size, FreePtr(s2, p).0, q)
  {
    LiveIsGenuine(s2, p);
    FreeRetires(s2, p - HEADER);
    MoveStep(s, p, size, s2, q, FreeTag(s2, p - HEADER).0);
  }

  /** What a realloc that is refused does: it still copies, to address 0, and still frees, so
      the old block is gone and NULL is returned. */
  ghost predicate Lost(s: State, p: int, size: int, r: State) {
    && Inv(r) && !IsLive(r, p - HEADER) && size >= 0
    && SameRange(r.bytes, 0, s.bytes, p, Kept(s, p, size))
    && Spared(s, r, p - HEADER)
  }

  lemma ReallocLoses(s: State, p: int, size: int)
    requires ReallocOk(s, p, size, false) && Found(s, size) == 0
    ensures Realloc(s, p, size, false).1 == 0 && Lost(s, p, size, Realloc(s, p, size, false).0)
  {
    LiveIsGenuine(s, p);
    assert Malloc(s, size, false) == (s, 0);
    LowCopy(s, p, size);
    FinishLoss(s, p, size, Copied(s, 0, p, Kept(s, p, size)));
  }

  /** ... that is, byte i of the old block lands at address i. */
  lemma ReallocLosesByte(s: State, p: int, size: int, i: int)
    requires ReallocOk(s, p, size, false) && Found(s, size) == 0
    requires 0 <= i < Get(s.tags, p - HEADER).size && i < size
    ensures var (r, q) := Realloc(s, p, size, false);
      q == 0 && !IsLive(r, p - HEADER) && ByteAt(r.bytes, i) == ByteAt(s.bytes, p + i)
  {
    ReallocLoses(s, p, size);
    KeptIsMin(s, p, size);
    LostByte(s, p, size, Realloc(s, p, size, false).0, i);
  }

  lemma LostByte(s: State, p: int, size: int, r: State, i: int)
    requires Lost(s, p, size, r) && 0 <= i < Kept(s, p, size)
    ensures !IsLive(r, p - HEADER) && ByteAt(r.bytes, i) == ByteAt(s.bytes, p + i)
  {
  }

  /** realloc to size 0 retires the block; realloc of NULL serves a new one; free of NULL does nothing. */
  lemma ReallocEnds(s: State, p: int, size: int, granted: bool)
    requires Inv(s) && IsLive(s, p - HEADER) && 0 < size && size + HEADER < TWO32 && (granted ==> Fits(s, size))
    ensures Realloc(s, p, 0, granted).1 == 0 && Retired(s, p - HEADER, Realloc(s, p, 0, granted).0)
    ensures Found(s, size) != 0 || granted ==>
      Served(s, size, Realloc(s, 0, size, granted).0, Realloc(s, 0, size, granted).1)
    ensures Realloc(s, 0, 0, granted) == (s, 0) && FreePtr(s, 0) == (s, Released.Kept)
  {
    LiveIsGenuine(s, p);
    FreeRetires(s, p - HEADER);
    if Found(s, size) != 0 || granted {
      MallocServes(s, size, granted);
    }
  }

  lemma FinishLoss(s: State, p: int, size: int, s2: State)
    requires Inv(s) && IsLive(s, p - HEADER) && size > 0
    requires Inv(s2) && IsLive(s2, p - HEADER) && Spared(s, s2, 0)
    requires SameRange(s2.bytes, 0, s.bytes, p, Kept(s, p, size))
    ensures Lost(s, p, size, FreePtr(s2, p).0)
  {
    KeptIsMin(s, p, size);
    LiveIsGenuine(s2, p);
    FreeRetires(s2, p - HEADER);
    FreeBytes(s2, p - HEADER);
    LoseStep(s, p, size, s2, FreeTag(s2, p - HEADER).0);
  }

  lemma LowCopy(s: State, p: int, size: int)
    requires Inv(s) && IsLive(s, p - HEADER) && size > 0
    ensures var s2 := Copied(s, 0, p, Kept(s, p, size));
      && Inv(s2) && IsLive(s2, p - HEADER) && Spared(s, s2, 0)
      && SameRange(s2.bytes, 0, s.bytes, p, Kept(s, p, size))
  {
    var n := Kept(s, p, size);
    var s2 := Copied(s, 0, p, n);
    KeptIsMin(s, p, size);
    RealSizeBounds(s, p - HEADER);
    BytesDoNotMatter(s, s2.bytes);
    forall x | 0 <= x < n
      ensures ByteAt(s2.bytes, x) == ByteAt(s.bytes, p + x)
    {
      WordCopyMoves(s.bytes, 0, p, n, x);
    }
    forall a, x | InPayload(s, a, x)
      ensures InPayload(s2, a, x) && ByteAt(s2.bytes, x) == ByteAt(s.bytes, x)
    {
      PayloadIsClear(s, a, x);
      WordCopyMoves(s.bytes, 0, p, n, x);
    }
  }

  lemma LoseStep(s: State, p: int, size: int, s2: State, r: State)
    requires Inv(s) && IsLive(s, p - HEADER) && Tiled(s2) && size >= 0 && Kept(s, p, size) < KHEAP
    requires SameRange(s2.bytes, 0, s.bytes, p, Kept(s, p, size))
    requires SameBytes(s2, r, s2.owner.Keys)
    requires Spared(s, s2, 0) && Retired(s2, p - HEADER, r)
    ensures Lost(s, p, size, r)
  {
    SparedTwice(s, s2, r, p - HEADER);
    forall x | 0 <= x < Kept(s, p, size)
      ensures ByteAt(r.bytes, x) == ByteAt(s.bytes, p + x)
    {
      LowIsClear(s2, x);
      assert ByteAt(r.bytes, x) == ByteAt(s2.bytes, x);
    }
  }

  lemma LowIsClear(s: State, x: int)
    requires Tiled(s) && x < KHEAP
    ensures Outside(s.owner.Keys, x)
  {
    forall h | h in s.owner
      ensures !(h <= x < h + HEADER)
    {
      RealSizeBounds(s, h);
    }
  }

  /** realloc gives the caller a live block with the old bytes exactly when malloc can serve
      the new size. */
  lemma ReallocKeepsIffServed(s: State, p: int, size: int, granted: bool)
    requires ReallocOk(s, p, size, granted)
    ensures var (r, q) := Realloc(s, p, size, granted);
      IsLive(r, q - HEADER) && SameRange(r.bytes, q, s.bytes, p, Kept(s, p, size))
      <==> Found(s, size) != 0 || granted
  {
    if Found(s, size) != 0 || granted {
      ReallocMoves(s, p, size, granted);
      MovedKeeps(s, p, size, Realloc(s, p, size, granted).0, Realloc(s, p, size, granted).1);
    } else {
      ReallocLoses(s, p, size);
      NullIsNotLive(Realloc(s, p, size, granted).0);
    }
  }

  lemma MovedKeeps(s: State, p: int, size: int, r: State, q: int)
    requires Moved(s, p, size, r, q)
    ensures IsLive(r, q - HEADER) && SameRange(r.bytes, q, s.bytes, p, Kept(s, p, size))
  {
  }

  lemma NullIsNotLive(s: State)
    requires Inv(s)
    ensures !IsLive(s, 0 - HEADER)
  {
    if 0 - HEADER in s.owner {
      RealSizeBounds(s, 0 - HEADER);
    }
  }

  // ----- runs

  datatype Op =
    | DoMalloc(size: int, granted: bool)
    | DoFree(p: int)
    | DoRealloc(p: int, size: int, granted: bool)
    | DoWrite(x: int, v: int)

  /** A pointer its owner may give up: NULL or a live block. */
  predicate Owned(s: State, p: int) {
    p == 0 || IsLive(s, p - HEADER)
  }

  /** What callers may do: sizes that do not wrap, pointers they own, writes inside a live payload. */
  ghost predicate Legal(s: State, op: Op) {
    match op
    case DoMalloc(size, granted) => 0 <= size && size + HEADER < TWO32 && (granted ==> Fits(s, size))
    case DoFree(p) => Owned(s, p)
    case DoRealloc(p, size, granted) =>
      && 0 <= size && size + HEADER < TWO32 && (granted ==> Fits(s, size))
      && Owned(s, p)
    case DoWrite(x, v) => exists a :: a in s.owner && InPayload(s, a, x)
  }

  function Step(s: State, op: Op): (r: State)
    requires Shape(s)
    ensures Shape(r)
  {
    match op
    case DoMalloc(size, granted) => Malloc(s, U32(size), granted).0
    case DoFree(p) => FreePtr(s, p).0
    case DoRealloc(p, size, granted) => Realloc(s, p, U32(size), granted).0
    case DoWrite(x, v) => s.(bytes := SetByte(s.bytes, x, v))
  }

  /** The heap before the first malloc. */
  function Init(tags: map<int, Tag>, bytes: map<int, int>): (s: State)
    ensures Shape(s)
  {
    State(tags, bytes, seq(MAXEXP, _ => 0), seq(MAXEXP, _ => 0), KHEAP, map[], map[], seq(MAXEXP, _ => []))
  }

  function Run(s: State, ops: seq<Op>): (r: State)
    requires Shape(s)
    ensures Shape(r)
    decreases ops
  {
    if ops == [] then s else Run(Step(s, ops[0]), ops[1..])
  }

  ghost predicate LegalRun(s: State, ops: seq<Op>)
    requires Shape(s)
    decreases ops
  {
    ops != [] ==> Legal(s, ops[0]) && LegalRun(Step(s, ops[0]), ops[1..])
  }

  lemma InitHolds(tags: map<int, Tag>, bytes: map<int, int>)
    ensures Inv(Init(tags, bytes))
  {
    var s := Init(tags, bytes);
    forall k | 0 <= k < MAXEXP
      ensures Whole(s, k) == {} && ListOk(s.tags, s.owner, s.heads[k], s.lists[k], k)
    {
    }
  }

  lemma FreeStep(s: State, p: int)
    requires Inv(s) && Freeable(s, p)
    ensures Inv(FreePtr(s, p).0)
  {
    if p != 0 && Get(s.tags, U32(p - HEADER)).magic == MAGIC {
      FreedIsLive(s, p);
      FreeHolds(s, U32(p - HEADER));
    }
  }

  lemma StepHolds(s: State, op: Op)
    requires Inv(s) && Legal(s, op)
    ensures Inv(Step(s, op))
  {
    match op
    case DoMalloc(size, granted) => MallocHolds(s, size, granted);
    case DoFree(p) => FreeStep(s, p);
    case DoRealloc(p, size, granted) =>
      if size == 0 {
        FreeStep(s, p);
      } else if p == 0 {
        MallocHolds(s, size, granted);
      } else if Found(s, size) != 0 || granted {
        ReallocMoves(s, p, size, granted);
      } else {
        ReallocLoses(s, p, size);
      }
    case DoWrite(x, v) => BytesDoNotMatter(s, SetByte(s.bytes, x, v));
  }

  lemma {:induction false} RunHolds(s: State, ops: seq<Op>)
    requires Inv(s) && LegalRun(s, ops)
    ensures Inv(Run(s, ops))
    decreases ops
  {
    if ops != [] {
      StepHolds(s, ops[0]);
      RunHolds(Step(s, ops[0]), ops[1..]);
    }
  }

  /** Every state a legal run can reach from an empty heap satisfies the whole invariant. */
  lemma EveryReachableHeap(tags: map<int, Tag>, bytes: map<int, int>, ops: seq<Op>)
    requires LegalRun(Init(tags, bytes), ops)
    ensures Inv(Run(Init(tags, bytes), ops))
  {
    InitHolds(tags, bytes);
    RunHolds(Init(tags, bytes), ops);
  }

  // ----- a payload is its owner's alone

  /** The operation neither gives up block a nor writes byte x. */
  predicate Spares(op: Op, a: int, x: int) {
    match op
    case DoMalloc(_, _) => true
    case DoFree(p) => U32(p - HEADER) != a
    case DoRealloc(p, _, _) => U32(p - HEADER) != a
    case DoWrite(y, _) => y != x
  }

  lemma FreeStepSpares(s: State, p: int, a: int, x: int)
    requires Inv(s) && Freeable(s, p) && U32(p - HEADER) != a && InPayload(s, a, x)
    ensures var r := FreePtr(s, p).0; InPayload(r, a, x) && ByteAt(r.bytes, x) == ByteAt(s.bytes, x)
  {
    if p != 0 && Get(s.tags, U32(p - HEADER)).magic == MAGIC {
      FreedIsLive(s, p);
      FreeSparesPayloads(s, U32(p - HEADER), a, x);
    }
  }

  lemma StepSpares(s: State, op: Op, a: int, x: int)
    requires Inv(s) && Legal(s, op) && InPayload(s, a, x) && Spares(op, a, x)
    ensures InPayload(Step(s, op), a, x) && ByteAt(Step(s, op).bytes, x) == ByteAt(s.bytes, x)
  {
    match op
    case DoMalloc(size, granted) => MallocSparesPayloads(s, size, granted, a, x);
    case DoFree(p) => FreeStepSpares(s, p, a, x);
    case DoRealloc(p, size, granted) =>
      if size == 0 {
        FreeStepSpares(s, p, a, x);
      } else if p == 0 {
        MallocSparesPayloads(s, size, granted, a, x);
      } else {
        LiveIsGenuine(s, p);
        if Found(s, size) != 0 || granted {
          ReallocMoves(s, p, size, granted);
        } else {
          ReallocLoses(s, p, size);
        }
      }
    case DoWrite(y, v) => BytesDoNotMatter(s, SetByte(s.bytes, y, v));
  }

  /** Over any legal run that neither frees block a nor writes byte x of it, the block stays live
      and the byte keeps its value, whatever else is allocated, freed, moved or written. */
  lemma {:induction false} RunSparesPayload(s: State, ops: seq<Op>, a: int, x: int)
    requires Inv(s) && LegalRun(s, ops) && InPayload(s, a, x)
    requires forall i :: 0 <= i < |ops| ==> Spares(ops[i], a, x)
    ensures InPayload(Run(s, ops), a, x) && ByteAt(Run(s, ops).bytes, x) == ByteAt(s.bytes, x)
    decreases ops
  {
    if ops != [] {
      StepHolds(s, ops[0]);
      StepSpares(s, ops[0], a, x);
      RunSparesPayload(Step(s, ops[0]), ops[1..], a, x);
    }
  }
}

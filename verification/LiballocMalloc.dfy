/** malloc and free keep the heap's invariant and do to the blocks what they should. */
module LiballocMalloc {
  import opened Machine
  import opened LiballocModel
  import opened LiballocInvariant
  import opened LiballocLists
  import opened LiballocTiling
  import opened LiballocOps

  // ----- the two operations

  /** The pager can only hand out pages below 4 GB. */
  predicate Fits(s: State, size: int) {
    s.top + PagesFor(size) * PAGE_SIZE <= TWO32
  }

  /** malloc: `granted` is whether the pager maps new pages if it is asked. */
  function Malloc(s: State, size: int, granted: bool): (r: (State, int))
    requires Shape(s) && 0 <= size < TWO32
    ensures Shape(r.0)
  {
    var a := Found(s, size);
    if a == 0 && !granted then (s, 0)
    else
      var tag := if a == 0 then s.top else a;
      var s1 := if a == 0 then NewChunk(s, size) else Take(s, a);
      (Settled(s1, tag, size), U32(tag + HEADER))
  }

  /** The tail of malloc: note the size and, if enough is left over, cut it off. */
  function Settled(s: State, a: int, size: int): (r: State)
    requires Shape(s)
    ensures Shape(r) && r.chunks == s.chunks && r.top == s.top
  {
    var s2 := SetSize(s, a, size);
    if Splits(Get(s2.tags, a).realSize, size) then Split(s2, a) else s2
  }

  /** The first acceptable tag of the one list malloc looks at, or NULL. */
  function Found(s: State, size: int): int
    requires Shape(s) && 0 <= size < TWO32
  {
    FirstFit(s.tags, s.lists[AtLeastMin(GetExp(size))], size)
  }

  /** The 32 bytes at h are no part of a live payload, so no caller writes them. */
  ghost predicate ClearOfLive(s: State, h: int) {
    forall a :: IsLive(s, a) ==> h <= a || a + HEADER + Get(s.tags, a).size <= h
  }

  /** The pointers free can be given: NULL, a live block, or an address outside all live payloads
      with no magic number under it. */
  ghost predicate Freeable(s: State, p: int) {
    || p == 0
    || IsLive(s, p - HEADER)
    || (Get(s.tags, U32(p - HEADER)).magic != MAGIC && ClearOfLive(s, U32(p - HEADER)))
  }

  lemma FreedIsLive(s: State, p: int)
    requires Inv(s) && Freeable(s, p) && p != 0 && Get(s.tags, U32(p - HEADER)).magic == MAGIC
    ensures IsLive(s, U32(p - HEADER)) && U32(p - HEADER) == p - HEADER
  {
    RealSizeBounds(s, p - HEADER);
  }

  /** The body of free once the tag is known to be genuine. */
  function FreeTag(s: State, a: int): (r: (State, Released))
    requires Shape(s)
    ensures Shape(r.0)
  {
    var (s1, b) := MergeLeft(s, a);
    File(MergeRight(s1, b), b)
  }

  function FreePtr(s: State, p: int): (r: (State, Released))
    requires Shape(s)
    ensures Shape(r.0)
  {
    if p == 0 || Get(s.tags, U32(p - HEADER)).magic != MAGIC then (s, Kept)
    else FreeTag(s, U32(p - HEADER))
  }

  // ----- malloc

  /** A tag malloc's search accepts. */
  predicate Accepts(tags: map<int, Tag>, a: int, size: int) {
    U32(Get(tags, a).realSize - HEADER) >= U32(size + HEADER)
  }

  /** The i-th tag is the first acceptable one. */
  predicate FirstAt(tags: map<int, Tag>, l: seq<int>, size: int, i: int) {
    && 0 <= i < |l| && Accepts(tags, l[i], size)
    && forall j :: 0 <= j < i ==> !Accepts(tags, l[j], size)
  }

  lemma {:induction false} FirstFitSpec(tags: map<int, Tag>, l: seq<int>, size: int)
    requires 0 !in l
    ensures FirstFit(tags, l, size) == 0 <==> forall x :: x in l ==> !Accepts(tags, x, size)
    ensures FirstFit(tags, l, size) != 0 ==>
      exists i :: FirstAt(tags, l, size, i) && l[i] == FirstFit(tags, l, size)
  {
    if l != [] {
      if Accepts(tags, l[0], size) {
        assert FirstAt(tags, l, size, 0);
      } else {
        FirstFitSpec(tags, l[1..], size);
        if FirstFit(tags, l, size) != 0 {
          var i :| FirstAt(tags, l[1..], size, i) && l[1..][i] == FirstFit(tags, l[1..], size);
          assert FirstAt(tags, l, size, i + 1);
        }
      }
    }
  }

  /** The tag the search finds is free, filed under k, and big enough. */
  lemma FirstFitIsFree(s: State, k: int, size: int)
    requires Inv(s) && 0 <= k < MAXEXP && 0 <= size && size + HEADER < TWO32
    ensures var a := FirstFit(s.tags, s.lists[k], size);
      a != 0 ==> IsFree(s, a) && Get(s.tags, a).index == k && Get(s.tags, a).realSize >= size + 2 * HEADER
  {
    var l := s.lists[k];
    assert ListOk(s.tags, s.owner, s.heads[k], l, k);
    forall x | x in l
      ensures x in s.owner && Get(s.tags, x).index == k && x != 0
    {
      var i :| 0 <= i < |l| && l[i] == x;
      assert NodeOk(s.tags, s.owner, l, i, k);
      assert TagListed(s, x);
    }
    FirstFitSpec(s.tags, l, size);
    var a := FirstFit(s.tags, l, size);
    if a != 0 {
      RealSizeBounds(s, a);
    }
  }

  lemma RealSizeBounds(s: State, a: int)
    requires Tiled(s) && a in s.owner
    ensures a in s.tags && TagTiled(s, a)
    ensures HEADER <= s.tags[a].realSize && KHEAP <= a && a + s.tags[a].realSize <= s.top <= TWO32
    ensures s.tags[a].realSize < 0x4000_0000
  {
    assert TagTiled(s, a) && ChunkOk(s, s.owner[a]);
  }

  lemma SetSizeInHand(s: State, a: int, size: int)
    requires InHand(s, a)
    ensures InHand(SetSize(s, a, size), a)
    ensures Lonely(s, a) ==> Lonely(SetSize(s, a, size), a)
    ensures Get(SetSize(s, a, size).tags, a) == Get(s.tags, a).(size := size)
    ensures Blocks(SetSize(s, a, size)) == Blocks(s)[a := Live(Get(s.tags, a).realSize, size)]
  {
    var r := SetSize(s, a, size);
    assert forall b :: b in s.owner ==> TagListed(s, b) && b in r.tags;
    assert TagListed(s, a);
    Relisted(s, r);
    SameTilingTiled(s, r);
    forall b, k | 0 <= k
      ensures CountsAt(s, b, k) == CountsAt(r, b, k)
    {
    }
    Recounted(s, r);
    assert Coalesced(r);
  }

  lemma NewChunkInHand(s: State, size: int)
    requires Inv(s) && Fits(s, size) && 0 <= size && size + HEADER < TWO32
    ensures s.top !in s.owner
    ensures InHand(NewChunk(s, size), s.top) && Lonely(NewChunk(s, size), s.top)
    ensures Get(NewChunk(s, size).tags, s.top) == Tag(MAGIC, size, PagesFor(size) * PAGE_SIZE, -1, 0, 0, 0, 0)
    ensures PagesFor(size) * PAGE_SIZE >= size + HEADER
    ensures Blocks(NewChunk(s, size)) == Blocks(s)[s.top := Live(PagesFor(size) * PAGE_SIZE, size)]
  {
    var r := NewChunk(s, size);
    NewChunkTiled(s, size);
    NullIsNoTag(r);
    assert forall b :: b in s.owner ==> TagListed(s, b);
    forall b | b in r.owner
      ensures b in r.tags && KeepsLinks(s, r.tags[b], b)
    {
    }
    Relisted(s, r);
    forall b, k | 0 <= k
      ensures CountsAt(s, b, k) == CountsAt(r, b, k)
    {
      assert b in s.owner ==> b in r.tags;
    }
    Recounted(s, r);
    ExtendedCoalesced(s, r, size);
    forall b | b in s.owner
      ensures TagSized(Get(r.tags, b)) && Blocks(r)[b] == Blocks(s)[b]
    {
      assert b in r.tags && b != 0;
    }
  }

  lemma ExtendedCoalesced(s: State, r: State, size: int)
    requires Inv(s) && s.top !in s.owner && Tiled(r) && IsExtended(s, r, PagesFor(size) * PAGE_SIZE)
    requires Get(r.tags, s.top).index == -1
    ensures Coalesced(r)
  {
    forall b | b in r.owner && IsFree(r, b) && Get(r.tags, b).splitRight != 0
      ensures !IsFree(r, Get(r.tags, b).splitRight)
    {
      assert b in r.tags && TagTiled(r, b);
      assert Get(r.tags, b).splitRight in r.tags;
    }
  }

  // ----- split_tag

  /** The state between carving and insertion, with the new tag's index settled as "none". */
  function Carving(s: State, a: int): State
    requires Shape(s)
  {
    var c := Carve(s, a);
    var n := CarvePoint(s, a);
    c.(tags := c.tags[n := Get(c.tags, n).(index := -1)])
  }

  predicate CanSplit(s: State, a: int) {
    && IsLive(s, a) && Lonely(s, a)
    && Get(s.tags, a).size >= 0
    && Get(s.tags, a).size + 2 * HEADER <= Get(s.tags, a).realSize
  }

  lemma InsertIgnoresIndex(s: State, a: int, k: int, i: int)
    requires Shape(s) && 0 <= k < MAXEXP && s.heads[k] != a && a in s.tags
    ensures Insert(s.(tags := s.tags[a := s.tags[a].(index := i)]), a, k) == Insert(s, a, k)
  {
    var q := s.(tags := s.tags[a := s.tags[a].(index := i)]);
    assert Insert(q, a, k).tags == Insert(s, a, k).tags;
  }

  /** r is s with the tail of a carved off as an unlisted tag. */
  ghost predicate IsCarving(s: State, r: State, a: int) {
    && CanCarve(s, a) && CarvePoint(s, a) !in s.owner && CarvePoint(s, a) > 0
    && Shape(r) && Tiled(r)
    && r.owner == s.owner[CarvePoint(s, a) := s.owner[a]]
    && r.heads == s.heads && r.lists == s.lists && r.complete == s.complete
    && forall b {:trigger b in r.tags} :: b in r.owner ==> b in r.tags && r.tags[b] == CarvingTag(s, a, b)
  }

  function CarvingTag(s: State, a: int, b: int): Tag {
    if b == CarvePoint(s, a) then Carved(s, a, b).(index := -1) else Carved(s, a, b)
  }

  lemma CarvingIsCarving(s: State, a: int)
    requires InHand(s, a) && CanSplit(s, a)
    ensures IsCarving(s, Carving(s, a), a)
    ensures IsCarved(s, Carve(s, a), a)
  {
    assert TagTiled(s, a);
    CarveEffect(s, a);
    CarvePointFresh(s, a);
    var c := Carve(s, a);
    CarvedTiled(s, c, a);
    var n := CarvePoint(s, a);
    var r := Carving(s, a);
    assert n in c.tags && a in c.tags;
    forall b | b in c.owner
      ensures b in r.tags && SamePlace(Get(c.tags, b), r.tags[b])
    {
      assert b in c.tags;
    }
    SameTilingTiled(c, r);
    forall b | b in r.owner
      ensures b in r.tags && r.tags[b] == CarvingTag(s, a, b)
    {
      assert b in c.tags;
    }
  }

  lemma CarvingInHand(s: State, r: State, a: int)
    requires InHand(s, a) && CanSplit(s, a) && IsCarving(s, r, a)
    ensures InHand(r, CarvePoint(s, a)) && Lonely(r, CarvePoint(s, a))
  {
    var n := CarvePoint(s, a);
    assert n in r.tags && a in r.tags;
    NullIsNoTag(s);
    forall b | b in r.owner
      ensures b in r.tags && KeepsLinks(s, r.tags[b], b)
      ensures b != n ==> TagSized(r.tags[b])
    {
      assert b in r.tags;
    }
    Relisted(s, r);
    CarvingCounted(s, r, a);
    CarvingCoalesced(s, r, a);
  }

  lemma CarvingCounted(s: State, r: State, a: int)
    requires InHand(s, a) && CanSplit(s, a) && IsCarving(s, r, a)
    ensures Counted(r)
  {
    forall b, k | 0 <= k
      ensures CountsAt(s, b, k) == CountsAt(r, b, k)
    {
      if b in r.owner {
        assert b in r.tags;
        assert b in s.owner ==> TagTiled(s, b);
      }
    }
    Recounted(s, r);
  }

  lemma CarvingCoalesced(s: State, r: State, a: int)
    requires InHand(s, a) && CanSplit(s, a) && IsCarving(s, r, a)
    ensures Coalesced(r) && Lonely(r, CarvePoint(s, a))
  {
    var n := CarvePoint(s, a);
    assert n in r.tags && a in r.tags;
    NullIsNoTag(s);
    forall b | b in r.owner && IsFree(r, b) && Get(r.tags, b).splitRight != 0
      ensures !IsFree(r, Get(r.tags, b).splitRight)
    {
      assert b in r.tags && TagTiled(r, b);
      assert Get(r.tags, b).splitRight in r.tags;
      assert IsFree(s, b);
    }
    var right := Get(s.tags, a).splitRight;
    assert right in s.owner ==> right in r.tags;
  }

  /** The block of a cut after `size` bytes. */
  function CutBlocks(m: map<int, Block>, a: int, realSize: int, size: int): map<int, Block> {
    m[a := Live(size + HEADER, size)][a + HEADER + size := Free(realSize - HEADER - size)]
  }

  lemma CarvingBlocks(s: State, r: State, a: int)
    requires InHand(s, a) && IsCarving(s, r, a)
    ensures var t := Get(s.tags, a);
      var n := CarvePoint(s, a);
      Blocks(r)[n := Free(t.realSize - HEADER - t.size)] == CutBlocks(Blocks(s), a, t.realSize, t.size)
  {
    var n := CarvePoint(s, a);
    forall b | b in r.owner
      ensures Blocks(r)[b] == BlockOf(CarvingTag(s, a, b))
    {
      assert b in r.tags;
    }
  }

  lemma SplitIsInsert(s: State, a: int)
    requires InHand(s, a) && CanSplit(s, a)
    ensures var r := Carving(s, a);
      var n := CarvePoint(s, a);
      var rest := Get(s.tags, a).realSize - HEADER - Get(s.tags, a).size;
      && IsCarving(s, r, a)
      && InHand(r, n) && Lonely(r, n)
      && Get(r.tags, n).realSize == rest && !IsWhole(Get(r.tags, n))
      && Split(s, a) == Insert(r, n, ClassOf(rest))
  {
    var c := Carve(s, a);
    var n := CarvePoint(s, a);
    CarvingIsCarving(s, a);
    var r := Carving(s, a);
    CarvingInHand(s, r, a);
    assert n in c.tags && a in c.tags && n in r.tags;
    var k := ClassOf(Get(c.tags, n).realSize);
    HeadNotInHand(r, n, k);
    InsertIgnoresIndex(c, n, k, -1);
    NullIsNoTag(s);
  }

  lemma SplitHolds(s: State, a: int)
    requires InHand(s, a) && CanSplit(s, a)
    ensures CarvePoint(s, a) !in s.owner
    ensures Inv(Split(s, a))
    ensures Blocks(Split(s, a)) == CutBlocks(Blocks(s), a, Get(s.tags, a).realSize, Get(s.tags, a).size)
  {
    SplitIsInsert(s, a);
    var r := Carving(s, a);
    InsertHolds(r, r, CarvePoint(s, a));
    CarvingBlocks(s, r, a);
  }

  lemma LiveInHand(s: State, a: int)
    requires Inv(s) && IsLive(s, a)
    ensures InHand(s, a)
  {
    NullIsNoTag(s);
  }

  // ----- what malloc does

  /** malloc's effect on the blocks once block a of `realSize` bytes has been chosen. */
  function Settle(m: map<int, Block>, a: int, realSize: int, size: int): map<int, Block> {
    if realSize - size - 2 * HEADER >= 256 then CutBlocks(m, a, realSize, size)
    else m[a := Live(realSize, size)]
  }

  /** The unsigned and signed tests at the split amount to "at least 256 bytes remain". */
  lemma SplitsIffRoom(realSize: int, size: int)
    requires 0 <= size && size + HEADER <= realSize < 0x8000_0000
    ensures Splits(realSize, size) <==> realSize - size - 2 * HEADER >= 256
  {
    var d := realSize - size - 2 * HEADER;
    assert d < 0 ==> U32(d) == d + TWO32;
  }

  lemma SizedInHand(s: State, a: int, size: int)
    requires InHand(s, a) && Lonely(s, a)
    requires 0 <= size && size + HEADER <= Get(s.tags, a).realSize
    ensures var s2 := SetSize(s, a, size);
      && InHand(s2, a) && Lonely(s2, a)
      && Get(s2.tags, a) == Get(s.tags, a).(size := size)
      && (Splits(Get(s2.tags, a).realSize, size) <==> Get(s.tags, a).realSize - size - 2 * HEADER >= 256)
  {
    RealSizeBounds(s, a);
    SetSizeInHand(s, a, size);
    SplitsIffRoom(Get(s.tags, a).realSize, size);
  }

  lemma SettleOver(m: map<int, Block>, a: int, x: Block, realSize: int, size: int)
    ensures Settle(m[a := x], a, realSize, size) == Settle(m, a, realSize, size)
  {
    var n := a + HEADER + size;
    var cut := Free(realSize - HEADER - size);
    assert m[a := x][a := Live(size + HEADER, size)] == m[a := Live(size + HEADER, size)];
    assert m[a := x][a := Live(realSize, size)] == m[a := Live(realSize, size)];
  }

  /** Cutting or not, a tag in hand that is big enough ends up live and well sized. */
  lemma SettleHolds(s: State, a: int, size: int)
    requires InHand(s, a) && Lonely(s, a)
    requires 0 <= size && size + HEADER <= Get(s.tags, a).realSize
    ensures Inv(Settled(s, a, size))
    ensures Blocks(Settled(s, a, size)) == Settle(Blocks(s), a, Get(s.tags, a).realSize, size)
    ensures a in Settled(s, a, size).owner
  {
    SizedInHand(s, a, size);
    SetSizeInHand(s, a, size);
    var s2 := SetSize(s, a, size);
    SettleOver(Blocks(s), a, Live(Get(s.tags, a).realSize, size), Get(s.tags, a).realSize, size);
    if Splits(Get(s2.tags, a).realSize, size) {
      SplitHolds(s2, a);
    } else {
      InHandSized(s2, a);
    }
    assert a in Blocks(Settled(s, a, size));
  }

  lemma InHandSized(s: State, a: int)
    requires InHand(s, a) && TagSized(Get(s.tags, a))
    ensures Inv(s)
  {
  }

  /** Where malloc cuts from, and how many bytes there are: the block found, or a fresh chunk. */
  function Source(s: State, size: int): (int, int)
    requires Shape(s) && 0 <= size < TWO32
  {
    var found := Found(s, size);
    if found != 0 then (found, Get(s.tags, found).realSize) else (s.top, PagesFor(size) * PAGE_SIZE)
  }

  lemma TakenSource(s: State, size: int)
    requires Inv(s) && 0 <= size && size + HEADER < TWO32 && Found(s, size) != 0
    ensures var a := Found(s, size);
      && InHand(Take(s, a), a) && Lonely(Take(s, a), a)
      && Get(Take(s, a).tags, a).realSize == Get(s.tags, a).realSize >= size + HEADER
      && KHEAP <= a < TWO32 - HEADER && IsFree(s, a) && a != s.top
      && Blocks(Take(s, a)) == Blocks(s)[a := BlockOf(Get(s.tags, a).(index := -1))]
  {
    var a := Found(s, size);
    FirstFitIsFree(s, AtLeastMin(GetExp(size)), size);
    TakeInHand(s, a);
    RealSizeBounds(s, a);
    assert a in Take(s, a).tags;
  }

  /** malloc keeps the invariant. It fails, changing nothing, exactly when no listed tag is
      acceptable and the pager refuses. Otherwise it settles the block found or a fresh chunk. */
  ghost predicate MallocEffect(s: State, size: int, granted: bool, r: State, p: int)
    requires Shape(s) && 0 <= size < TWO32
  {
    && Inv(r)
    && (p == 0 <==> Found(s, size) == 0 && !granted)
    && (p == 0 ==> r == s)
    && (p != 0 ==>
          var (a, realSize) := Source(s, size);
          && p == a + HEADER
          && Blocks(r) == Settle(Blocks(s), a, realSize, size))
  }

  lemma MallocHolds(s: State, size: int, granted: bool)
    requires Inv(s) && 0 <= size && size + HEADER < TWO32
    requires granted ==> Fits(s, size)
    ensures MallocEffect(s, size, granted, Malloc(s, size, granted).0, Malloc(s, size, granted).1)
  {
    var a := Found(s, size);
    if a != 0 {
      TakenSource(s, size);
      SettleHolds(Take(s, a), a, size);
      SettleOver(Blocks(s), a, BlockOf(Get(s.tags, a).(index := -1)), Get(s.tags, a).realSize, size);
    } else if granted {
      NewChunkInHand(s, size);
      SettleHolds(NewChunk(s, size), s.top, size);
      SettleOver(Blocks(s), s.top, Live(PagesFor(size) * PAGE_SIZE, size), PagesFor(size) * PAGE_SIZE, size);
    }
  }

  /** malloc's traffic with the pager: at most one chunk of the requested pages, at the top. */
  lemma MallocChunks(s: State, size: int, granted: bool)
    requires Inv(s) && 0 <= size && size + HEADER < TWO32
    requires granted ==> Fits(s, size)
    ensures var (r, p) := Malloc(s, size, granted);
      var len := PagesFor(size) * PAGE_SIZE;
      if granted && Found(s, size) == 0 then r.chunks == s.chunks[s.top := len] && r.top == s.top + len
      else r.chunks == s.chunks && r.top == s.top
  {
    FirstFitIsFree(s, AtLeastMin(GetExp(size)), size);
  }

  /** The source is big enough, and free or beyond every block. */
  lemma SourceIsFree(s: State, size: int, granted: bool)
    requires Inv(s) && 0 <= size && size + HEADER < TWO32
    requires granted ==> Fits(s, size)
    ensures var (a, realSize) := Source(s, size);
      && size + HEADER <= realSize && KHEAP <= a
      && (Found(s, size) != 0 || granted ==> a + realSize <= TWO32)
      && (if Found(s, size) != 0 then IsFree(s, a) && Blocks(s)[a] == Free(realSize) else a == s.top && a !in s.owner)
      && forall b :: IsLive(s, b) ==> b + Get(s.tags, b).realSize <= a || a + realSize <= b
  {
    var k := AtLeastMin(GetExp(size));
    FirstFitIsFree(s, k, size);
    var (a, realSize) := Source(s, size);
    if Found(s, size) != 0 {
      RealSizeBounds(s, a);
    }
    forall b | b in s.owner
      ensures b < s.top && b + Get(s.tags, b).realSize <= s.top
    {
      RealSizeBounds(s, b);
    }
  }

  // ----- sizes that wrap

  /** Adding the header to the size wraps to k bytes. */
  predicate Wraps(size: int, k: int) {
    0 <= size < TWO32 && size + HEADER == TWO32 + k && 0 <= k
  }

  /** The list of such a size is empty: no tag of the heap's window is that big. */
  lemma WrapFindsNothing(s: State, size: int, k: int)
    requires Inv(s) && Wraps(size, k)
    ensures Found(s, size) == 0
  {
    Pow2Of32();
    assert Pow2(32) == 2 * Pow2(31);
    Log2Is31(size);
    var l := s.lists[31];
    var a := FirstFit(s.tags, l, size);
    if a != 0 {
      ListedUnderClass(s, a, 31);
      RealSizeBounds(s, a);
      TooSmallFor31(s.tags[a].realSize);
      assert false;
    }
  }

  lemma ListedUnderClass(s: State, a: int, k: int)
    requires Inv(s) && 0 <= k < MAXEXP && a in s.lists[k]
    ensures a in s.owner && k == ClassOf(Get(s.tags, a).realSize)
  {
    var l := s.lists[k];
    var i :| 0 <= i < |l| && l[i] == a;
    assert ListOk(s.tags, s.owner, s.heads[k], l, k);
    assert NodeOk(s.tags, s.owner, l, i, k);
    NullIsNoTag(s);
    assert TagSized(Get(s.tags, a));
  }

  lemma Log2Is31(n: int)
    requires Pow2(31) <= n < TWO32
    ensures GetExp(n) == 31
  {
    Pow2Of32();
    if n >= 256 && GetExp(n) < 31 {
      Pow2Monotone(GetExp(n) + 1, 31);
    }
  }

  lemma TooSmallFor31(realSize: int)
    requires HEADER <= realSize < 0x4000_0000
    ensures ClassOf(realSize) < 31
  {
    Pow2Of32();
    assert Pow2(32) == 2 * Pow2(31);
  }

  /** The chunk made for it is cut inside its own header, so its tag is left with k < 32 bytes. */
  lemma WrapCutsHeader(s: State, size: int, k: int)
    requires Shape(s) && Wraps(size, k) && KHEAP <= s.top && s.top + MIN_PAGES * PAGE_SIZE <= TWO32
    ensures var r := Settled(NewChunk(s, size), s.top, size);
      s.top in r.owner && Get(r.tags, s.top).realSize == k
  {
    var a, len := s.top, MIN_PAGES * PAGE_SIZE;
    assert U32(size + HEADER) == k;
    assert PagesFor(size) == MIN_PAGES;
    var q := SetSize(NewChunk(s, size), a, size);
    assert Get(q.tags, a) == Tag(MAGIC, size, len, -1, 0, 0, 0, 0);
    assert U32(len - size - 2 * HEADER) == len - HEADER - k;
    assert Splits(len, size);
    WrapCarve(q, a, size, k);
  }

  lemma WrapCarve(q: State, a: int, size: int, k: int)
    requires Shape(q) && Wraps(size, k) && 0 < a && a + MIN_PAGES * PAGE_SIZE <= TWO32 && a in q.owner
    requires Get(q.tags, a) == Tag(MAGIC, size, MIN_PAGES * PAGE_SIZE, -1, 0, 0, 0, 0)
    ensures a in Split(q, a).owner && Get(Split(q, a).tags, a).realSize == k
  {
    var len := MIN_PAGES * PAGE_SIZE;
    var c := Carve(q, a);
    assert U32(a + HEADER + size) == a + k;
    assert U32(len - HEADER - size) == len - k;
    assert Get(c.tags, a).realSize == k && a in c.owner;
    var n := Get(c.tags, a).splitRight;
    InsertKeepsSize(c, n, ClassOf(Get(c.tags, n).realSize), a);
  }

  lemma InsertKeepsSize(s: State, n: int, k: int, a: int)
    requires Shape(s) && 0 <= k < MAXEXP
    ensures Get(Insert(s, n, k).tags, a).realSize == Get(s.tags, a).realSize && Insert(s, n, k).owner == s.owner
  {
  }

  /** With pages granted and room for them, malloc leaves a whole heap exactly when adding the header
      to the size does not wrap. */
  lemma MallocIntactIff(s: State, size: int)
    requires Inv(s) && 0 <= size < TWO32 && Fits(s, size)
    ensures Inv(Malloc(s, size, true).0) <==> size + HEADER < TWO32
  {
    if size + HEADER < TWO32 {
      MallocHolds(s, size, true);
    } else {
      var k := size + HEADER - TWO32;
      WrapFindsNothing(s, size, k);
      WrapCutsHeader(s, size, k);
      assert !TagPlaced(Malloc(s, size, true).0, s.top);
      assert !TagTiled(Malloc(s, size, true).0, s.top);
    }
  }

  // ----- what free does

  function FreeOnly(s: State, a: int): set<int> {
    if IsFree(s, a) then {a} else {}
  }

  /** The free neighbours that free merges with a. */
  function FreeNeighbours(s: State, a: int): set<int> {
    FreeOnly(s, Get(s.tags, a).splitLeft) + FreeOnly(s, Get(s.tags, a).splitRight)
  }

  function MergedStart(s: State, a: int): int {
    if IsFree(s, Get(s.tags, a).splitLeft) then Get(s.tags, a).splitLeft else a
  }

  function MergedSize(s: State, a: int): int {
    var t := Get(s.tags, a);
    t.realSize
    + (if IsFree(s, t.splitLeft) then Get(s.tags, t.splitLeft).realSize else 0)
    + (if IsFree(s, t.splitRight) then Get(s.tags, t.splitRight).realSize else 0)
  }

  /** free keeps the invariant. The block and its free neighbours become one free block, or,
      when that is a complete chunk and its class already has MAXCOMPLETE of them standing by,
      the chunk leaves with its own base and length. */
  ghost predicate FreeEffect(s: State, a: int, r: State, rel: Released)
    requires Shape(s)
  {
    var b := MergedStart(s, a);
    var n := MergedSize(s, a);
    && Inv(r)
    && r.top == s.top
    && (rel.Kept? ==>
          && r.chunks == s.chunks
          && Blocks(r) == (Blocks(s) - FreeNeighbours(s, a) - {a})[b := Free(n)])
    && (rel.Chunk? ==>
          && Blocks(r) == Blocks(s) - FreeNeighbours(s, a) - {a}
          && rel.base == b && b in s.chunks && s.chunks[b] == rel.pages * PAGE_SIZE == n
          && r.chunks == s.chunks - {b})
    && (rel.Chunk? <==> b in s.chunks && s.chunks[b] == n && s.complete[ClassOf(n)] == MAXCOMPLETE)
  }

  lemma FreeHolds(s: State, a: int)
    requires Inv(s) && IsLive(s, a)
    ensures FreeEffect(s, a, FreeTag(s, a).0, FreeTag(s, a).1)
  {
    FreeMerges(s, a);
    var (s1, b) := MergeLeft(s, a);
    var h := MergeRight(s1, b);
    FileHolds(h, b);
    WholeIsChunk(h, b);
    FileBlocks(Blocks(h), Blocks(s), FreeNeighbours(s, a), a, b, MergedSize(s, a));
    FileKeepsChunks(h, b);
  }

  lemma FileKeepsChunks(s: State, a: int)
    requires Shape(s)
    ensures File(s, a).1.Kept? ==> File(s, a).0.chunks == s.chunks
    ensures File(s, a).0.top == s.top
  {
  }

  lemma FileBlocks(h: map<int, Block>, m: map<int, Block>, gone: set<int>, a: int, b: int, n: int)
    requires h - {b} == m - gone - {a, b} && (b == a || b in gone)
    ensures h[b := Free(n)] == (m - gone - {a})[b := Free(n)]
    ensures h - {b} == m - gone - {a}
  {
    assert h[b := Free(n)] == (h - {b})[b := Free(n)];
    assert m - gone - {a, b} == m - gone - {a};
  }

  lemma MergeTwice(m: map<int, Block>, m1: map<int, Block>, m2: map<int, Block>, a: int, b: int,
                   left: set<int>, right: set<int>)
    requires m1 - {b} == m - left - {a, b}
    requires m2 - {b} == m1 - right - {b, b}
    ensures m2 - {b} == m - (left + right) - {a, b}
  {
    assert m1 - right - {b, b} == m1 - {b} - right;
    assert m - left - {a, b} - right == m - (left + right) - {a, b};
  }

  /** The state before free's last step. */
  lemma FreeMerges(s: State, a: int)
    requires Inv(s) && IsLive(s, a)
    ensures InHand(s, a)
    ensures var (s1, b) := MergeLeft(s, a);
      && b == MergedStart(s, a) && (b == a || b in FreeNeighbours(s, a))
      && var h := MergeRight(s1, b);
      && InHand(h, b) && Lonely(h, b)
      && h.chunks == s.chunks && h.complete == s.complete && h.top == s.top
      && Get(h.tags, b).realSize == MergedSize(s, a)
      && Blocks(h) - {b} == Blocks(s) - FreeNeighbours(s, a) - {a, b}
  {
    LiveInHand(s, a);
    MergeLeftHolds(s, a);
    MergeLeftBlocks(s, a);
    var (s1, b) := MergeLeft(s, a);
    MergeRightHolds(s1, b);
    MergeRightBlocks(s1, b);
    RightUntouched(s, a);
    var left := FreeOnly(s, Get(s.tags, a).splitLeft);
    var right := FreeOnly(s, Get(s.tags, a).splitRight);
    MergeTwice(Blocks(s), Blocks(s1), Blocks(MergeRight(s1, b)), a, b, left, right);
  }

  lemma MergeLeftBlocks(s: State, a: int)
    requires InHand(s, a)
    ensures var (r, b) := MergeLeft(s, a);
      Blocks(r) - {b} == Blocks(s) - FreeOnly(s, Get(s.tags, a).splitLeft) - {a, b}
  {
    MergeLeftHolds(s, a);
    if !IsFree(s, Get(s.tags, a).splitLeft) {
      assert Blocks(s) - {} - {a, a} == Blocks(s) - {a};
    }
  }

  lemma MergeRightBlocks(s: State, a: int)
    requires InHand(s, a) && !IsFree(s, Get(s.tags, a).splitLeft)
    ensures Blocks(MergeRight(s, a)) - {a} == Blocks(s) - FreeOnly(s, Get(s.tags, a).splitRight) - {a, a}
  {
    MergeRightHolds(s, a);
    if !IsFree(s, Get(s.tags, a).splitRight) {
      assert Blocks(s) - {} - {a, a} == Blocks(s) - {a};
    }
  }

  /** Merging to the left does not touch what is on the right. */
  lemma RightUntouched(s: State, a: int)
    requires InHand(s, a)
    ensures var s1 := MergeLeft(s, a).0;
      var right := Get(s.tags, a).splitRight;
      && (IsFree(s1, right) <==> IsFree(s, right))
      && (IsFree(s, right) ==> Get(s1.tags, right).realSize == Get(s.tags, right).realSize)
  {
    var left := Get(s.tags, a).splitLeft;
    var right := Get(s.tags, a).splitRight;
    NeighbourIndex(s, a);
    if IsFree(s, left) {
      MergeLeftIsMerged(s, a);
      assert TagTiled(s, a);
      assert right != 0 ==> right in MergeLeft(s, a).0.tags;
    }
  }

  /** A tag is complete exactly when it is as long as the chunk that starts there. */
  lemma WholeIsChunk(s: State, a: int)
    requires Tiled(s) && a in s.owner
    ensures IsWhole(Get(s.tags, a)) <==> a in s.chunks && s.chunks[a] == Get(s.tags, a).realSize
  {
    assert TagTiled(s, a);
    if a in s.chunks {
      assert ChunkOk(s, a);
    }
  }
}

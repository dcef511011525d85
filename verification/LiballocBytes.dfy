/** The bytes of every live payload survive malloc, free and realloc. */
module LiballocBytes {
  import opened Machine
  import opened LiballocModel
  import opened LiballocInvariant
  import opened LiballocLists
  import opened LiballocTiling
  import opened LiballocOps
  import opened LiballocMalloc

  const UNKNOWN: int := -1

  function ByteAt(bytes: map<int, int>, x: int): int {
    if x in bytes then bytes[x] else UNKNOWN
  }

  /** x lies under none of these headers. */
  predicate Outside(hs: set<int>, x: int) {
    forall h :: h in hs ==> !(h <= x < h + HEADER)
  }

  /** The two states agree on all bytes that lie under none of these headers. */
  ghost predicate SameBytes(s: State, r: State, hs: set<int>) {
    forall x :: Outside(hs, x) ==> ByteAt(r.bytes, x) == ByteAt(s.bytes, x)
  }

  // ----- headers are bytes

  /** A header that is stored takes the place of the 32 bytes under it, and of no other. */
  lemma StoreWipes(s: State, a: int, t: Tag, x: int)
    ensures ByteAt(Put(s, a, t).bytes, x) == if a <= x < a + 32 then UNKNOWN else ByteAt(s.bytes, x)
  {
  }

  lemma InsertWipes(s: State, a: int, k: int, x: int)
    requires Shape(s) && 0 <= k < MAXEXP && ByteAt(s.bytes, x) == UNKNOWN
    ensures ByteAt(Insert(s, a, k).bytes, x) == UNKNOWN
  {
  }

  lemma SplitWipes(s: State, a: int, x: int)
    requires Shape(s) && ByteAt(s.bytes, x) == UNKNOWN
    ensures ByteAt(Split(s, a).bytes, x) == UNKNOWN
  {
    var c := Carve(s, a);
    assert ByteAt(CarveChild(s, a).bytes, x) == UNKNOWN;
    var n := Get(c.tags, a).splitRight;
    InsertWipes(c, n, ClassOf(Get(c.tags, n).realSize), x);
  }

  /** Of a block just served, the 32 bytes before its payload hold its header and no caller's bytes. */
  lemma MallocWipes(s: State, size: int, granted: bool, x: int)
    requires Inv(s) && 0 <= size && size + HEADER < TWO32 && (granted ==> Fits(s, size))
    ensures var (r, p) := Malloc(s, size, granted);
      p != 0 && p - 32 <= x < p ==> ByteAt(r.bytes, x) == UNKNOWN
  {
    var a := Found(s, size);
    if a != 0 || granted {
      MallocHolds(s, size, granted);
      var tag := if a == 0 then s.top else a;
      var s1 := if a == 0 then NewChunk(s, size) else Take(s, a);
      if tag <= x < tag + 32 {
        StoreWipes(s1, tag, Get(s1.tags, tag).(size := size), x);
        SplitWipes(SetSize(s1, tag, size), tag, x);
      }
    }
  }

  // ----- tag operations write only headers

  lemma RemoveBytes(s: State, a: int, hs: set<int>)
    requires Listed(s) && IsFree(s, a) && s.owner.Keys <= hs
    ensures SameBytes(s, Remove(s, a), hs)
  {
    var _ := LinksOf(s, a);
  }

  lemma InsertBytes(s: State, a: int, k: int, hs: set<int>)
    requires Listed(s) && 0 <= k < MAXEXP && s.owner.Keys <= hs && a in hs
    ensures SameBytes(s, Insert(s, a, k), hs)
  {
    assert ListOk(s.tags, s.owner, s.heads[k], s.lists[k], k);
    if s.lists[k] != [] {
      assert NodeOk(s.tags, s.owner, s.lists[k], 0, k);
    }
  }

  lemma MeltBytes(s: State, a: int, hs: set<int>)
    requires Shape(s) && Tiled(s) && a in s.owner && Get(s.tags, a).splitLeft != 0 && s.owner.Keys <= hs
    ensures SameBytes(s, MeltLeft(s, a), hs)
  {
    assert TagTiled(s, a);
  }

  lemma CarveBytes(s: State, a: int, hs: set<int>)
    requires Shape(s) && Tiled(s) && CanCarve(s, a) && s.owner.Keys <= hs && CarvePoint(s, a) in hs
    ensures SameBytes(s, Carve(s, a), hs)
  {
    CarvePointFresh(s, a);
    assert TagTiled(s, a);
  }

  // ----- malloc

  lemma SplitBytes(s: State, a: int, hs: set<int>)
    requires InHand(s, a) && CanSplit(s, a) && s.owner.Keys <= hs && CarvePoint(s, a) in hs
    ensures SameBytes(s, Split(s, a), hs)
  {
    SplitIsInsert(s, a);
    var r := Carving(s, a);
    CarveBytes(s, a, hs);
    InsertBytes(r, CarvePoint(s, a), ClassOf(Get(r.tags, CarvePoint(s, a)).realSize), hs);
  }

  lemma SetSizeBytes(s: State, a: int, size: int, hs: set<int>)
    requires a in hs
    ensures SameBytes(s, SetSize(s, a, size), hs)
  {
  }

  lemma SettleBytes(s: State, a: int, size: int, hs: set<int>)
    requires InHand(s, a) && Lonely(s, a) && s.owner.Keys <= hs
    requires 0 <= size && size + HEADER <= Get(s.tags, a).realSize
    requires Settled(s, a, size).owner.Keys <= hs
    ensures SameBytes(s, Settled(s, a, size), hs)
  {
    SizedInHand(s, a, size);
    SetSizeBytes(s, a, size, hs);
    var s2 := SetSize(s, a, size);
    if Splits(Get(s2.tags, a).realSize, size) {
      SplitBytesIn(s2, a, hs);
      SameBytesTransitive(s, s2, Split(s2, a), hs);
    }
  }

  lemma SplitBytesIn(s: State, a: int, hs: set<int>)
    requires InHand(s, a) && CanSplit(s, a) && Split(s, a).owner.Keys <= hs && s.owner.Keys <= hs
    ensures SameBytes(s, Split(s, a), hs)
  {
    SplitHolds(s, a);
    assert CarvePoint(s, a) in Blocks(Split(s, a));
    SplitBytes(s, a, hs);
  }

  lemma SameBytesTransitive(s: State, q: State, r: State, hs: set<int>)
    requires SameBytes(s, q, hs) && SameBytes(q, r, hs)
    ensures SameBytes(s, r, hs)
  {
  }

  lemma TakeBytes(s: State, a: int, hs: set<int>)
    requires Inv(s) && IsFree(s, a) && s.owner.Keys <= hs
    ensures SameBytes(s, Take(s, a), hs) && Take(s, a).owner == s.owner
  {
    RemoveBytes(s, a, hs);
  }

  lemma NewChunkBytes(s: State, size: int, hs: set<int>)
    requires Shape(s) && s.top in hs
    ensures SameBytes(s, NewChunk(s, size), hs)
  {
  }

  /** malloc writes only under headers of the old or the new heap. */
  lemma MallocBytes(s: State, size: int, granted: bool)
    requires Inv(s) && 0 <= size && size + HEADER < TWO32
    requires granted ==> Fits(s, size)
    ensures var r := Malloc(s, size, granted).0; SameBytes(s, r, s.owner.Keys + r.owner.Keys)
  {
    var a := Found(s, size);
    if a != 0 {
      TakenSource(s, size);
      SourceBytes(s, Take(s, a), a, size);
    } else if granted {
      NewChunkInHand(s, size);
      SourceBytes(s, NewChunk(s, size), s.top, size);
    }
  }

  lemma SourceBytes(s: State, q: State, a: int, size: int)
    requires Inv(s) && InHand(q, a) && Lonely(q, a)
    requires 0 <= size && size + HEADER <= Get(q.tags, a).realSize
    requires q == (if a == s.top then NewChunk(s, size) else Take(s, a)) && (a != s.top ==> IsFree(s, a))
    ensures var r := Settled(q, a, size); SameBytes(s, r, s.owner.Keys + r.owner.Keys)
  {
    SettleHolds(q, a, size);
    var r := Settled(q, a, size);
    var hs := s.owner.Keys + r.owner.Keys;
    assert r.owner.Keys == Blocks(r).Keys && q.owner.Keys <= Blocks(r).Keys;
    if a == s.top {
      NewChunkBytes(s, size, hs);
    } else {
      TakeBytes(s, a, hs);
    }
    SettleBytes(q, a, size, hs);
    SameBytesTransitive(s, q, r, hs);
  }

  // ----- free

  lemma MergeLeftBytes(s: State, a: int, hs: set<int>)
    requires InHand(s, a) && s.owner.Keys <= hs
    ensures SameBytes(s, MergeLeft(s, a).0, hs) && MergeLeft(s, a).0.owner.Keys <= hs
  {
    var left := Get(s.tags, a).splitLeft;
    NeighbourIndex(s, a);
    if IsFree(s, left) {
      MergeLeftIsMerged(s, a);
      MeltListed(s, a);
      MeltBytes(s, a, hs);
      var m := MeltLeft(s, a);
      assert TagTiled(s, a);
      assert left in m.owner && left in m.tags;
      RemoveBytes(m, left, hs);
    }
  }

  lemma MergeRightBytes(s: State, a: int, hs: set<int>)
    requires InHand(s, a) && s.owner.Keys <= hs
    ensures SameBytes(s, MergeRight(s, a), hs) && MergeRight(s, a).owner.Keys <= hs
  {
    var right := Get(s.tags, a).splitRight;
    NeighbourIndex(s, a);
    if IsFree(s, right) {
      MergeRightIsAbsorbed(s, a);
      RemoveBytes(s, right, hs);
      RemoveReindexed(s, right);
      var q := Remove(s, right);
      ReindexedTiled(s, q, right, -1);
      assert a in q.tags && right in q.tags;
      SwallowIsMelt(q, a);
      assert TagTiled(q, a);
      NullIsNoTag(q);
      MeltBytes(q, right, hs);
    }
  }

  lemma FileBytes(s: State, a: int, hs: set<int>)
    requires InHand(s, a) && s.owner.Keys <= hs
    ensures SameBytes(s, File(s, a).0, hs)
  {
    var k := ClassOf(Get(s.tags, a).realSize);
    InsertBytes(s, a, k, hs);
    assert Insert(s.(complete := s.complete[k := s.complete[k] + 1]), a, k).bytes == Insert(s, a, k).bytes;
  }

  /** free writes only under headers of the old heap. */
  lemma FreeBytes(s: State, a: int)
    requires Inv(s) && IsLive(s, a)
    ensures SameBytes(s, FreeTag(s, a).0, s.owner.Keys)
  {
    var hs := s.owner.Keys;
    FreeMerges(s, a);
    var (s1, b) := MergeLeft(s, a);
    MergeLeftBytes(s, a, hs);
    MergeLeftHolds(s, a);
    MergeRightBytes(s1, b, hs);
    var h := MergeRight(s1, b);
    FileBytes(h, b, hs);
    SameBytesTransitive(s, s1, h, hs);
    SameBytesTransitive(s, h, File(h, b).0, hs);
  }

  // ----- live payloads

  /** x is a byte of the payload of live block a. */
  predicate InPayload(s: State, a: int, x: int) {
    IsLive(s, a) && a + HEADER <= x < a + HEADER + Get(s.tags, a).size
  }

  /** Payloads lie inside their own block and under no header. */
  lemma PayloadIsClear(s: State, a: int, x: int)
    requires Inv(s) && InPayload(s, a, x)
    ensures Outside(s.owner.Keys, x)
    ensures forall b :: b != a ==> !InPayload(s, b, x)
    ensures KHEAP <= x < s.top
  {
    RealSizeBounds(s, a);
    NullIsNoTag(s);
    assert TagSized(Get(s.tags, a));
    forall h | h in s.owner
      ensures !(h <= x < h + HEADER)
      ensures h != a ==> !InPayload(s, h, x)
    {
      RealSizeBounds(s, h);
      assert TagSized(Get(s.tags, h));
    }
  }

  /** malloc leaves every live block and every byte of its payload as it was. */
  lemma MallocSparesPayloads(s: State, size: int, granted: bool, a: int, x: int)
    requires Inv(s) && 0 <= size && size + HEADER < TWO32
    requires granted ==> Fits(s, size)
    requires InPayload(s, a, x)
    ensures var (r, p) := Malloc(s, size, granted);
      && InPayload(r, a, x) && ByteAt(r.bytes, x) == ByteAt(s.bytes, x)
      && SameLive(s, r, a) && p != a + HEADER
  {
    var (r, p) := Malloc(s, size, granted);
    MallocHolds(s, size, granted);
    MallocKeepsLive(s, size, granted, r, p, a);
    MallocBytes(s, size, granted);
    ClearOfBoth(s, r, a, x);
  }

  lemma ClearOfBoth(s: State, r: State, a: int, x: int)
    requires Inv(s) && Inv(r) && InPayload(s, a, x) && SameLive(s, r, a)
    ensures InPayload(r, a, x)
    ensures Outside(s.owner.Keys, x) && Outside(s.owner.Keys + r.owner.Keys, x)
  {
    PayloadIsClear(s, a, x);
    PayloadIsClear(r, a, x);
  }

  /** Settling a block touches nothing outside it. */
  lemma SettleKeeps(m: map<int, Block>, a: int, realSize: int, size: int, x: int)
    requires 0 <= size && size + HEADER <= realSize
    requires x < a || a + realSize <= x
    ensures x in Settle(m, a, realSize, size) <==> x in m
    ensures x in m ==> Settle(m, a, realSize, size)[x] == m[x]
  {
  }

  /** Block a is the same live block in both heaps. */
  predicate SameLive(s: State, r: State, a: int) {
    IsLive(s, a) && IsLive(r, a) && BlockOf(Get(r.tags, a)) == BlockOf(Get(s.tags, a))
  }

  lemma MallocKeepsLive(s: State, size: int, granted: bool, r: State, p: int, a: int)
    requires Inv(s) && 0 <= size && size + HEADER < TWO32
    requires granted ==> Fits(s, size)
    requires MallocEffect(s, size, granted, r, p)
    requires IsLive(s, a)
    ensures SameLive(s, r, a) && p != a + HEADER
  {
    SourceIsFree(s, size, granted);
    RealSizeBounds(s, a);
    if p != 0 {
      var (b, realSize) := Source(s, size);
      SettleKeeps(Blocks(s), b, realSize, size, a);
      assert Blocks(r)[a] == Blocks(s)[a];
    }
  }

  /** free retires the block and leaves every other live one. */
  lemma FreeKeepsLive(s: State, f: int, r: State, rel: Released, a: int)
    requires Inv(s) && IsLive(s, f) && FreeEffect(s, f, r, rel)
    ensures !IsLive(r, f)
    ensures a != f ==> (IsLive(s, a) <==> IsLive(r, a)) && (IsLive(s, a) ==> SameLive(s, r, a))
  {
    assert f in Blocks(r) ==> Blocks(r)[f].Free?;
    assert f in r.owner ==> f in Blocks(r);
    if a != f {
      assert IsLive(s, a) ==> a in Blocks(s) && Blocks(s)[a].Live?;
      assert IsLive(r, a) ==> a in Blocks(r) && Blocks(r)[a].Live?;
      assert a in Blocks(r) && a != MergedStart(s, f) ==> Blocks(r)[a] == Blocks(s)[a];
    }
  }

  /** free leaves every other live block and every byte of its payload as it was. */
  lemma FreeSparesPayloads(s: State, f: int, a: int, x: int)
    requires Inv(s) && IsLive(s, f) && f != a && InPayload(s, a, x)
    ensures var r := FreeTag(s, f).0;
      InPayload(r, a, x) && ByteAt(r.bytes, x) == ByteAt(s.bytes, x) && SameLive(s, r, a)
  {
    var (r, rel) := FreeTag(s, f);
    FreeHolds(s, f);
    FreeKeepsLive(s, f, r, rel, a);
    ClearOfBoth(s, r, a, x);
    FreeBytes(s, f);
  }
}

/** malloc and free of src/liballoc.c as compositions of tag operations. */
module LiballocOps {
  import opened Machine
  import opened LiballocModel
  import opened LiballocInvariant
  import opened LiballocLists
  import opened LiballocTiling

  // ----- what a state stands for: the blocks, free or live

  datatype Block = Free(realSize: int) | Live(realSize: int, size: int)

  function BlockOf(t: Tag): Block {
    if t.index >= 0 then Free(t.realSize) else Live(t.realSize, t.size)
  }

  function Blocks(s: State): map<int, Block> {
    map a | a in s.owner :: BlockOf(Get(s.tags, a))
  }

  /** Neither neighbour of a is free. */
  predicate Lonely(s: State, a: int) {
    && !IsFree(s, Get(s.tags, a).splitLeft)
    && !IsFree(s, Get(s.tags, a).splitRight)
  }

  /** Tag a is in hand: in no list, its size not yet settled. */
  ghost predicate InHand(s: State, a: int) {
    Holds(s, a) && IsLive(s, a)
  }

  // ----- the steps of malloc

  /** Take a tag out of its free list, and out of the count of complete chunks. */
  function Take(s: State, a: int): (r: State)
    requires Shape(s)
    ensures Shape(r) && r.chunks == s.chunks && r.top == s.top
  {
    var k := Get(s.tags, a).index;
    var s1 := Remove(s, a);
    if IsWhole(Get(s1.tags, a)) && 0 <= k < MAXEXP then s1.(complete := s.complete[k := s.complete[k] - 1]) else s1
  }

  function SetSize(s: State, a: int, size: int): State {
    Put(s, a, Get(s.tags, a).(size := size))
  }

  /** split_tag. */
  function Split(s: State, a: int): (r: State)
    requires Shape(s)
    ensures Shape(r) && r.chunks == s.chunks && r.top == s.top
  {
    var c := Carve(s, a);
    var n := Get(c.tags, a).splitRight;
    Insert(c, n, ClassOf(Get(c.tags, n).realSize))
  }

  // ----- the steps of free

  /** One round of the "melt left" loop, and the tag in hand afterwards. */
  function MergeLeft(s: State, a: int): (r: (State, int))
    requires Shape(s)
    ensures Shape(r.0)
  {
    var left := Get(s.tags, a).splitLeft;
    if left != 0 && Get(s.tags, left).index >= 0 then (Remove(MeltLeft(s, a), left), left) else (s, a)
  }

  /** One round of the "melt right" loop: absorb_right. */
  function MergeRight(s: State, a: int): (r: State)
    requires Shape(s)
    ensures Shape(r)
  {
    var right := Get(s.tags, a).splitRight;
    if right != 0 && Get(s.tags, right).index >= 0 then Swallow(Remove(s, right), a) else s
  }

  /** The pages of a chunk, as handed back to the pager. */
  function PagesOf(realSize: int): int {
    var pages := realSize / PAGE_SIZE + (if realSize % PAGE_SIZE != 0 then 1 else 0);
    if pages < MIN_PAGES then MIN_PAGES else pages
  }

  datatype Released = Kept | Chunk(base: int, pages: int)

  /** The chunk that starts at a leaves the heap. */
  function Release(s: State, a: int): (r: State) {
    s.(owner := s.owner - {a}, chunks := s.chunks - {a})
  }

  /** The end of free: hand a complete chunk back, or file the tag. */
  function File(s: State, a: int): (r: (State, Released))
    requires Shape(s)
    ensures Shape(r.0)
  {
    var t := Get(s.tags, a);
    var k := ClassOf(t.realSize);
    if !IsWhole(t) then (Insert(s, a, k), Kept)
    else if s.complete[k] == MAXCOMPLETE then (Release(s, a), Chunk(a, PagesOf(t.realSize)))
    else (Insert(s.(complete := s.complete[k := s.complete[k] + 1]), a, k), Kept)
  }

  // ----- changes that spare the lists, the counters or the places

  /** The links of a tag in no list, or the links it had. */
  predicate KeepsLinks(s: State, t: Tag, a: int) {
    if a in s.owner then
      var u := Get(s.tags, a);
      t.index == u.index && t.next == u.next && t.prev == u.prev
    else
      a != 0 && t.index == -1 && t.next == 0 && t.prev == 0
  }

  lemma Relisted(s: State, r: State)
    requires Listed(s) && Shape(r) && r.heads == s.heads && r.lists == s.lists
    requires forall a {:trigger a in r.tags} :: a in r.owner ==> (a in r.tags && KeepsLinks(s, r.tags[a], a))
    requires forall a :: a in s.owner && a !in r.owner ==> Get(s.tags, a).index == -1
    ensures Listed(r)
  {
    forall k | 0 <= k < MAXEXP
      ensures ListOk(r.tags, r.owner, r.heads[k], r.lists[k], k)
    {
      var l := s.lists[k];
      assert ListOk(s.tags, s.owner, s.heads[k], l, k);
      forall i | 0 <= i < |l|
        ensures NodeOk(r.tags, r.owner, l, i, k)
      {
        assert NodeOk(s.tags, s.owner, l, i, k);
        assert l[i] in r.tags;
      }
    }
    forall a | a in r.owner
      ensures TagListed(r, a)
    {
      assert a in r.tags;
      assert a in s.owner ==> TagListed(s, a);
    }
  }

  predicate CountsAt(s: State, a: int, k: int) {
    a in s.owner && Get(s.tags, a).index == k && IsWhole(Get(s.tags, a))
  }

  /** The counters stand if no complete free tag comes or goes. */
  lemma Recounted(s: State, r: State)
    requires Shape(s) && Shape(r) && Counted(s) && r.complete == s.complete
    requires forall a, k :: 0 <= k ==> CountsAt(s, a, k) == CountsAt(r, a, k)
    ensures Counted(r)
  {
    forall k | 0 <= k < MAXEXP
      ensures Whole(r, k) == Whole(s, k)
    {
      forall a
        ensures a in Whole(r, k) <==> a in Whole(s, k)
      {
        assert CountsAt(s, a, k) == CountsAt(r, a, k);
      }
    }
  }

  /** r is s with tag a moved to list i (-1 for none), as far as places and sizes go. */
  ghost predicate Reindexed(s: State, r: State, a: int, i: int) {
    && a in s.owner
    && r.owner == s.owner && r.chunks == s.chunks && r.top == s.top
    && forall b {:trigger b in r.tags} :: b in s.owner ==>
         b in s.tags && b in r.tags && OnlyMoved(s.tags[b], r.tags[b], if b == a then i else s.tags[b].index)
  }

  predicate OnlyMoved(t: Tag, u: Tag, i: int) {
    u == t.(index := i, next := u.next, prev := u.prev)
  }

  lemma ReindexedTiled(s: State, r: State, a: int, i: int)
    requires Tiled(s) && Reindexed(s, r, a, i)
    ensures Tiled(r)
  {
    forall b | b in s.owner
      ensures b in r.tags && SamePlace(Get(s.tags, b), r.tags[b])
    {
      assert b in r.tags;
    }
    SameTilingTiled(s, r);
  }

  lemma ReindexedSized(s: State, r: State, a: int, i: int)
    requires Reindexed(s, r, a, i) && Sized(s, a)
    ensures Sized(r, a)
    ensures i >= 0 && i == ClassOf(Get(s.tags, a).realSize) ==> Sized(r, 0)
  {
    forall b | b in r.owner
      ensures b != a ==> TagSized(Get(r.tags, b))
    {
      assert b in r.tags;
    }
    assert a in r.tags;
  }

  lemma ReindexedCoalesced(s: State, r: State, a: int, i: int)
    requires Reindexed(s, r, a, i) && Coalesced(s) && Tiled(s)
    requires i >= 0 ==> Lonely(s, a)
    ensures Coalesced(r)
    ensures Lonely(s, a) ==> Lonely(r, a)
  {
    assert a in r.tags && TagTiled(s, a);
    var t := s.tags[a];
    assert t.splitLeft != 0 ==> t.splitLeft in r.tags;
    assert t.splitRight != 0 ==> t.splitRight in r.tags;
    forall b | b in r.owner && IsFree(r, b) && Get(r.tags, b).splitRight != 0
      ensures !IsFree(r, Get(r.tags, b).splitRight)
    {
      assert b in r.tags && TagTiled(s, b);
      assert s.tags[b].splitRight in r.tags;
    }
  }

  lemma ReindexedWhole(s: State, r: State, a: int, i: int, k: nat)
    requires Reindexed(s, r, a, i)
    ensures Whole(r, k) - {a} == Whole(s, k) - {a}
    ensures a in Whole(r, k) <==> i == k && IsWhole(Get(s.tags, a))
  {
    assert a in r.tags;
    forall b | b != a
      ensures b in Whole(r, k) <==> b in Whole(s, k)
    {
      assert b in s.owner ==> b in r.tags;
    }
  }

  lemma ReindexedBlocks(s: State, r: State, a: int, i: int)
    requires Reindexed(s, r, a, i)
    ensures Blocks(r) == Blocks(s)[a := BlockOf(Get(s.tags, a).(index := i))]
  {
    assert a in r.tags;
    forall b | b in s.owner
      ensures Blocks(r)[b] == Blocks(s)[a := BlockOf(Get(s.tags, a).(index := i))][b]
    {
      assert b in r.tags;
    }
  }

  // ----- taking a tag out of its list

  lemma RemoveReindexed(s: State, a: int)
    requires Listed(s) && IsFree(s, a)
    ensures Listed(Remove(s, a)) && Reindexed(s, Remove(s, a), a, -1)
  {
    RemoveListed(s, a);
    var r := Remove(s, a);
    forall b | b in s.owner
      ensures b in s.tags && b in r.tags && OnlyMoved(s.tags[b], r.tags[b], if b == a then -1 else s.tags[b].index)
    {
      assert TagListed(s, b);
      assert b in r.tags;
    }
  }

  lemma TakeInHand(s: State, a: int)
    requires Inv(s) && IsFree(s, a)
    ensures Reindexed(s, Take(s, a), a, -1)
    ensures InHand(Take(s, a), a) && Lonely(Take(s, a), a)
    ensures Blocks(Take(s, a)) == Blocks(s)[a := BlockOf(Get(s.tags, a).(index := -1))]
  {
    RemoveReindexed(s, a);
    var r := Take(s, a);
    assert r.tags == Remove(s, a).tags && r.owner == s.owner;
    assert forall b :: b in r.owner ==> b in r.tags;
    assert Reindexed(s, r, a, -1);
    Relisted(Remove(s, a), r);
    ReindexedTiled(s, r, a, -1);
    NullIsNoTag(s);
    ReindexedSized(s, r, a, -1);
    ReindexedBlocks(s, r, a, -1);
    FreeIsLonely(s, a);
    ReindexedCoalesced(s, r, a, -1);
    TakeCounted(s, a);
    assert a in r.tags;
  }

  lemma FreeIsLonely(s: State, a: int)
    requires Tiled(s) && Coalesced(s) && IsFree(s, a)
    ensures Lonely(s, a)
  {
    assert TagTiled(s, a);
    var left := s.tags[a].splitLeft;
    if left != 0 {
      assert TagTiled(s, left);
    } else {
      NullIsNoTag(s);
    }
    if s.tags[a].splitRight == 0 {
      NullIsNoTag(s);
    }
  }

  lemma NullIsNoTag(s: State)
    requires Tiled(s)
    ensures 0 !in s.owner
  {
    assert 0 in s.owner ==> TagTiled(s, 0);
  }

  lemma TakeCounted(s: State, a: int)
    requires Inv(s) && IsFree(s, a)
    requires Reindexed(s, Take(s, a), a, -1)
    ensures Counted(Take(s, a))
  {
    var r := Take(s, a);
    var k := Get(s.tags, a).index;
    assert a in r.tags;
    forall j | 0 <= j < MAXEXP
      ensures r.complete[j] == |Whole(r, j)| && r.complete[j] <= MAXCOMPLETE
    {
      TakenWhole(s, r, a, j);
      assert s.complete[j] == |Whole(s, j)|;
    }
  }

  lemma TakenWhole(s: State, r: State, a: int, j: int)
    requires IsFree(s, a) && Reindexed(s, r, a, -1) && 0 <= j
    ensures if j == Get(s.tags, a).index && IsWhole(Get(s.tags, a))
            then a in Whole(s, j) && Whole(r, j) == Whole(s, j) - {a}
            else Whole(r, j) == Whole(s, j)
  {
    assert a in r.tags;
    ReindexedWhole(s, r, a, -1, j);
  }

  // ----- filing a tag

  lemma InsertReindexed(s: State, a: int, k: int)
    requires Listed(s) && IsLive(s, a) && 0 <= k < MAXEXP
    ensures Listed(Insert(s, a, k)) && Reindexed(s, Insert(s, a, k), a, k)
  {
    assert TagListed(s, a);
    InsertListed(s, a, k);
    var r := Insert(s, a, k);
    forall b | b in s.owner
      ensures b in s.tags && b in r.tags && OnlyMoved(s.tags[b], r.tags[b], if b == a then k else s.tags[b].index)
    {
      assert TagListed(s, b);
      assert b in r.tags;
    }
  }

  /** A tag in hand whose neighbours are busy can be filed in its class. */
  lemma InsertHolds(s: State, q: State, a: int)
    requires InHand(s, a) && Lonely(s, a)
    requires var k := ClassOf(Get(s.tags, a).realSize);
      q == (if IsWhole(Get(s.tags, a)) then s.(complete := s.complete[k := s.complete[k] + 1]) else s)
      && q.complete[k] <= MAXCOMPLETE
    ensures var k := ClassOf(Get(s.tags, a).realSize);
      && Inv(Insert(q, a, k))
      && Blocks(Insert(q, a, k)) == Blocks(s)[a := Free(Get(s.tags, a).realSize)]
  {
    var k := ClassOf(Get(s.tags, a).realSize);
    assert Listed(q) by {
      assert forall b :: b in s.owner ==> TagListed(s, b);
      assert forall b :: b in s.owner ==> b in q.tags && KeepsLinks(s, q.tags[b], b);
      Relisted(s, q);
    }
    InsertReindexed(q, a, k);
    var r := Insert(q, a, k);
    FiledHolds(s, r, a, k);
  }

  lemma FiledHolds(s: State, r: State, a: int, k: int)
    requires InHand(s, a) && Lonely(s, a) && k == ClassOf(Get(s.tags, a).realSize)
    requires Listed(r) && Reindexed(s, r, a, k)
    requires r.complete == (if IsWhole(Get(s.tags, a)) then s.complete[k := s.complete[k] + 1] else s.complete)
    requires r.complete[k] <= MAXCOMPLETE
    ensures Inv(r)
    ensures Blocks(r) == Blocks(s)[a := Free(Get(s.tags, a).realSize)]
  {
    ReindexedTiled(s, r, a, k);
    ReindexedSized(s, r, a, k);
    ReindexedCoalesced(s, r, a, k);
    ReindexedBlocks(s, r, a, k);
    forall j | 0 <= j < MAXEXP
      ensures r.complete[j] == |Whole(r, j)| && r.complete[j] <= MAXCOMPLETE
    {
      ReindexedWhole(s, r, a, k, j);
      assert s.complete[j] == |Whole(s, j)| && a !in Whole(s, j);
      if j == k && IsWhole(Get(s.tags, a)) {
        assert Whole(r, j) == Whole(s, j) + {a};
      } else {
        assert Whole(r, j) == Whole(s, j);
      }
    }
  }

  lemma ReleaseHolds(s: State, a: int)
    requires InHand(s, a) && IsWhole(Get(s.tags, a))
    ensures Inv(Release(s, a))
    ensures Blocks(Release(s, a)) == Blocks(s) - {a}
    ensures a in s.chunks && s.chunks[a] == PagesOf(Get(s.tags, a).realSize) * PAGE_SIZE
  {
    var r := Release(s, a);
    assert TagListed(s, a);
    ReleaseTiled(s, r, a);
    assert ChunkOk(s, a);
    assert forall b :: b in s.owner ==> TagListed(s, b);
    Relisted(s, r);
    Recounted(s, r);
    assert Coalesced(r);
  }

  /** What free's last step leaves: the tag filed as free, or its chunk handed back. */
  lemma FileHolds(s: State, a: int)
    requires InHand(s, a) && Lonely(s, a)
    ensures Inv(File(s, a).0)
    ensures File(s, a).1.Kept? ==> Blocks(File(s, a).0) == Blocks(s)[a := Free(Get(s.tags, a).realSize)]
    ensures File(s, a).1.Chunk? ==>
      Blocks(File(s, a).0) == Blocks(s) - {a} && File(s, a).1.base == a && a in s.chunks &&
      s.chunks[a] == File(s, a).1.pages * PAGE_SIZE && File(s, a).0.chunks == s.chunks - {a}
    ensures File(s, a).1.Chunk? <==>
      IsWhole(Get(s.tags, a)) && s.complete[ClassOf(Get(s.tags, a).realSize)] == MAXCOMPLETE
  {
    var t := Get(s.tags, a);
    var k := ClassOf(t.realSize);
    assert s.complete[k] <= MAXCOMPLETE;
    if !IsWhole(t) {
      InsertHolds(s, s, a);
    } else if s.complete[k] == MAXCOMPLETE {
      ReleaseHolds(s, a);
    } else {
      InsertHolds(s, s.(complete := s.complete[k := s.complete[k] + 1]), a);
    }
  }

  // ----- coalescing

  lemma MeltListed(s: State, a: int)
    requires InHand(s, a) && IsFree(s, Get(s.tags, a).splitLeft)
    ensures Get(s.tags, a).splitLeft != 0
    ensures Listed(MeltLeft(s, a)) && IsMelted(s, MeltLeft(s, a), a)
  {
    NullIsNoTag(s);
    MeltEffect(s, a);
    var r := MeltLeft(s, a);
    assert TagListed(s, a);
    assert forall b :: b in s.owner ==> TagListed(s, b);
    Relisted(s, r);
  }

  /** r is s after the free left neighbour of a has been unlisted and has swallowed a. */
  ghost predicate IsMerged(s: State, r: State, a: int) {
    && r.owner == s.owner - {a} && r.chunks == s.chunks && r.top == s.top && r.complete == s.complete
    && forall b {:trigger b in r.tags} :: b in s.owner && b != a ==>
         b in s.tags && b in r.tags &&
         OnlyMoved(Melted(s, a, b), r.tags[b], if b == Get(s.tags, a).splitLeft then -1 else s.tags[b].index)
  }

  lemma MergeLeftIsMerged(s: State, a: int)
    requires InHand(s, a) && IsFree(s, Get(s.tags, a).splitLeft)
    ensures MergeLeft(s, a).1 == Get(s.tags, a).splitLeft != 0
    ensures Listed(MergeLeft(s, a).0) && Tiled(MergeLeft(s, a).0)
    ensures IsMerged(s, MergeLeft(s, a).0, a)
  {
    var left := Get(s.tags, a).splitLeft;
    assert TagListed(s, left);
    MeltListed(s, a);
    MeltTiled(s, a);
    var m := MeltLeft(s, a);
    assert left in m.owner && left in m.tags by {
      assert TagTiled(s, a);
    }
    RemoveReindexed(m, left);
    var r := Remove(m, left);
    ReindexedTiled(m, r, left, -1);
    forall b | b in s.owner && b != a
      ensures b in s.tags && b in r.tags
      ensures OnlyMoved(Melted(s, a, b), r.tags[b], if b == left then -1 else s.tags[b].index)
    {
      assert TagListed(s, b) && b in m.tags && b in r.tags;
    }
  }

  lemma MergedInHand(s: State, r: State, a: int)
    requires InHand(s, a) && IsFree(s, Get(s.tags, a).splitLeft)
    requires IsMerged(s, r, a) && Tiled(r) && Listed(r)
    ensures InHand(r, Get(s.tags, a).splitLeft)
    ensures !IsFree(r, Get(r.tags, Get(s.tags, a).splitLeft).splitLeft)
  {
    var left := Get(s.tags, a).splitLeft;
    NullIsNoTag(s);
    assert TagTiled(s, a) && TagTiled(s, left);
    assert left in r.tags;
    forall b | b in r.owner && b != left
      ensures TagSized(Get(r.tags, b))
    {
      assert b in r.tags && TagSized(Get(s.tags, b));
    }
    MergedCoalesced(s, r, a);
    MergedCounted(s, r, a);
    FreeIsLonely(s, left);
    assert !IsFree(s, Get(s.tags, left).splitLeft);
    var further := Get(s.tags, left).splitLeft;
    assert further in s.owner && further != a ==> further in r.tags;
  }

  lemma MergedCoalesced(s: State, r: State, a: int)
    requires InHand(s, a) && IsFree(s, Get(s.tags, a).splitLeft)
    requires IsMerged(s, r, a) && Tiled(r)
    ensures Coalesced(r)
  {
    forall b | b in r.owner && IsFree(r, b) && Get(r.tags, b).splitRight != 0
      ensures !IsFree(r, Get(r.tags, b).splitRight)
    {
      assert b in r.tags && TagTiled(r, b);
      assert Get(r.tags, b).splitRight in r.tags;
      assert IsFree(s, b);
    }
  }

  lemma MergedCounted(s: State, r: State, a: int)
    requires InHand(s, a) && IsFree(s, Get(s.tags, a).splitLeft)
    requires IsMerged(s, r, a) && Tiled(r) && Listed(r)
    ensures Counted(r)
  {
    NullIsNoTag(s);
    assert TagTiled(s, a);
    forall b, k | 0 <= k
      ensures CountsAt(s, b, k) == CountsAt(r, b, k)
    {
      if b in r.owner {
        assert b in r.tags && TagTiled(s, b);
      }
    }
    Recounted(s, r);
  }

  lemma MergedBlocks(s: State, r: State, a: int)
    requires IsMerged(s, r, a)
    ensures var left := Get(s.tags, a).splitLeft;
      Blocks(r) - {left} == Blocks(s) - {a, left}
  {
    forall b | b in r.owner && b != Get(s.tags, a).splitLeft
      ensures Blocks(r)[b] == Blocks(s)[b]
    {
      assert b in r.tags;
    }
  }

  // ----- the two merges of free

  /** A neighbour's index is a list index or -1. */
  lemma NeighbourIndex(s: State, a: int)
    requires Tiled(s) && Listed(s) && a in s.owner
    ensures Get(s.tags, a).splitLeft != 0 ==> Get(s.tags, a).splitLeft in s.owner
    ensures Get(s.tags, a).splitRight != 0 ==> Get(s.tags, a).splitRight in s.owner
    ensures 0 !in s.owner && a in s.tags
  {
    NullIsNoTag(s);
    assert TagTiled(s, a);
    var t := s.tags[a];
    assert t.splitLeft != 0 ==> TagListed(s, t.splitLeft);
    assert t.splitRight != 0 ==> TagListed(s, t.splitRight);
  }

  /** What one merge leaves in hand: the block that starts at b, of the summed size. */
  ghost predicate MergedInto(s: State, a: int, r: State, b: int, gone: set<int>, realSize: int) {
    && InHand(r, b)
    && r.chunks == s.chunks && r.complete == s.complete && r.top == s.top
    && Blocks(r) - {b} == Blocks(s) - gone - {a, b}
    && Get(r.tags, b).realSize == realSize
  }

  /** After the left loop the left neighbour of the tag in hand is busy. */
  lemma MergeLeftHolds(s: State, a: int)
    requires InHand(s, a)
    ensures var (r, b) := MergeLeft(s, a);
      var left := Get(s.tags, a).splitLeft;
      && !IsFree(r, Get(r.tags, b).splitLeft)
      && Get(r.tags, b).splitRight == Get(s.tags, a).splitRight
      && (if IsFree(s, left) then
            b == left && MergedInto(s, a, r, b, {left}, Get(s.tags, left).realSize + Get(s.tags, a).realSize)
          else (r, b) == (s, a))
  {
    var left := Get(s.tags, a).splitLeft;
    NeighbourIndex(s, a);
    if IsFree(s, left) {
      var r := MergeLeft(s, a).0;
      MergeLeftIsMerged(s, a);
      MergedInHand(s, r, a);
      MergedBlocks(s, r, a);
      assert left != a && left in r.tags;
    }
  }

  /** After the right loop both neighbours of the tag in hand are busy. */
  lemma MergeRightHolds(s: State, a: int)
    requires InHand(s, a) && !IsFree(s, Get(s.tags, a).splitLeft)
    ensures var r := MergeRight(s, a);
      var right := Get(s.tags, a).splitRight;
      && Lonely(r, a)
      && (if IsFree(s, right) then
            MergedInto(s, a, r, a, {right}, Get(s.tags, right).realSize + Get(s.tags, a).realSize)
          else r == s)
  {
    var right := Get(s.tags, a).splitRight;
    NeighbourIndex(s, a);
    if IsFree(s, right) {
      SwallowedInHand(s, a);
    }
  }

  /** r is s after the free right neighbour of a has been unlisted and swallowed. */
  ghost predicate IsAbsorbed(s: State, r: State, a: int) {
    var right := Get(s.tags, a).splitRight;
    && r.owner == s.owner - {right} && r.chunks == s.chunks && r.top == s.top && r.complete == s.complete
    && forall b {:trigger b in r.tags} :: b in s.owner && b != right ==>
         b in s.tags && b in r.tags && OnlyMoved(Melted(s, right, b), r.tags[b], s.tags[b].index)
  }

  lemma MergeRightIsAbsorbed(s: State, a: int)
    requires InHand(s, a) && IsFree(s, Get(s.tags, a).splitRight)
    ensures Get(s.tags, a).splitRight != 0
    ensures Listed(MergeRight(s, a)) && Tiled(MergeRight(s, a)) && IsAbsorbed(s, MergeRight(s, a), a)
  {
    var right := Get(s.tags, a).splitRight;
    NeighbourIndex(s, a);
    assert TagTiled(s, a);
    RemoveReindexed(s, right);
    var q := Remove(s, right);
    ReindexedTiled(s, q, right, -1);
    assert a in q.tags && right in q.tags;
    SwallowIsMelt(q, a);
    AbsorbedByMelt(s, q, a);
  }

  lemma AbsorbedByMelt(s: State, q: State, a: int)
    requires Tiled(s) && Listed(s) && Tiled(q) && Listed(q) && q.complete == s.complete
    requires a in s.owner && Get(s.tags, a).splitRight in s.owner
    requires Reindexed(s, q, Get(s.tags, a).splitRight, -1)
    requires Get(q.tags, Get(s.tags, a).splitRight).splitLeft != 0
    ensures var r := MeltLeft(q, Get(s.tags, a).splitRight);
      Listed(r) && Tiled(r) && IsAbsorbed(s, r, a)
  {
    var right := Get(s.tags, a).splitRight;
    MeltEffect(q, right);
    var r := MeltLeft(q, right);
    MeltTiled(q, right);
    forall b | b in s.owner
      ensures b in s.tags && b in q.tags && TagListed(q, b)
    {
      assert TagListed(q, b) && TagListed(s, b);
    }
    Relisted(q, r);
    AbsorbedTags(s, q, r, a);
  }

  lemma AbsorbedTags(s: State, q: State, r: State, a: int)
    requires a in s.owner && Get(s.tags, a).splitRight in s.owner
    requires Reindexed(s, q, Get(s.tags, a).splitRight, -1)
    requires IsMelted(q, r, Get(s.tags, a).splitRight) && r.complete == s.complete
    ensures IsAbsorbed(s, r, a)
  {
    var right := Get(s.tags, a).splitRight;
    assert right in q.tags;
    forall b | b in s.owner && b != right
      ensures b in s.tags && b in r.tags && OnlyMoved(Melted(s, right, b), r.tags[b], s.tags[b].index)
    {
      assert b in r.tags && b in q.tags;
    }
  }

  lemma AbsorbedCoalesced(s: State, r: State, a: int)
    requires InHand(s, a) && IsFree(s, Get(s.tags, a).splitRight)
    requires IsAbsorbed(s, r, a) && Tiled(r)
    ensures Coalesced(r)
  {
    forall b | b in r.owner && IsFree(r, b) && Get(r.tags, b).splitRight != 0
      ensures !IsFree(r, Get(r.tags, b).splitRight)
    {
      assert b in r.tags && TagTiled(r, b);
      assert Get(r.tags, b).splitRight in r.tags;
      assert IsFree(s, b);
    }
  }

  lemma AbsorbedCounted(s: State, r: State, a: int)
    requires InHand(s, a) && IsFree(s, Get(s.tags, a).splitRight)
    requires IsAbsorbed(s, r, a) && Tiled(r) && Listed(r)
    ensures Counted(r)
  {
    NullIsNoTag(s);
    assert TagTiled(s, a) && TagTiled(s, Get(s.tags, a).splitRight);
    forall b, k | 0 <= k
      ensures CountsAt(s, b, k) == CountsAt(r, b, k)
    {
      if b in r.owner {
        assert b in r.tags && TagTiled(s, b);
      }
    }
    Recounted(s, r);
  }

  lemma SwallowedInHand(s: State, a: int)
    requires InHand(s, a) && IsFree(s, Get(s.tags, a).splitRight) && !IsFree(s, Get(s.tags, a).splitLeft)
    ensures Lonely(MergeRight(s, a), a)
    ensures var right := Get(s.tags, a).splitRight;
      MergedInto(s, a, MergeRight(s, a), a, {right}, Get(s.tags, right).realSize + Get(s.tags, a).realSize)
  {
    var right := Get(s.tags, a).splitRight;
    MergeRightIsAbsorbed(s, a);
    AbsorbedInHand(s, MergeRight(s, a), a);
  }

  lemma AbsorbedInHand(s: State, r: State, a: int)
    requires InHand(s, a) && IsFree(s, Get(s.tags, a).splitRight) && !IsFree(s, Get(s.tags, a).splitLeft)
    requires IsAbsorbed(s, r, a) && Tiled(r) && Listed(r)
    ensures Lonely(r, a)
    ensures var right := Get(s.tags, a).splitRight;
      MergedInto(s, a, r, a, {right}, Get(s.tags, right).realSize + Get(s.tags, a).realSize)
  {
    var right := Get(s.tags, a).splitRight;
    NullIsNoTag(s);
    assert TagTiled(s, a) && TagTiled(s, right);
    assert a in r.tags;
    AbsorbedCoalesced(s, r, a);
    AbsorbedCounted(s, r, a);
    AbsorbedLonely(s, r, a);
    AbsorbedBlocks(s, r, a);
  }

  lemma AbsorbedBlocks(s: State, r: State, a: int)
    requires InHand(s, a) && Get(s.tags, a).splitRight in s.owner
    requires IsAbsorbed(s, r, a)
    ensures Blocks(r) - {a} == Blocks(s) - {Get(s.tags, a).splitRight, a}
    ensures forall b :: b in r.owner && b != a ==> TagSized(Get(r.tags, b))
  {
    NullIsNoTag(s);
    assert TagTiled(s, a) && TagTiled(s, Get(s.tags, a).splitRight);
    forall b | b in r.owner && b != a
      ensures TagSized(Get(r.tags, b)) && Blocks(r)[b] == Blocks(s)[b]
    {
      assert b in r.tags && TagSized(Get(s.tags, b));
    }
  }

  lemma AbsorbedLonely(s: State, r: State, a: int)
    requires InHand(s, a) && IsFree(s, Get(s.tags, a).splitRight) && !IsFree(s, Get(s.tags, a).splitLeft)
    requires IsAbsorbed(s, r, a)
    ensures Lonely(r, a)
  {
    var right := Get(s.tags, a).splitRight;
    NullIsNoTag(s);
    assert TagTiled(s, a) && TagTiled(s, right);
    assert a in r.tags;
    FreeIsLonely(s, right);
    var beyond := Get(s.tags, right).splitRight;
    assert beyond in s.owner ==> beyond != a && beyond != right && beyond in r.tags;
    assert Get(s.tags, a).splitLeft in s.owner ==> Get(s.tags, a).splitLeft in r.tags;
  }
}

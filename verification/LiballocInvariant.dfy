/** What every reachable heap state satisfies, in five groups that the tag
    operations keep separately. */
module LiballocInvariant {
  import opened Machine
  import opened LiballocModel

  // ----- tiling

  /** Tag a lies in its chunk and has no neighbour exactly at the chunk's ends. */
  predicate TagPlaced(s: State, a: int) {
    && a in s.owner && a in s.tags && s.owner[a] in s.chunks && a > 0
    && var t := s.tags[a];
    var base := s.owner[a];
    && t.magic == MAGIC && t.realSize >= HEADER
    && base <= a && a + t.realSize <= base + s.chunks[base]
    && (t.splitLeft == 0 <==> a == base)
    && (t.splitRight == 0 <==> a + t.realSize == base + s.chunks[base])
  }

  /** l and r are tags of one chunk that abut and point at each other. */
  predicate Abut(s: State, l: int, r: int) {
    && l in s.owner && l in s.tags && r in s.owner && r in s.tags
    && s.owner[l] == s.owner[r]
    && l + s.tags[l].realSize == r
    && s.tags[l].splitRight == r && s.tags[r].splitLeft == l
  }

  predicate TagTiled(s: State, a: int) {
    && TagPlaced(s, a)
    && (s.tags[a].splitLeft != 0 ==> Abut(s, s.tags[a].splitLeft, a))
    && (s.tags[a].splitRight != 0 ==> Abut(s, a, s.tags[a].splitRight))
  }

  predicate ChunkOk(s: State, c: int) {
    && c in s.chunks && c in s.owner && s.owner[c] == c
    && c >= KHEAP
    && s.chunks[c] % PAGE_SIZE == 0 && s.chunks[c] >= MIN_PAGES * PAGE_SIZE
    && c + s.chunks[c] <= s.top
  }

  /** Distinct tags occupy disjoint memory. */
  ghost predicate Apart(s: State) {
    forall a, b :: a in s.owner && b in s.owner && a < b ==>
      Get(s.tags, a).realSize + a <= b
  }

  ghost predicate ChunksApart(s: State) {
    forall c, d :: c in s.chunks && d in s.chunks && c < d ==> c + s.chunks[c] <= d
  }

  ghost predicate Tiled(s: State) {
    && KHEAP <= s.top <= TWO32
    && (forall a {:trigger TagTiled(s, a)} :: a in s.owner ==> TagTiled(s, a))
    && (forall c {:trigger ChunkOk(s, c)} :: c in s.chunks ==> ChunkOk(s, c))
    && Apart(s)
    && ChunksApart(s)
  }

  // ----- free lists

  ghost predicate Distinct(l: seq<int>) {
    forall i, j :: 0 <= i < j < |l| ==> l[i] != l[j]
  }

  /** The i-th tag of list k has the right index and links. */
  predicate NodeOk(tags: map<int, Tag>, owner: map<int, int>, l: seq<int>, i: int, k: int)
    requires 0 <= i < |l|
  {
    && l[i] in owner && l[i] in tags
    && tags[l[i]].index == k
    && tags[l[i]].next == Elem(l, i + 1)
    && tags[l[i]].prev == Elem(l, i - 1)
  }

  ghost predicate ListOk(tags: map<int, Tag>, owner: map<int, int>, head: int, l: seq<int>, k: int) {
    && head == Elem(l, 0)
    && (forall i {:trigger NodeOk(tags, owner, l, i, k)} :: 0 <= i < |l| ==> NodeOk(tags, owner, l, i, k))
    && Distinct(l)
  }

  predicate TagListed(s: State, a: int)
    requires Shape(s)
  {
    && a in s.tags && a != 0
    && var t := s.tags[a];
    if t.index == -1 then t.next == 0 && t.prev == 0
    else 0 <= t.index < MAXEXP && a in s.lists[t.index]
  }

  ghost predicate Listed(s: State) {
    && Shape(s)
    && (forall k :: 0 <= k < MAXEXP ==> ListOk(s.tags, s.owner, s.heads[k], s.lists[k], k))
    && (forall a {:trigger TagListed(s, a)} :: a in s.owner ==> TagListed(s, a))
  }

  // ----- sizes, coalescing, counters

  predicate IsFree(s: State, a: int) {
    a in s.owner && Get(s.tags, a).index >= 0
  }

  predicate IsLive(s: State, a: int) {
    a in s.owner && Get(s.tags, a).index < 0
  }

  /** A free tag sits in its size class; a live one wastes fewer than 288 bytes. */
  predicate TagSized(t: Tag) {
    if t.index >= 0 then t.index == ClassOf(t.realSize)
    else 0 <= t.size && t.size + HEADER <= t.realSize < t.size + HEADER + 288
  }

  /** Every tag but the one in hand (0 for none) is sized. */
  ghost predicate Sized(s: State, hand: int) {
    forall a :: a in s.owner && a != hand ==> TagSized(Get(s.tags, a))
  }

  ghost predicate Coalesced(s: State) {
    forall a :: a in s.owner && IsFree(s, a) && Get(s.tags, a).splitRight != 0 ==>
      !IsFree(s, Get(s.tags, a).splitRight)
  }

  predicate IsWhole(t: Tag) {
    t.splitLeft == 0 && t.splitRight == 0
  }

  /** The complete chunks standing by in list k. */
  function Whole(s: State, k: int): set<int> {
    set a | a in s.owner && Get(s.tags, a).index == k && IsWhole(Get(s.tags, a))
  }

  ghost predicate Counted(s: State)
    requires Shape(s)
  {
    forall k :: 0 <= k < MAXEXP ==> s.complete[k] == |Whole(s, k)| && s.complete[k] <= MAXCOMPLETE
  }

  /** Everything but the size of the tag in hand. */
  ghost predicate Holds(s: State, hand: int) {
    Tiled(s) && Listed(s) && Sized(s, hand) && Coalesced(s) && Counted(s)
  }

  ghost predicate Inv(s: State) {
    Holds(s, 0)
  }
}

/** Memory, boundary tags and the tag operations of src/liballoc.c, on values.

    Memory is seen twice: as the header records that sit at tag addresses and as
    bytes. An address is an integer and 0 is NULL. Writing a header makes the 32
    bytes under it unknown, so "this byte kept its value" is a real claim. */
module LiballocModel {
  import opened Machine

  const HEADER: int := 32
  const MAGIC: int := 0xc001c0de
  const MAXCOMPLETE: int := 5
  const MAXEXP: int := 32
  const MINEXP: int := 8
  const MIN_PAGES: int := 16

  datatype Tag = Tag(
    magic: int, size: int, realSize: int, index: int,
    splitLeft: int, splitRight: int, next: int, prev: int)

  /** What a read of memory that holds no header gives. */
  const NO_TAG := Tag(0, 0, 0, -1, 0, 0, 0, 0)

  /** `tags`, `bytes`, `heads` (l_freePages), `complete` (l_completePages) and `top`
      (heaptop of src/heap.c) are the machine's state. `owner` (tag -> base of its
      chunk), `chunks` (base -> length) and `lists` (the free lists as sequences)
      say what that state stands for. */
  datatype State = State(
    tags: map<int, Tag>, bytes: map<int, int>,
    heads: seq<int>, complete: seq<int>, top: int,
    owner: map<int, int>, chunks: map<int, int>, lists: seq<seq<int>>)

  // ----- 32-bit arithmetic

  function U32(x: int): (r: int)
    ensures 0 <= r < TWO32
    ensures 0 <= x < TWO32 ==> r == x
  {
    x % TWO32
  }

  /** An unsigned word read as a signed one. */
  function I32(u: int): int {
    if u >= 0x8000_0000 then u - TWO32 else u
  }

  lemma {:induction false} Pow2Monotone(m: nat, n: nat)
    requires m <= n
    ensures Pow2(m) <= Pow2(n)
    decreases n - m
  {
    if m < n {
      Pow2Monotone(m + 1, n);
    }
  }

  lemma Pow2Of32()
    ensures Pow2(8) == 256 && Pow2(32) == TWO32
  {
    assert Pow2(8) == 256;
    assert Pow2(16) == 0x1_0000;
    assert Pow2(24) == 0x100_0000;
  }

  /** Floor of the binary logarithm. */
  function Log2(n: int): (e: nat)
    requires n >= 1
    ensures Pow2(e) <= n < Pow2(e + 1)
  {
    if n == 1 then 0 else 1 + Log2(n / 2)
  }

  /** The size class of n, or -1 below the 256-byte quantum. */
  function GetExp(n: int): (e: int)
    requires 0 <= n < TWO32
    ensures n < 256 ==> e == -1
    ensures n >= 256 ==> MINEXP <= e < MAXEXP && Pow2(e) <= n < Pow2(e + 1)
  {
    if n < 256 then -1
    else
      var e := Log2(n);
      assert e >= 8 by {
        if e < 8 {
          Pow2Monotone(e + 1, 8);
        }
      }
      assert e < 32 by {
        if e >= 32 {
          Pow2Monotone(32, e);
          Pow2Of32();
        }
      }
      e
  }

  function AtLeastMin(e: int): int {
    if e < MINEXP then MINEXP else e
  }

  /** The list a free tag of this real size belongs to. */
  function ClassOf(realSize: int): (k: int)
    ensures MINEXP <= k < MAXEXP
  {
    AtLeastMin(GetExp(U32(realSize - HEADER)))
  }

  // ----- memory

  function Get(tags: map<int, Tag>, a: int): Tag {
    if a in tags then tags[a] else NO_TAG
  }

  function Wipe(bytes: map<int, int>, a: int): map<int, int> {
    map x | x in bytes && !(a <= x < a + HEADER) :: bytes[x]
  }

  function Put(s: State, a: int, t: Tag): State {
    s.(tags := s.tags[a := t], bytes := Wipe(s.bytes, a))
  }

  // ----- sequences used for the free lists

  function Elem(l: seq<int>, i: int): int {
    if 0 <= i < |l| then l[i] else 0
  }

  function Without(l: seq<int>, a: int): seq<int> {
    if l == [] then []
    else if l[0] == a then l[1..]
    else [l[0]] + Without(l[1..], a)
  }

  // ----- tag operations

  predicate Shape(s: State) {
    |s.heads| == MAXEXP && |s.complete| == MAXEXP && |s.lists| == MAXEXP
  }

  /** insert_tag with the index already chosen. */
  function Insert(s: State, a: int, k: int): (r: State)
    requires Shape(s) && 0 <= k < MAXEXP
    ensures Shape(r) && r.chunks == s.chunks && r.top == s.top
  {
    var h := s.heads[k];
    var t := Get(s.tags, a).(index := k);
    var s1 :=
      if h != 0 then
        var s0 := Put(s, h, Get(s.tags, h).(prev := a));
        Put(s0, a, Get(s0.tags, a).(index := k, next := h))
      else
        Put(s, a, Get(s.tags, a).(index := k));
    s1.(heads := s.heads[k := a], lists := s.lists[k := [a] + s.lists[k]])
  }

  /** remove_tag. A tag in no list has no list to leave; no caller passes one. */
  function Remove(s: State, a: int): (r: State)
    requires Shape(s)
    ensures Shape(r) && r.chunks == s.chunks && r.top == s.top
  {
    var t := Get(s.tags, a);
    var k := t.index;
    var s1 := if 0 <= k < MAXEXP && s.heads[k] == a then s.(heads := s.heads[k := t.next]) else s;
    var s2 := if t.prev != 0 then Put(s1, t.prev, Get(s1.tags, t.prev).(next := t.next)) else s1;
    var s3 := if t.next != 0 then Put(s2, t.next, Get(s2.tags, t.next).(prev := t.prev)) else s2;
    var s4 := Put(s3, a, Get(s3.tags, a).(next := 0, prev := 0, index := -1));
    if 0 <= k < MAXEXP then s4.(lists := s.lists[k := Without(s.lists[k], a)]) else s4
  }

  /** melt_left: the left neighbour swallows a. */
  function MeltLeft(s: State, a: int): (r: State)
    requires Shape(s)
    ensures Shape(r) && r.chunks == s.chunks && r.top == s.top
  {
    var t := Get(s.tags, a);
    var left := t.splitLeft;
    var l := Get(s.tags, left);
    var s1 := Put(s, left, l.(realSize := U32(l.realSize + t.realSize), splitRight := t.splitRight));
    var s2 := if t.splitRight != 0
              then Put(s1, t.splitRight, Get(s1.tags, t.splitRight).(splitLeft := left)) else s1;
    s2.(owner := s.owner - {a})
  }

  /** The second half of absorb_right: a swallows its right neighbour, which is in no list by now. */
  function Swallow(s: State, a: int): (r: State)
    requires Shape(s)
    ensures Shape(r) && r.chunks == s.chunks && r.top == s.top
  {
    var t := Get(s.tags, a);
    var right := t.splitRight;
    var rt := Get(s.tags, right);
    var s1 := Put(s, a, t.(realSize := U32(t.realSize + rt.realSize), splitRight := rt.splitRight));
    var s2 := if rt.splitRight != 0
              then Put(s1, rt.splitRight, Get(s1.tags, rt.splitRight).(splitLeft := a)) else s1;
    s2.(owner := s.owner - {right})
  }

  /** The first half of split_tag: the new tag, and the link of the tag to its right. */
  function CarveChild(s: State, a: int): (r: State)
    requires Shape(s)
    ensures Shape(r) && r.chunks == s.chunks && r.top == s.top
  {
    var t := Get(s.tags, a);
    var n := U32(a + HEADER + t.size);
    var rest := U32(t.realSize - HEADER - t.size);
    var s1 := Put(s, n, Get(s.tags, n).(magic := MAGIC, realSize := rest, next := 0, prev := 0,
                                        splitLeft := a, splitRight := t.splitRight));
    if t.splitRight != 0 then Put(s1, t.splitRight, Get(s1.tags, t.splitRight).(splitLeft := n)) else s1
  }

  /** split_tag up to its call of insert_tag: carve a new tag out of the tail of a. */
  function Carve(s: State, a: int): (r: State)
    requires Shape(s)
    ensures Shape(r) && r.chunks == s.chunks && r.top == s.top
  {
    var t := Get(s.tags, a);
    var n := U32(a + HEADER + t.size);
    var rest := U32(t.realSize - HEADER - t.size);
    var s2 := CarveChild(s, a);
    var s3 := Put(s2, a, Get(s2.tags, a).(splitRight := n, realSize := U32(t.realSize - rest)));
    s3.(owner := if a in s.owner then s.owner[n := s.owner[a]] else s.owner)
  }

  /** The number of pages asked of the pager for a request of `size` bytes. */
  function PagesFor(size: int): (p: int)
    ensures p >= 16
    ensures 0 <= size && size + 32 < TWO32 ==>
      p * PAGE_SIZE >= size + 32 && (p == 16 || (p - 1) * PAGE_SIZE < size + 32)
  {
    var usage := U32(size + HEADER);
    var pages := usage / PAGE_SIZE + (if usage % PAGE_SIZE != 0 then 1 else 0);
    if pages < MIN_PAGES then MIN_PAGES else pages
  }

  /** allocate_new_tag once the pager has granted the pages at `top`. */
  function NewChunk(s: State, size: int): (r: State)
    requires Shape(s)
    ensures Shape(r)
  {
    var len := PagesFor(size) * PAGE_SIZE;
    Put(s, s.top, Tag(MAGIC, size, len, -1, 0, 0, 0, 0))
      .(top := s.top + len, owner := s.owner[s.top := s.top], chunks := s.chunks[s.top := len])
  }

  /** The first tag of the list with room for the request and one more header, or NULL. */
  function FirstFit(tags: map<int, Tag>, l: seq<int>, size: int): (a: int)
    ensures a == 0 || a in l
  {
    if l == [] then 0
    else if U32(Get(tags, l[0]).realSize - HEADER) >= U32(size + HEADER) then l[0]
    else FirstFit(tags, l[1..], size)
  }

  /** Whether malloc cuts the tag: the signed test on the remainder and its size class. */
  predicate Splits(realSize: int, size: int) {
    var remainder := U32(realSize - size - 2 * HEADER);
    I32(remainder) > 0 && GetExp(remainder) >= 0
  }
}

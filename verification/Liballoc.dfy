/** src/liballoc.c as it runs: the heap object, updated in place. Each method is proved to do
    to the state what its namesake on values does. */
module Liballoc {
  import opened Machine
  import opened LiballocModel
  import opened LiballocInvariant
  import opened LiballocLists
  import opened LiballocTiling
  import opened LiballocOps
  import opened LiballocMalloc
  import opened LiballocBytes
  import opened LiballocRuns

  lemma Log2Unique(n: int, e: nat)
    requires n >= 1 && Pow2(e) <= n < Pow2(e + 1)
    ensures Log2(n) == e
  {
    var f := Log2(n);
    if e < f {
      Pow2Monotone(e + 1, f);
    } else if f < e {
      Pow2Monotone(f + 1, e);
    }
  }

  /** getexp: the loop over `shift` finds the binary logarithm. */
  method GetExponent(size: int) returns (e: int)
    requires 0 <= size < TWO32
    ensures e == GetExp(size)
  {
    if size < 256 {
      return -1;
    }
    Pow2Of32();
    var shift := MINEXP;
    while shift < MAXEXP
      invariant MINEXP <= shift <= MAXEXP
      invariant Pow2(shift - 1) <= size
    {
      if Pow2(shift) > size {
        break;
      }
      shift := shift + 1;
    }
    Log2Unique(size, shift - 1);
    return shift - 1;
  }

  class Heap {
    var tags: map<int, Tag>
    var bytes: map<int, int>
    const freePages: array<int>      // l_freePages
    const completePages: array<int>  // l_completePages
    var initialized: bool            // l_initialized
    var top: int                     // heaptop

    ghost var owner: map<int, int>
    ghost var chunks: map<int, int>
    ghost var lists: seq<seq<int>>

    ghost predicate Formed()
      reads this
    {
      freePages.Length == MAXEXP && completePages.Length == MAXEXP && freePages != completePages && |lists| == MAXEXP
    }

    /** What the object stands for. */
    ghost function St(): (s: State)
      requires Formed()
      reads this, freePages, completePages
      ensures Shape(s)
    {
      State(tags, bytes, freePages[..], completePages[..], top, owner, chunks, lists)
    }

    ghost predicate Valid()
      reads this, freePages, completePages
    {
      && Formed() && Inv(St())
      && (!initialized ==> owner == map[])
    }

    constructor (memory: map<int, Tag>, contents: map<int, int>)
      ensures Valid() && St() == Init(memory, contents)
      ensures fresh(freePages) && fresh(completePages)
    {
      tags, bytes := memory, contents;
      freePages := new int[MAXEXP](_ => 0);
      completePages := new int[MAXEXP](_ => 0);
      initialized, top := false, KHEAP;
      owner, chunks, lists := map[], map[], seq(MAXEXP, _ => []);
      new;
      assert freePages[..] == seq(MAXEXP, _ => 0) && completePages[..] == seq(MAXEXP, _ => 0);
      InitHolds(memory, contents);
    }

    method Store(a: int, t: Tag)
      requires Formed()
      modifies this`tags, this`bytes
      ensures Formed() && St() == Put(old(St()), a, t)
    {
      tags := tags[a := t];
      bytes := Wipe(bytes, a);
    }

    /** insert_tag. */
    method InsertTag(a: int, index: int)
      requires Formed() && index < MAXEXP
      modifies this`tags, this`bytes, this`lists, freePages
      ensures Formed()
      ensures St() == Insert(old(St()), a, if index < 0 then ClassOf(Get(old(tags), a).realSize) else index)
    {
      var k := index;
      if index < 0 {
        k := GetExponent(U32(Get(tags, a).realSize - HEADER));
        if k < MINEXP {
          k := MINEXP;
        }
      }
      assert k == if index < 0 then ClassOf(Get(tags, a).realSize) else index;
      Push(a, k);
    }

    /** The rest of insert_tag: the tag becomes the head of list k. */
    method Push(a: int, k: int)
      requires Formed() && 0 <= k < MAXEXP
      modifies this`tags, this`bytes, this`lists, freePages
      ensures Formed() && St() == Insert(old(St()), a, k)
    {
      var h := freePages[k];
      if h != 0 {
        Store(h, Get(tags, h).(prev := a));
        Store(a, Get(tags, a).(index := k, next := h));
      } else {
        Store(a, Get(tags, a).(index := k));
      }
      freePages[k] := a;
      lists := lists[k := [a] + lists[k]];
      assert freePages[..] == old(freePages[..])[k := a];
    }

    /** remove_tag. */
    method RemoveTag(a: int)
      requires Formed() && 0 <= Get(tags, a).index < MAXEXP
      modifies this`tags, this`bytes, this`lists, freePages
      ensures Formed() && St() == Remove(old(St()), a)
    {
      var t := Get(tags, a);
      if freePages[t.index] == a {
        freePages[t.index] := t.next;
      }
      assert freePages[..] == old(freePages[..]) || freePages[..] == old(freePages[..])[t.index := t.next];
      if t.prev != 0 {
        Store(t.prev, Get(tags, t.prev).(next := t.next));
      }
      if t.next != 0 {
        Store(t.next, Get(tags, t.next).(prev := t.prev));
      }
      Store(a, Get(tags, a).(next := 0, prev := 0, index := -1));
      lists := lists[t.index := Without(lists[t.index], a)];
    }

    /** melt_left. */
    method Melt(a: int) returns (left: int)
      requires Formed()
      modifies this`tags, this`bytes, this`owner
      ensures Formed() && left == Get(old(tags), a).splitLeft && St() == MeltLeft(old(St()), a)
    {
      var t := Get(tags, a);
      left := t.splitLeft;
      Store(left, Get(tags, left).(realSize := U32(Get(tags, left).realSize + t.realSize), splitRight := t.splitRight));
      if t.splitRight != 0 {
        Store(t.splitRight, Get(tags, t.splitRight).(splitLeft := left));
      }
      owner := owner - {a};
    }

    /** absorb_right. */
    method AbsorbRight(a: int)
      requires Formed()
      requires 0 <= Get(tags, Get(tags, a).splitRight).index < MAXEXP
      modifies this`tags, this`bytes, this`lists, this`owner, freePages
      ensures Formed() && St() == Swallow(Remove(old(St()), Get(old(tags), a).splitRight), a)
    {
      var right := Get(tags, a).splitRight;
      RemoveTag(right);
      Join(a, right);
    }

    /** The rest of absorb_right. */
    method Join(a: int, right: int)
      requires Formed() && right == Get(tags, a).splitRight
      modifies this`tags, this`bytes, this`owner
      ensures Formed() && St() == Swallow(old(St()), a)
    {
      var t := Get(tags, a);
      var rt := Get(tags, right);
      Store(a, t.(realSize := U32(t.realSize + rt.realSize), splitRight := rt.splitRight));
      if rt.splitRight != 0 {
        Store(rt.splitRight, Get(tags, rt.splitRight).(splitLeft := a));
      }
      owner := owner - {right};
    }

    /** split_tag. */
    method SplitTag(a: int) returns (n: int)
      requires Formed()
      modifies this`tags, this`bytes, this`lists, this`owner, freePages
      ensures Formed() && St() == Split(old(St()), a)
    {
      n := CarveTag(a);
      InsertTag(n, -1);
    }

    /** split_tag up to its call of insert_tag. */
    method CarveTag(a: int) returns (n: int)
      requires Formed()
      modifies this`tags, this`bytes, this`owner
      ensures Formed() && St() == Carve(old(St()), a) && n == U32(a + HEADER + Get(old(tags), a).size)
    {
      var t := Get(tags, a);
      n := U32(a + HEADER + t.size);
      var rest := U32(t.realSize - HEADER - t.size);
      WriteChild(a, n, rest);
      Store(a, Get(tags, a).(splitRight := n, realSize := U32(t.realSize - rest)));
      owner := if a in owner then owner[n := owner[a]] else owner;
    }

    /** The stores of split_tag to the new tag and the tag to its right. */
    method WriteChild(a: int, n: int, rest: int)
      requires Formed() && n == U32(a + HEADER + Get(tags, a).size)
      requires rest == U32(Get(tags, a).realSize - HEADER - Get(tags, a).size)
      modifies this`tags, this`bytes
      ensures Formed() && St() == CarveChild(old(St()), a)
    {
      var right := Get(tags, a).splitRight;
      Store(n, Get(tags, n).(magic := MAGIC, realSize := rest, next := 0, prev := 0,
                             splitLeft := a, splitRight := right));
      if right != 0 {
        Store(right, Get(tags, right).(splitLeft := n));
      }
    }

    /** allocate_new_tag; `granted` is the pager's answer to liballoc_alloc. */
    method AllocateNewTag(size: int, granted: bool) returns (tag: int)
      requires Formed() && 0 <= size < TWO32
      modifies this`tags, this`bytes, this`top, this`owner, this`chunks
      ensures Formed()
      ensures if granted then tag == old(top) && St() == NewChunk(old(St()), size) else tag == 0 && St() == old(St())
    {
      var usage := U32(size + HEADER);
      var pages := usage / PAGE_SIZE;
      if usage % PAGE_SIZE != 0 {
        pages := pages + 1;
      }
      if pages < MIN_PAGES {
        pages := MIN_PAGES;
      }
      if !granted {
        return 0;
      }
      tag := top;
      top := top + pages * PAGE_SIZE;
      Store(tag, Tag(MAGIC, size, pages * PAGE_SIZE, -1, 0, 0, 0, 0));
      owner := owner[tag := tag];
      chunks := chunks[tag := pages * PAGE_SIZE];
    }

    /** The search loop of malloc: follow `next` until a tag is big enough. */
    method Search(k: int, size: int) returns (tag: int)
      requires Valid() && 0 <= k < MAXEXP && 0 <= size
      ensures tag == FirstFit(tags, lists[k], size)
    {
      ghost var l := lists[k];
      ghost var i := 0;
      assert ListOk(tags, owner, freePages[k], l, k);
      forall j | 0 <= j < |l|
        ensures l[j] != 0
      {
        assert NodeOk(tags, owner, l, j, k) && TagListed(St(), l[j]);
      }
      tag := freePages[k];
      while tag != 0
        invariant 0 <= i <= |l| && tag == Elem(l, i)
        invariant FirstFit(tags, l[i..], size) == FirstFit(tags, l, size)
        decreases |l| - i
      {
        assert NodeOk(tags, owner, l, i, k);
        if U32(Get(tags, tag).realSize - HEADER) >= U32(size + HEADER) {
          break;
        }
        tag := Get(tags, tag).next;
        i := i + 1;
      }
    }

    /** The first-call initialisation of malloc. */
    method Initialize()
      requires Valid()
      modifies this`initialized, freePages, completePages
      ensures Valid() && St() == old(St()) && initialized
    {
      if !initialized {
        EmptyArrays(St());
        var index := 0;
        while index < MAXEXP
          invariant 0 <= index <= MAXEXP
          invariant freePages[..] == old(freePages[..]) && completePages[..] == old(completePages[..])
        {
          assert old(freePages[..])[index] == 0 && old(completePages[..])[index] == 0;
          freePages[index] := 0;
          completePages[index] := 0;
          index := index + 1;
        }
        initialized := true;
      }
    }

    /** malloc's way with a tag found: unlist it, and count one complete chunk less. */
    method TakeTag(tag: int, index: int)
      requires Formed() && 0 <= index < MAXEXP && index == Get(tags, tag).index
      modifies this`tags, this`bytes, this`lists, freePages, completePages
      ensures Formed() && St() == Take(old(St()), tag)
    {
      RemoveTag(tag);
      if Get(tags, tag).splitLeft == 0 && Get(tags, tag).splitRight == 0 {
        completePages[index] := completePages[index] - 1;
      }
    }

    /** The tail of malloc: note the size and cut off what is left over. */
    method SettleTag(tag: int, size: int)
      requires Formed()
      modifies this`tags, this`bytes, this`lists, this`owner, freePages
      ensures Formed() && St() == Settled(old(St()), tag, size)
    {
      Store(tag, Get(tags, tag).(size := size));
      var splits := MustSplit(Get(tags, tag).realSize, size);
      if splits {
        var _ := SplitTag(tag);
      }
    }

    /** The test before split_tag: the remainder, signed, and its exponent. */
    method MustSplit(realSize: int, size: int) returns (b: bool)
      ensures b == Splits(realSize, size)
    {
      var remainder := U32(realSize - size - 2 * HEADER);
      if I32(remainder) > 0 {
        var childIndex := GetExponent(remainder);
        return childIndex >= 0;
      }
      return false;
    }

    /** The first half of malloc: a tag from the list, or a fresh chunk, or NULL. */
    method Obtain(size: int, granted: bool) returns (tag: int)
      requires Valid() && 0 <= size < TWO32
      modifies this, freePages, completePages
      ensures Formed()
      ensures var s := old(St());
        if Found(s, size) != 0 then tag == Found(s, size) && St() == Take(s, tag)
        else if granted then tag == s.top && St() == NewChunk(s, size)
        else tag == 0 && St() == s
      ensures initialized
    {
      ghost var s := St();
      Initialize();
      var index := GetExponent(size);
      if index < MINEXP {
        index := MINEXP;
      }
      tag := Search(index, size);
      assert tag == Found(s, size);
      if size + HEADER >= TWO32 {
        WrapFindsNothing(s, size, size + HEADER - TWO32);
      }
      if tag == 0 {
        assert s.top >= KHEAP;
        tag := AllocateNewTag(size, granted);
      } else {
        FirstFitIsFree(s, index, size);
        assert TagListed(s, tag);
        TakeTag(tag, index);
      }
    }

    /** malloc; `granted` is the pager's answer if it is asked. The heap stays whole when adding the
        header to the size does not wrap, and only then if the pager is asked and answers. */
    method Malloc(size: int, granted: bool) returns (ptr: int)
      requires Valid() && 0 <= size < TWO32
      requires granted ==> Fits(St(), size)
      modifies this, freePages, completePages
      ensures Formed() && (St(), ptr) == LiballocMalloc.Malloc(old(St()), size, granted)
      ensures size + HEADER < TWO32 ==> Valid()
      ensures size + HEADER >= TWO32 && granted ==> !Valid()
    {
      ghost var s := St();
      NullIsNoTag(s);
      var tag := Obtain(size, granted);
      if size + HEADER < TWO32 {
        FoundIsTag(s, size);
        MallocHolds(s, size, granted);
      } else {
        WrapFindsNothing(s, size, size + HEADER - TWO32);
        if granted {
          MallocIntactIff(s, size);
        }
      }
      if tag == 0 {
        return 0;
      }
      ghost var s1 := St();
      SettleTag(tag, size);
      ptr := U32(tag + HEADER);
      MallocDone(s, size, granted, s1, tag, St());
    }

    /** The left melting loop of free, which turns at most once. */
    method MeltLeftLoop(a: int) returns (b: int)
      requires Formed() && InHand(St(), a)
      modifies this`tags, this`bytes, this`lists, this`owner, freePages
      ensures Formed() && (St(), b) == MergeLeft(old(St()), a)
      ensures InHand(St(), b) && !IsFree(St(), Get(tags, b).splitLeft)
    {
      ghost var s := St();
      ghost var turned := false;
      b := a;
      MergeLeftHolds(s, a);
      while Get(tags, b).splitLeft != 0 && Get(tags, Get(tags, b).splitLeft).index >= 0
        invariant Formed()
        invariant !turned ==> b == a && St() == s
        invariant turned ==>
          (St(), b) == MergeLeft(s, a) && b == Get(s.tags, a).splitLeft != 0 && Get(s.tags, b).index >= 0
        decreases !turned
      {
        NeighbourIndex(St(), b);
        assert !turned;
        b := Melt(b);
        RemoveTag(b);
        turned := true;
      }
    }

    /** The right melting loop of free, which turns at most once. */
    method MeltRightLoop(a: int)
      requires Formed() && InHand(St(), a) && !IsFree(St(), Get(tags, a).splitLeft)
      modifies this`tags, this`bytes, this`lists, this`owner, freePages
      ensures Formed() && St() == MergeRight(old(St()), a)
    {
      ghost var s := St();
      ghost var turned := false;
      MergeRightHolds(s, a);
      while Get(tags, a).splitRight != 0 && Get(tags, Get(tags, a).splitRight).index >= 0
        invariant Formed()
        invariant !turned ==> St() == s
        invariant turned ==> St() == MergeRight(s, a) && IsFree(s, Get(s.tags, a).splitRight)
        decreases !turned
      {
        NeighbourIndex(St(), a);
        assert !turned;
        AbsorbRight(a);
        turned := true;
      }
    }

    /** The page count free computes for liballoc_free: the least one that covers the tag, 16 at
        least, and for a complete chunk exactly its own. */
    method PageCount(realSize: int) returns (pages: int)
      ensures pages == PagesOf(realSize)
      ensures MIN_PAGES <= pages && realSize <= pages * PAGE_SIZE
      ensures pages == MIN_PAGES || (pages - 1) * PAGE_SIZE < realSize
      ensures realSize % PAGE_SIZE == 0 && realSize >= MIN_PAGES * PAGE_SIZE ==> pages * PAGE_SIZE == realSize
    {
      pages := realSize / PAGE_SIZE;
      if realSize % PAGE_SIZE != 0 {
        pages := pages + 1;
      }
      if pages < MIN_PAGES {
        pages := MIN_PAGES;
      }
    }

    /** The list a merged tag goes back to. */
    method ClassIndex(realSize: int) returns (index: int)
      ensures index == ClassOf(realSize)
    {
      index := GetExponent(U32(realSize - HEADER));
      if index < MINEXP {
        index := MINEXP;
      }
    }

    /** The end of free; `rel` is the call of liballoc_free made, if any. */
    method FileTag(a: int) returns (rel: Released)
      requires Formed()
      modifies this`tags, this`bytes, this`lists, this`owner, this`chunks, freePages, completePages
      ensures Formed() && (St(), rel) == File(old(St()), a)
    {
      var index := ClassIndex(Get(tags, a).realSize);
      if Get(tags, a).splitLeft == 0 && Get(tags, a).splitRight == 0 {
        if completePages[index] == MAXCOMPLETE {
          var pages := PageCount(Get(tags, a).realSize);
          owner := owner - {a};
          chunks := chunks - {a};
          return Chunk(a, pages);
        }
        completePages[index] := completePages[index] + 1;
        assert completePages[..] == old(completePages[..])[index := old(completePages[index]) + 1];
      }
      InsertTag(a, index);
      return Kept;
    }

    method Free(ptr: int) returns (rel: Released)
      requires Valid() && Freeable(St(), ptr)
      modifies this, freePages, completePages
      ensures Valid()
      ensures (St(), rel) == FreePtr(old(St()), ptr)
    {
      if ptr == 0 {
        return Kept;
      }
      var tag := U32(ptr - HEADER);
      if Get(tags, tag).magic != MAGIC {
        return Kept;
      }
      ghost var s := St();
      ghost var a := tag;
      FreedIsLive(s, ptr);
      LiveInHand(s, a);
      tag := MeltLeftLoop(tag);
      MeltRightLoop(tag);
      ghost var h := St();
      rel := FileTag(tag);
      FreeDone(s, a, h, tag, St(), rel);
    }

    /** liballoc_memcpy: words, then the bytes left over. */
    method Memcpy(d: int, p: int, n: nat)
      modifies this`bytes
      ensures bytes == WordCopy(old(bytes), d, p, n)
    {
      var dest, src, left := d, p, n;
      while left >= 4
        invariant 0 <= left
        invariant WordCopy(bytes, dest, src, left) == WordCopy(old(bytes), d, p, n)
      {
        bytes := CopyWord(bytes, dest, src);
        dest, src, left := dest + 4, src + 4, left - 4;
      }
      while left > 0
        invariant 0 <= left < 4
        invariant ByteCopy(bytes, dest, src, left) == WordCopy(old(bytes), d, p, n)
      {
        bytes := SetByte(bytes, dest, ByteAt(bytes, src));
        dest, src, left := dest + 1, src + 1, left - 1;
      }
    }

    method ReallocPtr(p: int, size: int, granted: bool) returns (ptr: int)
      requires Valid() && Legal(St(), DoRealloc(p, size, granted))
      modifies this, freePages, completePages
      ensures Valid()
      ensures (St(), ptr) == Realloc(old(St()), p, size, granted)
    {
      if size == 0 {
        var _ := Free(p);
        return 0;
      }
      if p == 0 {
        ptr := Malloc(size, granted);
        return;
      }
      ptr := MoveBlock(p, size, granted);
    }

    /** realloc of a block to a size that is not 0. */
    method MoveBlock(p: int, size: int, granted: bool) returns (ptr: int)
      requires Valid() && ReallocOk(St(), p, size, granted)
      modifies this, freePages, completePages
      ensures Valid()
      ensures (St(), ptr) == Realloc(old(St()), p, size, granted)
    {
      ghost var s := St();
      LiveAddress(s, p);
      KeptIsMin(s, p, size);
      ReallocMiddle(s, p, size, granted);
      var realSize := Get(tags, U32(p - HEADER)).size;
      if realSize > size {
        realSize := size;
      }
      ptr := Malloc(size, granted);
      ghost var s1 := St();
      Memcpy(ptr, p, realSize);
      assert St() == Copied(s1, ptr, p, LiballocRuns.Kept(s, p, size));
      var _ := Free(p);
    }
  }

  /** Between realloc's copy and its free the heap is whole and the old block still live. */
  lemma ReallocMiddle(s: State, p: int, size: int, granted: bool)
    requires ReallocOk(s, p, size, granted)
    ensures var (s1, q) := LiballocMalloc.Malloc(s, size, granted);
      var s2 := Copied(s1, q, p, LiballocRuns.Kept(s, p, size));
      Inv(s2) && IsLive(s2, p - HEADER)
  {
    if Found(s, size) != 0 || granted {
      ServedMiddle(s, p, size, granted);
    } else {
      LowCopy(s, p, size);
    }
  }

  lemma EmptyArrays(s: State)
    requires Inv(s) && s.owner == map[]
    ensures forall k :: 0 <= k < MAXEXP ==> s.heads[k] == 0 && s.complete[k] == 0
  {
    forall k | 0 <= k < MAXEXP
      ensures s.heads[k] == 0 && s.complete[k] == 0
    {
      assert ListOk(s.tags, s.owner, s.heads[k], s.lists[k], k);
      assert s.lists[k] != [] ==> NodeOk(s.tags, s.owner, s.lists[k], 0, k);
      assert Whole(s, k) == {};
    }
  }

  /** The search's result is a genuine tag when it is not NULL. */
  lemma FoundIsTag(s: State, size: int)
    requires Inv(s) && 0 <= size && size + HEADER < TWO32
    ensures Found(s, size) != 0 ==> Found(s, size) in s.owner
  {
    FirstFitIsFree(s, AtLeastMin(GetExp(size)), size);
  }

  lemma MallocDone(s: State, size: int, granted: bool, s1: State, tag: int, r: State)
    requires Shape(s) && 0 <= size < TWO32
    requires tag != 0 && Shape(s1)
    requires if Found(s, size) != 0 then tag == Found(s, size) && s1 == Take(s, tag)
             else granted && tag == s.top && s1 == NewChunk(s, size)
    requires r == Settled(s1, tag, size)
    ensures (r, U32(tag + HEADER)) == LiballocMalloc.Malloc(s, size, granted)
  {
  }

  lemma FreeDone(s: State, a: int, h: State, b: int, r: State, rel: Released)
    requires Inv(s) && IsLive(s, a) && Shape(h)
    requires var (s1, t) := MergeLeft(s, a); b == t && h == MergeRight(s1, t)
    requires (r, rel) == File(h, b)
    ensures (r, rel) == FreeTag(s, a) && Inv(r)
  {
    FreeHolds(s, a);
  }
}

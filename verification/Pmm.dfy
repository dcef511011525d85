/** The physical frame allocator of src/pmm.c: a bitmap that stands for a set of used frames. */
module Pmm {
  import opened Machine

  const BLOCK_SIZE := PAGE_SIZE

  // ----- words and bits

  /** A 32-bit word as its bits, least significant first. */
  type Word = w: seq<bool> | |w| == 32 witness seq(32, _ => false)

  /** 0xffffffff. */
  const FULL: Word := seq(32, _ => true)

  /** `w | (1 << j)` and `w & ~(1 << j)`. */
  function WithBit(w: Word, j: nat, b: bool): Word
    requires j < 32
  {
    w[j := b]
  }

  /** A word differs from 0xffffffff exactly when one of its bits is clear. */
  lemma FullWord(w: Word)
    ensures w == FULL <==> forall j :: 0 <= j < 32 ==> w[j]
  {
    if forall j :: 0 <= j < 32 ==> w[j] {
      assert forall j :: 0 <= j < 32 ==> w[j] == FULL[j];
    }
  }

  /** Bit f of the map. */
  predicate BitAt(words: seq<Word>, f: int) {
    0 <= f < 32 * |words| && words[f / 32][f % 32]
  }

  /** Storing a bit changes that bit only. */
  lemma StoreBit(words: seq<Word>, bit: nat, b: bool)
    requires bit / 32 < |words|
    ensures Marked(words, words[bit / 32 := WithBit(words[bit / 32], bit % 32, b)], bit, 1, b)
  {
    var after := words[bit / 32 := WithBit(words[bit / 32], bit % 32, b)];
    forall f
      ensures BitAt(after, f) == if f == bit then b else BitAt(words, f)
    {
      if 0 <= f && f / 32 == bit / 32 && f % 32 == bit % 32 {
        assert f == bit;
      }
    }
  }

  /** n bits from f on have become b; all others are as before. */
  ghost predicate Marked(before: seq<Word>, after: seq<Word>, f: int, n: nat, b: bool) {
    forall g {:trigger BitAt(after, g)} :: BitAt(after, g) == if f <= g < f + n then b else BitAt(before, g)
  }

  lemma MarkOneMore(before: seq<Word>, mid: seq<Word>, after: seq<Word>, f: int, i: nat, b: bool)
    requires Marked(before, mid, f, i, b) && Marked(mid, after, f + i, 1, b)
    ensures Marked(before, after, f, i + 1, b)
  {
    forall g
      ensures BitAt(after, g) == if f <= g < f + (i + 1) then b else BitAt(before, g)
    {
      assert BitAt(after, g) == if g == f + i then b else BitAt(mid, g);
    }
  }

  /** The frames below `max` whose bit is set. */
  function UsedSet(words: seq<Word>, max: nat): set<int> {
    set f | 0 <= f < max && BitAt(words, f)
  }

  lemma SubsetSize(u: set<int>, a: set<int>)
    requires u <= a
    ensures |u| <= |a| && (|u| == |a| ==> u == a)
  {
    assert a == u + (a - u);
  }

  /** Every frame is used. */
  predicate AllUsed(words: seq<Word>, max: nat) {
    forall f :: 0 <= f < max ==> BitAt(words, f)
  }

  lemma UsedBound(words: seq<Word>, max: nat)
    ensures UsedSet(words, max) <= AllFrames(max)
    ensures |UsedSet(words, max)| <= max
    ensures |UsedSet(words, max)| == max <==> AllUsed(words, max)
  {
    var u, a := UsedSet(words, max), AllFrames(max);
    SubsetSize(u, a);
    assert AllUsed(words, max) ==> u == a;
    if u == a {
      forall f | 0 <= f < max
        ensures BitAt(words, f)
      {
        assert f in a;
      }
    }
  }

  /** f is the least frame with a clear bit. */
  predicate IsLeastClear(words: seq<Word>, f: int) {
    f >= 0 && !BitAt(words, f) && forall g :: 0 <= g < f ==> BitAt(words, g)
  }

  /** n frames from f on are clear and below max. */
  predicate RunClear(words: seq<Word>, max: nat, f: int, n: nat) {
    f >= 0 && f + n <= max && forall g :: f <= g < f + n ==> !BitAt(words, g)
  }

  /** f is the least start of such a run. */
  predicate IsLeastRun(words: seq<Word>, max: nat, f: int, n: nat) {
    RunClear(words, max, f, n) && forall g :: 0 <= g < f ==> !RunClear(words, max, g, n)
  }

  // ----- from bits to sets

  /** The counter is the number of set bits, and block 0 is never handed out. */
  ghost predicate Counted(words: seq<Word>, max: nat, used: int) {
    used == |UsedSet(words, max)| && (max > 0 ==> 0 in UsedSet(words, max))
  }

  /** The over-long scan of mmap_first_free answers with a frame of the map exactly when one is free. */
  lemma ScanInside(words: seq<Word>, max: nat, frame: int)
    requires frame == -1 ==> forall f :: 0 <= f < 32 * max ==> BitAt(words, f)
    requires frame != -1 ==> IsLeastClear(words, frame)
    ensures 0 <= frame < max <==> !AllUsed(words, max)
  {
  }

  function RunSet(f: int, n: nat): (s: set<int>)
    ensures forall g :: g in s <==> f <= g < f + n
    ensures |s| == n
  {
    if n == 0 then {} else RunSet(f, n - 1) + {f + n - 1}
  }

  lemma SetIsNoStart(words: seq<Word>, max: nat, p: int, n: nat)
    requires BitAt(words, p) && n > 0
    ensures !RunClear(words, max, p, n)
  {
  }

  /** pmmngr_alloc_blocks can serve: more frames are free than asked for, and some run is long enough. */
  ghost predicate RunAvailable(words: seq<Word>, max: nat, used: int, size: nat) {
    size > 0 && max - used > size && exists p :: RunClear(words, max, p, size)
  }

  lemma SingleRun(words: seq<Word>, max: nat, frame: int)
    requires frame == -1 ==> forall f :: 0 <= f < 32 * max ==> BitAt(words, f)
    requires frame != -1 ==> IsLeastClear(words, frame)
    requires |UsedSet(words, max)| < max
    ensures frame != -1 && IsLeastRun(words, max, frame, 1)
  {
    UsedBound(words, max);
    ScanInside(words, max, frame);
    forall p | 0 <= p < frame
      ensures !RunClear(words, max, p, 1)
    {
      SetIsNoStart(words, max, p, 1);
    }
  }

  lemma MarkedSet(before: seq<Word>, after: seq<Word>, max: nat, f: int, n: nat, b: bool)
    requires Marked(before, after, f, n, b) && 0 <= f && f + n <= max
    ensures UsedSet(after, max) ==
      if b then UsedSet(before, max) + RunSet(f, n) else UsedSet(before, max) - RunSet(f, n)
  {
    var u, v := UsedSet(before, max), UsedSet(after, max);
    forall g
      ensures g in v <==> g in (if b then u + RunSet(f, n) else u - RunSet(f, n))
    {
      assert BitAt(after, g) == if f <= g < f + n then b else BitAt(before, g);
    }
  }

  /** Marking a run of free frames as used adds exactly them, and their number to the count. */
  lemma RunTaken(before: seq<Word>, after: seq<Word>, max: nat, used: int, f: int, n: nat)
    requires Counted(before, max, used) && RunClear(before, max, f, n) && Marked(before, after, f, n, true)
    ensures UsedSet(after, max) == UsedSet(before, max) + RunSet(f, n)
    ensures RunSet(f, n) !! UsedSet(before, max)
    ensures Counted(after, max, used + n)
  {
    MarkedSet(before, after, max, f, n, true);
  }

  /** An allocation of n frames at f: the least run there is, unused before, used after, no other bit
      changed. */
  ghost predicate Granted(before: seq<Word>, after: seq<Word>, max: nat, f: int, n: nat) {
    && 0 < f && f + n <= max
    && IsLeastRun(before, max, f, n)
    && Marked(before, after, f, n, true)
    && RunSet(f, n) !! UsedSet(before, max)
    && UsedSet(after, max) == UsedSet(before, max) + RunSet(f, n)
  }

  lemma RunGranted(before: seq<Word>, after: seq<Word>, max: nat, used: int, f: int, n: nat)
    requires Counted(before, max, used) && IsLeastRun(before, max, f, n) && f > 0 && Marked(before, after, f, n, true)
    ensures Granted(before, after, max, f, n) && Counted(after, max, used + n)
  {
    RunTaken(before, after, max, used, f, n);
  }

  /** In terms of bits: exactly the n from f on were clear and are set, and from no frame before f on are n
      frames of the map clear. */
  lemma GrantMeans(before: seq<Word>, after: seq<Word>, max: nat, f: int, n: nat, g: int)
    requires Granted(before, after, max, f, n)
    ensures 0 < f && f + n <= max
    ensures BitAt(after, g) <==> BitAt(before, g) || f <= g < f + n
    ensures f <= g < f + n ==> !BitAt(before, g)
    ensures 0 <= g < f && g + n <= max ==> exists h :: g <= h < g + n && BitAt(before, h)
  {
    assert BitAt(after, g) == if f <= g < f + n then true else BitAt(before, g);
    if 0 <= g < f && g + n <= max {
      assert !RunClear(before, max, g, n);
    }
  }

  /** The least clear bit of the map is a least run of one. */
  lemma LeastClearIsRun(words: seq<Word>, max: nat, used: int, f: int)
    requires Counted(words, max, used) && 0 <= f < max && IsLeastClear(words, f)
    ensures f > 0 && IsLeastRun(words, max, f, 1)
  {
    forall p | 0 <= p < f
      ensures !RunClear(words, max, p, 1)
    {
      SetIsNoStart(words, max, p, 1);
    }
    assert 0 in UsedSet(words, max);
  }

  lemma CardMinus(u: set<int>, v: set<int>)
    ensures |u - v| == |u| - |u * v|
  {
    assert u == (u - v) + u * v;
  }

  lemma CardInsert(u: set<int>, x: int)
    ensures |u + {x}| == |u| + if x in u then 0 else 1
  {
    assert x in u ==> u + {x} == u;
  }

  /** Clearing a run takes its frames away, and n off the counter stays right exactly when all of
      them were used and block 0 is not one. */
  lemma RunGiven(before: seq<Word>, after: seq<Word>, max: nat, used: int, f: int, n: nat)
    requires Counted(before, max, used) && 0 <= f && f + n <= max && Marked(before, after, f, n, false)
    ensures UsedSet(after, max) == UsedSet(before, max) - RunSet(f, n)
    ensures Counted(after, max, used - n) <==> RunSet(f, n) <= UsedSet(before, max) && (n == 0 || f > 0)
  {
    MarkedSet(before, after, max, f, n, false);
    var u, r := UsedSet(before, max), RunSet(f, n);
    CardMinus(u, r);
    SubsetSize(u * r, r);
    assert u * r == r <==> r <= u;
  }

  /** A single free frame is a run of one. */
  lemma FrameIsRun(words: seq<Word>, max: nat, f: int)
    requires 0 <= f < max
    ensures RunSet(f, 1) == {f}
    ensures RunClear(words, max, f, 1) <==> !BitAt(words, f)
  {
    assert RunSet(f, 0) == {};
  }

  // ----- what the region calls do to the counter

  /** The blocks of a region: size is signed in the source and the loop runs while positive. */
  function Blocks(size: int): (n: nat)
    ensures size >= 0 ==> n * 4096 <= size < (n + 1) * 4096
    ensures size < 0 ==> n == 0
  {
    if size <= 0 then 0 else size / BLOCK_SIZE
  }

  /** Every bit of the region has become b, then bit 0 set. */
  ghost predicate RegionStored(before: seq<Word>, after: seq<Word>, align: nat, n: nat, b: bool) {
    forall f {:trigger BitAt(after, f)} ::
      BitAt(after, f) == (f == 0 || if align <= f < align + n then b else BitAt(before, f))
  }

  /** Initialising a region of used frames keeps "counter minus set bits" exactly when block 0 was
      used and is not in the region: the final mmap_set(0) is not counted. */
  lemma InitRegionCounts(before: seq<Word>, after: seq<Word>, max: nat, align: nat, n: nat, used: int)
    requires RegionStored(before, after, align, n, false) && 0 < max && align + n <= max
    requires RunSet(align, n) <= UsedSet(before, max)
    ensures (used - n) - |UsedSet(after, max)| == used - |UsedSet(before, max)|
            <==> 0 in UsedSet(before, max) && !(align == 0 && n > 0)
  {
    var u, r := UsedSet(before, max), RunSet(align, n);
    RegionSet(before, after, max, align, n, false);
    assert UsedSet(after, max) == (u - r) + {0};
    CardMinus(u, r);
    assert u * r == r;
    CardInsert(u - r, 0);
    assert 0 in r <==> align == 0 && n > 0;
  }

  lemma RegionSet(before: seq<Word>, after: seq<Word>, max: nat, align: nat, n: nat, b: bool)
    requires RegionStored(before, after, align, n, b) && 0 < max && align + n <= max
    ensures UsedSet(after, max) ==
      {0} + if b then UsedSet(before, max) + RunSet(align, n) else UsedSet(before, max) - RunSet(align, n)
  {
    var u, v := UsedSet(before, max), UsedSet(after, max);
    forall g
      ensures g in v <==> g == 0 || g in (if b then u + RunSet(align, n) else u - RunSet(align, n))
    {
      assert BitAt(after, g) == (g == 0 || if align <= g < align + n then b else BitAt(before, g));
    }
  }

  /** Deinitialising a region of free frames keeps it exactly when block 0 was used or is in the region. */
  lemma DeinitRegionCounts(before: seq<Word>, after: seq<Word>, max: nat, align: nat, n: nat, used: int)
    requires RegionStored(before, after, align, n, true) && 0 < max && align + n <= max
    requires RunSet(align, n) !! UsedSet(before, max)
    ensures (used + n) - |UsedSet(after, max)| == used - |UsedSet(before, max)|
            <==> 0 in UsedSet(before, max) || (align == 0 && n > 0)
  {
    var u, r := UsedSet(before, max), RunSet(align, n);
    RegionSet(before, after, max, align, n, true);
    assert UsedSet(after, max) == (u + r) + {0};
    CardInsert(u + r, 0);
    assert |u + r| == |u| + |r|;
    assert 0 in r <==> align == 0 && n > 0;
  }

  /** So the counter stays right over a region of used frames without block 0, ... */
  lemma RegionFreed(before: seq<Word>, after: seq<Word>, max: nat, align: nat, n: nat, used: int)
    requires RegionStored(before, after, align, n, false)
    ensures Counted(before, max, used) && 0 < align && align + n <= max && RunSet(align, n) <= UsedSet(before, max) ==>
      Counted(after, max, used - n) && UsedSet(after, max) == UsedSet(before, max) - RunSet(align, n)
  {
    if Counted(before, max, used) && 0 < align && align + n <= max && RunSet(align, n) <= UsedSet(before, max) {
      InitRegionCounts(before, after, max, align, n, used);
      RegionSet(before, after, max, align, n, false);
    }
  }

  /** ... and over a region of free frames. */
  lemma RegionUsed(before: seq<Word>, after: seq<Word>, max: nat, align: nat, n: nat, used: int)
    requires RegionStored(before, after, align, n, true)
    ensures Counted(before, max, used) && 0 < max && align + n <= max && RunSet(align, n) !! UsedSet(before, max) ==>
      Counted(after, max, used + n) && UsedSet(after, max) == UsedSet(before, max) + RunSet(align, n)
  {
    if Counted(before, max, used) && 0 < max && align + n <= max && RunSet(align, n) !! UsedSet(before, max) {
      DeinitRegionCounts(before, after, max, align, n, used);
      RegionSet(before, after, max, align, n, true);
    }
  }

  /** Freeing the run just allocated restores the map word for word: what pmmngr_alloc_block and
      pmmngr_alloc_blocks grant, pmmngr_free_block and pmmngr_free_blocks undo. */
  lemma AllocFreeUndo(before: seq<Word>, mid: seq<Word>, after: seq<Word>, max: nat, f: int, n: nat)
    requires |before| == |mid| == |after|
    requires Granted(before, mid, max, f, n) && Marked(mid, after, f, n, false)
    ensures after == before
  {
    forall g
      ensures BitAt(after, g) == BitAt(before, g)
    {
      assert BitAt(after, g) == (BitAt(mid, g) && !(f <= g < f + n));
      assert BitAt(mid, g) == (BitAt(before, g) || f <= g < f + n);
      assert f <= g < f + n ==> !BitAt(before, g);
    }
    SameBits(before, after);
  }

  lemma SameBits(before: seq<Word>, after: seq<Word>)
    requires |before| == |after| && forall g :: BitAt(after, g) == BitAt(before, g)
    ensures after == before
  {
    forall i, j | 0 <= i < |before| && 0 <= j < 32
      ensures after[i][j] == before[i][j]
    {
      assert BitAt(after, 32 * i + j) == BitAt(before, 32 * i + j);
    }
    forall i | 0 <= i < |before|
      ensures after[i] == before[i]
    {
    }
  }

  // ----- the allocator

  class FrameAllocator {
    /** The words from the bitmap's address on. The map proper is the first `max` bits; what
        follows is other memory, which the scan may read. */
    const words: array<Word>
    const max: nat       // _mmngr_max_blocks
    var used: int        // _mmngr_used_blocks

    constructor (memory: array<Word>, blocks: nat)
      ensures words == memory && max == blocks && used == blocks
    {
      words, max, used := memory, blocks, blocks;
    }

    /** There is memory for every word the scan may look at. */
    ghost predicate Formed()
      reads this
    {
      max <= words.Length && max * BLOCK_SIZE <= 0x1_0000_0000
    }

    ghost function Used(): set<int>
      reads this, words
    {
      UsedSet(words[..], max)
    }

    /** The counter is the number of set bits, and block 0 is never handed out. */
    ghost predicate Valid()
      reads this, words
    {
      Formed() && Counted(words[..], max, used)
    }

    method MmapSet(bit: nat)
      requires bit / 32 < words.Length
      modifies words
      ensures Marked(old(words[..]), words[..], bit, 1, true)
    {
      StoreBit(words[..], bit, true);
      words[bit / 32] := WithBit(words[bit / 32], bit % 32, true);
    }

    method MmapUnset(bit: nat)
      requires bit / 32 < words.Length
      modifies words
      ensures Marked(old(words[..]), words[..], bit, 1, false)
    {
      StoreBit(words[..], bit, false);
      words[bit / 32] := WithBit(words[bit / 32], bit % 32, false);
    }

    method MmapTest(bit: nat) returns (b: bool)
      requires bit / 32 < words.Length
      ensures b == BitAt(words[..], bit)
    {
      b := words[bit / 32][bit % 32];
    }

    /** mmap_first_free, bound as coded: it looks at `max` words, 32 times the map. */
    method FirstFree() returns (frame: int)
      requires Formed()
      ensures frame == -1 ==> forall f :: 0 <= f < 32 * max ==> BitAt(words[..], f)
      ensures frame != -1 ==> frame < 32 * max && IsLeastClear(words[..], frame)
    {
      var i := 0;
      while i < max
        invariant 0 <= i <= max
        invariant forall f :: 0 <= f < 32 * i ==> BitAt(words[..], f)
      {
        if words[i] != FULL {
          var j := 0;
          while j < 32
            invariant 0 <= j <= 32
            invariant forall f :: 0 <= f < 32 * i + j ==> BitAt(words[..], f)
          {
            if !words[i][j] {
              return i * 32 + j;
            }
            j := j + 1;
          }
        } else {
          FullWord(words[i]);
        }
        i := i + 1;
      }
      return -1;
    }

    /** pmmngr_alloc_block: the least free frame becomes used, and NULL comes back exactly when
        none is free. The scan's bound is too large, but the counter keeps it inside the map. */
    method AllocBlock() returns (addr: int)
      requires Valid()
      modifies this`used, words
      ensures Valid()
      ensures addr == 0 <==> old(AllUsed(words[..], max))
      ensures addr == 0 ==> words[..] == old(words[..])
      ensures addr % BLOCK_SIZE == 0
      ensures addr != 0 ==> Granted(old(words[..]), words[..], max, addr / BLOCK_SIZE, 1)
      ensures used == old(used) + if addr == 0 then 0 else 1
    {
      UsedBound(words[..], max);
      if max - used == 0 {
        return 0;
      }
      var frame := FindFrame();
      addr := Take(frame, 1);
    }

    /** The search inside pmmngr_alloc_block, once some frame is known to be free. */
    method FindFrame() returns (frame: nat)
      requires Valid() && !AllUsed(words[..], max)
      ensures frame > 0 && IsLeastRun(words[..], max, frame, 1)
    {
      var found := FirstFree();
      ScanInside(words[..], max, found);
      LeastClearIsRun(words[..], max, used, found);
      frame := found;
    }

    /** The common end of both allocations: mark the frames, count them, return the address. */
    method Take(frame: nat, size: nat) returns (addr: int)
      requires Valid() && frame > 0 && IsLeastRun(words[..], max, frame, size)
      modifies this`used, words
      ensures Valid()
      ensures addr == frame * BLOCK_SIZE && addr / BLOCK_SIZE == frame && addr % BLOCK_SIZE == 0
      ensures Granted(old(words[..]), words[..], max, frame, size) && used == old(used) + size
    {
      ghost var before := words[..];
      MarkRun(frame, size, true);
      ghost var after := words[..];
      RunGranted(before, after, max, used, frame, size);
      used := used + size;
      addr := frame * BLOCK_SIZE;
      assert words[..] == after;
    }

    /** pmmngr_free_block. The counter stays right exactly for a used frame that is not block 0. */
    method FreeBlock(addr: int)
      requires Formed() && 0 <= addr / BLOCK_SIZE < max
      modifies this`used, words
      ensures Formed() && used == old(used) - 1 && Used() == old(Used()) - {addr / BLOCK_SIZE}
      ensures Marked(old(words[..]), words[..], addr / BLOCK_SIZE, 1, false)
      ensures old(Valid()) ==> (Valid() <==> 0 < addr / BLOCK_SIZE && addr / BLOCK_SIZE in old(Used()))
    {
      var frame := addr / BLOCK_SIZE;
      MmapUnset(frame);
      FrameIsRun(words[..], max, frame);
      MarkedSet(old(words[..]), words[..], max, frame, 1, false);
      if old(Valid()) {
        RunGiven(old(words[..]), words[..], max, used, frame, 1);
      }
      used := used - 1;
    }

    // ----- regions

    /** pmmngr_init_region. */
    method InitRegion(base: nat, size: int)
      requires base / BLOCK_SIZE + Blocks(size) <= 32 * words.Length && words.Length > 0
      modifies this`used, words
      ensures used == old(used) - Blocks(size)
      ensures RegionStored(old(words[..]), words[..], base / BLOCK_SIZE, Blocks(size), false)
      ensures (old(Valid()) && base / BLOCK_SIZE > 0 && base / BLOCK_SIZE + Blocks(size) <= max
               && RunSet(base / BLOCK_SIZE, Blocks(size)) <= old(Used())) ==>
        Valid() && Used() == old(Used()) - RunSet(base / BLOCK_SIZE, Blocks(size))
    {
      var align := base / BLOCK_SIZE;
      var blocks := Blocks(size);
      ghost var n := blocks;
      while blocks > 0
        invariant 0 <= blocks <= n && align == base / BLOCK_SIZE + (n - blocks)
        invariant used == old(used) - (n - blocks)
        invariant Marked(old(words[..]), words[..], base / BLOCK_SIZE, n - blocks, false)
      {
        ghost var mid := words[..];
        MmapUnset(align);
        MarkOneMore(old(words[..]), mid, words[..], base / BLOCK_SIZE, n - blocks, false);
        align := align + 1;
        used := used - 1;
        blocks := blocks - 1;
      }
      MmapSet(0);
      RegionFreed(old(words[..]), words[..], max, base / BLOCK_SIZE, n, old(used));
    }

    /** pmmngr_deinit_region. */
    method DeinitRegion(base: nat, size: int)
      requires base / BLOCK_SIZE + Blocks(size) <= 32 * words.Length && words.Length > 0
      modifies this`used, words
      ensures used == old(used) + Blocks(size)
      ensures RegionStored(old(words[..]), words[..], base / BLOCK_SIZE, Blocks(size), true)
      ensures (old(Valid()) && 0 < max && base / BLOCK_SIZE + Blocks(size) <= max
               && RunSet(base / BLOCK_SIZE, Blocks(size)) !! old(Used())) ==>
        Valid() && Used() == old(Used()) + RunSet(base / BLOCK_SIZE, Blocks(size))
    {
      var align := base / BLOCK_SIZE;
      var blocks := Blocks(size);
      ghost var n := blocks;
      while blocks > 0
        invariant 0 <= blocks <= n && align == base / BLOCK_SIZE + (n - blocks)
        invariant used == old(used) + (n - blocks)
        invariant Marked(old(words[..]), words[..], base / BLOCK_SIZE, n - blocks, true)
      {
        ghost var mid := words[..];
        MmapSet(align);
        MarkOneMore(old(words[..]), mid, words[..], base / BLOCK_SIZE, n - blocks, true);
        align := align + 1;
        used := used + 1;
        blocks := blocks - 1;
      }
      MmapSet(0);
      RegionUsed(old(words[..]), words[..], max, base / BLOCK_SIZE, n, old(used));
    }

    // ----- runs of blocks

    /** mmap_first_free_s as it is meant: the least start of `size` consecutive free frames. */
    method FirstFreeRun(size: nat) returns (frame: int)
      requires Formed()
      ensures size == 0 ==> frame == -1
      ensures size == 1 && frame == -1 ==> forall f :: 0 <= f < 32 * max ==> BitAt(words[..], f)
      ensures size == 1 && frame != -1 ==> frame < 32 * max && IsLeastClear(words[..], frame)
      ensures size >= 2 && frame == -1 ==> forall p :: !RunClear(words[..], max, p, size)
      ensures size >= 2 && frame != -1 ==> IsLeastRun(words[..], max, frame, size)
    {
      if size == 0 {
        return -1;
      }
      if size == 1 {
        frame := FirstFree();
        return;
      }
      var i := 0;
      while i < max
        invariant 0 <= i <= max
        invariant forall p :: p < 32 * i ==> !RunClear(words[..], max, p, size)
      {
        if words[i] != FULL {
          var j := 0;
          while j < 32
            invariant 0 <= j <= 32
            invariant forall p :: p < 32 * i + j ==> !RunClear(words[..], max, p, size)
          {
            if !words[i][j] {
              var count := CountRun(i * 32 + j, size);
              if count == size {
                return i * 32 + j;
              }
            } else {
              SetIsNoStart(words[..], max, 32 * i + j, size);
            }
            j := j + 1;
          }
        } else {
          FullWord(words[i]);
          forall p | 32 * i <= p < 32 * i + 32
            ensures !RunClear(words[..], max, p, size)
          {
            SetIsNoStart(words[..], max, p, size);
          }
        }
        i := i + 1;
      }
      return -1;
    }

    /** The inner loop of the search: it counts free frames from `start` on. */
    method CountRun(start: nat, size: nat) returns (count: nat)
      requires Formed() && start < 32 * max && size > 0
      ensures count == size <==> RunClear(words[..], max, start, size)
    {
      count := 0;
      while count < size && start + count < max
        invariant 0 <= count <= size && (count > 0 ==> start + count <= max)
        invariant forall g :: start <= g < start + count ==> !BitAt(words[..], g)
      {
        var b := MmapTest(start + count);
        if b {
          return;
        }
        count := count + 1;
      }
    }

    /** pmmngr_alloc_blocks: the least run of `size` free frames becomes used. It wants strictly
        more free frames than asked for. */
    method AllocBlocks(size: nat) returns (addr: int)
      requires Valid()
      modifies this`used, words
      ensures Valid()
      ensures addr == 0 <==> !old(RunAvailable(words[..], max, used, size))
      ensures addr == 0 ==> words[..] == old(words[..])
      ensures addr % BLOCK_SIZE == 0
      ensures addr != 0 ==> Granted(old(words[..]), words[..], max, addr / BLOCK_SIZE, size)
      ensures used == old(used) + if addr == 0 then 0 else size
    {
      if max - used <= size {
        return 0;
      }
      var frame := FindRun(size);
      if frame == -1 {
        return 0;
      }
      addr := Take(frame, size);
    }

    /** The search inside pmmngr_alloc_blocks, once enough frames are known to be free. */
    method FindRun(size: nat) returns (frame: int)
      requires Valid() && max - used > size
      ensures frame == -1 <==> !RunAvailable(words[..], max, used, size)
      ensures frame != -1 ==> IsLeastRun(words[..], max, frame, size) && frame > 0
    {
      frame := FirstFreeRun(size);
      if size == 1 {
        SingleRun(words[..], max, frame);
      }
      if frame != -1 {
        assert BitAt(words[..], 0) by {
          assert 0 in Used();
        }
      }
    }

    /** The loops of pmmngr_alloc_blocks and pmmngr_free_blocks over the run. */
    method MarkRun(frame: nat, size: nat, b: bool)
      requires frame + size <= 32 * words.Length
      modifies words
      ensures Marked(old(words[..]), words[..], frame, size, b)
    {
      var i := 0;
      while i < size
        invariant 0 <= i <= size
        invariant Marked(old(words[..]), words[..], frame, i, b)
      {
        ghost var mid := words[..];
        if b {
          MmapSet(frame + i);
        } else {
          MmapUnset(frame + i);
        }
        MarkOneMore(old(words[..]), mid, words[..], frame, i, b);
        i := i + 1;
      }
    }

    /** pmmngr_free_blocks. The counter stays right exactly for a run of used frames without block 0. */
    method FreeBlocks(addr: int, size: nat)
      requires Formed() && 0 <= addr / BLOCK_SIZE && addr / BLOCK_SIZE + size <= max
      modifies this`used, words
      ensures Formed() && used == old(used) - size && Used() == old(Used()) - RunSet(addr / BLOCK_SIZE, size)
      ensures Marked(old(words[..]), words[..], addr / BLOCK_SIZE, size, false)
      ensures old(Valid()) ==>
        (Valid() <==> RunSet(addr / BLOCK_SIZE, size) <= old(Used()) && (size == 0 || addr / BLOCK_SIZE > 0))
    {
      var frame := addr / BLOCK_SIZE;
      MarkRun(frame, size, false);
      MarkedSet(old(words[..]), words[..], max, frame, size, false);
      if old(Valid()) {
        RunGiven(old(words[..]), words[..], max, used, frame, size);
      }
      used := used - size;
    }
  }
}

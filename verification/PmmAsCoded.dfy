/** Two places of src/pmm.c that miss their stated intent, as coded, with the exact condition
    under which they meet it. */
module PmmAsCoded {
  import opened Machine
  import opened Pmm

  // ----- pmmngr_init: the fill that is to mark all blocks used

  /** A byte as its bits, least significant first. */
  type Byte = b: seq<bool> | |b| == 8 witness seq(8, _ => false)

  /** The fill byte of the source, 0xf. */
  const FILL: Byte := [true, true, true, true, false, false, false, false]

  /** The map after memset with `fill` over max / 8 bytes. */
  ghost predicate Filled(before: seq<Word>, after: seq<Word>, max: nat, fill: Byte) {
    forall f {:trigger BitAt(after, f)} ::
      BitAt(after, f) == if 0 <= f < 8 * (max / 8) then fill[f % 8] else BitAt(before, f)
  }

  /** The map in words: all bits of the bytes filled are the fill's, all others as before. */
  ghost predicate WordsFilled(before: seq<Word>, after: seq<Word>, max: nat, fill: Byte)
    requires |before| == |after|
  {
    forall i, j :: 0 <= i < |after| && 0 <= j < 32 ==>
      after[i][j] == if 32 * i + j < max / 8 * 8 then fill[j % 8] else before[i][j]
  }

  lemma FilledWords(before: seq<Word>, after: seq<Word>, max: nat, fill: Byte)
    requires |before| == |after| && Filled(before, after, max, fill)
    ensures WordsFilled(before, after, max, fill)
  {
    forall i, j | 0 <= i < |after| && 0 <= j < 32
      ensures after[i][j] == if 32 * i + j < max / 8 * 8 then fill[j % 8] else before[i][j]
    {
      assert after[i][j] == BitAt(after, 32 * i + j) && before[i][j] == BitAt(before, 32 * i + j);
    }
  }

  /** memset over the bytes of the map, eight frames each. */
  method Memset(words: array<Word>, max: nat, fill: Byte)
    requires max <= words.Length
    modifies words
    ensures Filled(old(words[..]), words[..], max, fill)
    ensures WordsFilled(old(words[..]), words[..], max, fill)
  {
    var b := 0;
    while b < 8 * (max / 8)
      invariant 0 <= b <= 8 * (max / 8)
      invariant forall f {:trigger BitAt(words[..], f)} ::
        BitAt(words[..], f) == if 0 <= f < b then fill[f % 8] else BitAt(old(words[..]), f)
    {
      ghost var mid := words[..];
      StoreBit(mid, b, fill[b % 8]);
      words[b / 32] := WithBit(words[b / 32], b % 32, fill[b % 8]);
      assert Marked(mid, words[..], b, 1, fill[b % 8]);
      b := b + 1;
    }
    FilledWords(old(words[..]), words[..], max, fill);
  }

  /** After initialisation the counter, which says "all blocks", is right exactly when the fill
      byte has every bit set (or covers no frame) and the frames past the last whole byte were
      used already. */
  lemma InitCountsIff(before: seq<Word>, after: seq<Word>, max: nat, fill: Byte)
    requires Filled(before, after, max, fill)
    ensures max == |UsedSet(after, max)| <==> (max < 8 || AllSet(fill)) && TailUsed(before, max)
  {
    UsedBound(after, max);
    if AllUsed(after, max) {
      UsedNeedsFill(before, after, max, fill);
    }
    if (max < 8 || AllSet(fill)) && TailUsed(before, max) {
      FillUses(before, after, max, fill);
    }
  }

  predicate AllSet(fill: Byte) {
    forall t :: 0 <= t < 8 ==> fill[t]
  }

  /** The frames past the last whole byte are used. */
  predicate TailUsed(words: seq<Word>, max: nat) {
    forall f :: 8 * (max / 8) <= f < max ==> BitAt(words, f)
  }

  lemma FillUses(before: seq<Word>, after: seq<Word>, max: nat, fill: Byte)
    requires Filled(before, after, max, fill) && (max < 8 || AllSet(fill)) && TailUsed(before, max)
    ensures AllUsed(after, max)
  {
    forall f | 0 <= f < max
      ensures BitAt(after, f)
    {
      assert 0 <= f % 8 < 8;
    }
  }

  lemma UsedNeedsFill(before: seq<Word>, after: seq<Word>, max: nat, fill: Byte)
    requires Filled(before, after, max, fill) && AllUsed(after, max)
    ensures (max < 8 || AllSet(fill)) && TailUsed(before, max)
  {
    forall f | 8 * (max / 8) <= f < max
      ensures BitAt(before, f)
    {
      assert BitAt(after, f);
    }
    forall t | 0 <= t < 8 && max >= 8
      ensures fill[t]
    {
      assert BitAt(after, t);
    }
  }

  /** With 0xf it is wrong for every machine of eight blocks or more. */
  lemma InitMiscounts(before: seq<Word>, after: seq<Word>, max: nat)
    requires Filled(before, after, max, FILL) && max >= 8
    ensures |UsedSet(after, max)| < max
  {
    InitCountsIff(before, after, max, FILL);
    UsedBound(after, max);
    assert !FILL[4];
  }

  // ----- mmap_first_free_s: the run test starts 2^j past the word, not j

  /** startingBit as coded; the 32-bit shift by 31 is negative. */
  function CodedStart(p: nat): int {
    32 * (p / 32) + if p % 32 == 31 then -0x8000_0000 else Pow2(p % 32)
  }

  function ClearCount(test: int -> bool, start: int, n: nat): nat {
    if n == 0 then 0 else ClearCount(test, start, n - 1) + if test(start + n - 1) then 0 else 1
  }

  /** The inner loop as coded: `free` is never reset and size + 1 bits are looked at. */
  predicate CodedAccepts(test: int -> bool, p: nat, size: nat) {
    !test(p) && ClearCount(test, CodedStart(p), size + 1) >= size
  }

  function CodedScan(test: int -> bool, p: nat, end: nat, size: nat): (f: int)
    ensures f == -1 || p <= f < end
    decreases end - p
  {
    if p >= end then -1
    else if CodedAccepts(test, p, size) then p
    else CodedScan(test, p + 1, end, size)
  }

  function FirstClear(test: int -> bool, p: nat, end: nat): (f: int)
    ensures f == -1 || (p <= f < end && !test(f))
    decreases end - p
  {
    if p >= end then -1 else if !test(p) then p else FirstClear(test, p + 1, end)
  }

  /** mmap_first_free_s over max words, `test` being the bit at any offset from the map. */
  function CodedRun(test: int -> bool, max: nat, size: nat): (f: int)
    ensures f == -1 || 0 <= f < 32 * max
  {
    if size == 0 then -1
    else if size == 1 then FirstClear(test, 0, 32 * max)
    else CodedScan(test, 0, 32 * max, size)
  }

  /** A call pmmngr_alloc_blocks lets through: block 0 is used, as it always is, and more blocks of
      the map are free than asked for. */
  predicate Asked(test: int -> bool, max: nat, size: nat) {
    test(0) && ClearCount(test, 0, max) > size
  }

  /** The answer, if there is one, is the start of `size` free blocks of the map. */
  ghost predicate Sound(test: int -> bool, max: nat, size: nat) {
    var f := CodedRun(test, max, size);
    f >= 0 ==> f + size <= max && forall g :: f <= g < f + size ==> !test(g)
  }

  lemma {:induction false} CountBound(test: int -> bool, start: int, n: nat)
    ensures ClearCount(test, start, n) <= n
    ensures ClearCount(test, start, n) == n <==> forall g :: start <= g < start + n ==> !test(g)
  {
    if n > 0 {
      CountBound(test, start, n - 1);
      if forall g :: start <= g < start + (n - 1) ==> !test(g) {
        assert !test(start + n - 1) <==> forall g :: start <= g < start + n ==> !test(g);
      }
    }
  }

  lemma {:induction false} CountSplit(test: int -> bool, start: int, m: nat, n: nat)
    ensures ClearCount(test, start, m + n) == ClearCount(test, start, m) + ClearCount(test, start + m, n)
  {
    if n > 0 {
      CountSplit(test, start, m, n - 1);
    }
  }

  /** For one block the guard is enough: the least clear bit lies in the map. */
  lemma {:induction false} SingleIsSound(test: int -> bool, p: nat, max: nat, end: nat)
    requires p <= max <= end && ClearCount(test, p, max - p) > 0
    ensures p <= FirstClear(test, p, end) < max
    decreases max - p
  {
    if p < max && test(p) {
      CountSplit(test, p, 1, max - p - 1);
      assert ClearCount(test, p, 1) == ClearCount(test, p, 0) + 0;
      SingleIsSound(test, p + 1, max, end);
    } else {
      CountBound(test, p, max - p);
    }
  }

  lemma ScanAnswersOne(test: int -> bool, max: nat, size: nat)
    requires max > 0 && size >= 2 && !CodedAccepts(test, 0, size) && CodedAccepts(test, 1, size)
    ensures CodedRun(test, max, size) == 1
  {
    var end: nat := 32 * max;
    assert CodedScan(test, 1, end, size) == 1;
    assert CodedScan(test, 0, end, size) == CodedScan(test, 0 + 1, end, size);
  }

  /** From block 1 the coded test starts at block 2. */
  lemma AcceptsOne(test: int -> bool, size: nat)
    requires !test(1) && ClearCount(test, 2, size + 1) >= size
    ensures CodedAccepts(test, 1, size)
  {
    assert Pow2(1) == 2;
  }

  lemma OnlyZeroUsed(test: int -> bool, max: nat)
    requires max >= 2 && Asked(test, max, max - 2)
    ensures forall g :: 1 <= g < max ==> !test(g)
  {
    CountSplit(test, 0, 1, max - 1);
    assert ClearCount(test, 0, 1) == ClearCount(test, 0, 0) + 0;
    CountBound(test, 1, max - 1);
  }

  /** When all blocks but block 0 and one more are asked for, only block 0 can be used. */
  lemma AllButOneIsSound(test: int -> bool, max: nat)
    requires max >= 4 && Asked(test, max, max - 2)
    ensures CodedRun(test, max, max - 2) == 1 && Sound(test, max, max - 2)
  {
    OnlyZeroUsed(test, max);
    CountSplit(test, 2, max - 2, 1);
    CountBound(test, 2, max - 2);
    AcceptsOne(test, max - 2);
    ScanAnswersOne(test, max, max - 2);
  }

  /** With blocks 0 and 2 used and all others free the answer is block 1, whatever size is asked for. */
  lemma AnswersOne(test: int -> bool, max: nat, size: nat)
    requires forall f :: test(f) <==> f == 0 || f == 2
    requires size >= 2 && max > size + 2
    ensures Asked(test, max, size) && CodedRun(test, max, size) == 1 && !Sound(test, max, size)
  {
    TwoUsed(test, max, size);
    AcceptsOne(test, size);
    ScanAnswersOne(test, max, size);
    assert test(2);
  }

  lemma TwoUsed(test: int -> bool, max: nat, size: nat)
    requires forall f :: test(f) <==> f == 0 || f == 2
    requires size >= 2 && max > size + 2
    ensures ClearCount(test, 0, max) > size && ClearCount(test, 2, size + 1) == size
  {
    CountSplit(test, 0, 2, max - 2);
    CountSplit(test, 2, 1, max - 3);
    CountBound(test, 3, max - 3);
    assert ClearCount(test, 0, 2) == ClearCount(test, 0, 1) + 1;
    CountSplit(test, 2, 1, size);
    CountBound(test, 3, size);
    assert ClearCount(test, 2, 1) == ClearCount(test, 2, 0) + 0;
  }

  /** The run search as coded is right on every map it can be called on exactly when at most one
      block is asked for, or so many that only a map with nothing used but block 0 has them. */
  lemma CodedRunSoundIff(max: nat, size: nat)
    ensures (forall test: int -> bool {:trigger Sound(test, max, size)} ::
              Asked(test, max, size) ==> Sound(test, max, size))
       <==> size <= 1 || max <= size + 2
  {
    if size <= 1 || max <= size + 2 {
      forall test: int -> bool | Asked(test, max, size)
        ensures Sound(test, max, size)
      {
        CountBound(test, 0, max);
        if size == 1 {
          SingleIsSound(test, 0, max, 32 * max);
        } else if size >= 2 {
          CountSplit(test, 0, 1, max - 1);
          assert ClearCount(test, 0, 1) == ClearCount(test, 0, 0) + 0;
          CountBound(test, 1, max - 1);
          assert max == size + 2;
          AllButOneIsSound(test, max);
        }
      }
    } else {
      var test: int -> bool := f => f == 0 || f == 2;
      AnswersOne(test, max, size);
    }
  }

  // ----- the search and the allocation as they run

  /** `test` is the memory around the map, bit by bit, and agrees with it where the scan looks for words. */
  ghost predicate Around(words: seq<Word>, max: nat, test: int -> bool) {
    forall f :: 0 <= f < 32 * max ==> test(f) == BitAt(words, f)
  }

  lemma {:induction false} CountGrows(test: int -> bool, start: int, m: nat, n: nat)
    requires m <= n
    ensures ClearCount(test, start, m) <= ClearCount(test, start, n)
    decreases n
  {
    if m < n {
      CountGrows(test, start, m, n - 1);
    }
  }

  /** The loop over `count`, with its early return. */
  method CountFree(test: int -> bool, startingBit: int, size: nat) returns (enough: bool)
    requires size > 0
    ensures enough <==> ClearCount(test, startingBit, size + 1) >= size
  {
    var free, count := 0, 0;
    while count <= size
      invariant 0 <= count <= size + 1 && free == ClearCount(test, startingBit, count) && free < size
    {
      if !test(startingBit + count) {
        free := free + 1;
      }
      if free == size {
        CountGrows(test, startingBit, count + 1, size + 1);
        return true;
      }
      count := count + 1;
    }
    return false;
  }

  /** What mmap_first_free answers. */
  lemma {:induction false} FirstClearIs(test: int -> bool, p: nat, end: nat, f: int)
    requires p <= end && (f == -1 || p <= f < end)
    requires forall g :: p <= g < (if f == -1 then end else f) ==> test(g)
    requires f != -1 ==> !test(f)
    ensures FirstClear(test, p, end) == f
    decreases end - p
  {
    if p < end && test(p) {
      FirstClearIs(test, p + 1, end, f);
    }
  }

  /** A full word has no start. */
  lemma {:induction false} FullIsSkipped(test: int -> bool, p: nat, q: nat, end: nat, size: nat)
    requires p <= q <= end && forall g :: p <= g < q ==> test(g)
    ensures CodedScan(test, p, end, size) == CodedScan(test, q, end, size)
    decreases q - p
  {
    if p < q {
      FullIsSkipped(test, p + 1, q, end, size);
    }
  }

  /** 1 << j in a signed 32-bit integer. */
  function Bit(j: nat): int {
    if j == 31 then -0x8000_0000 else Pow2(j)
  }

  /** mmap_first_free_s. */
  method FirstFreeRun(a: FrameAllocator, test: int -> bool, size: nat) returns (frame: int)
    requires a.Formed() && Around(a.words[..], a.max, test)
    ensures frame == CodedRun(test, a.max, size)
  {
    if size == 0 {
      return -1;
    }
    if size == 1 {
      frame := a.FirstFree();
      SingleAnswer(a.words[..], a.max, test, frame);
      return;
    }
    frame := SearchWords(a, test, size);
  }

  /** The loop over the words. */
  method SearchWords(a: FrameAllocator, test: int -> bool, size: nat) returns (frame: int)
    requires a.Formed() && Around(a.words[..], a.max, test) && size > 0
    ensures frame == CodedScan(test, 0, 32 * a.max, size)
  {
    var i, p := 0, 0;
    ghost var end: nat := 32 * a.max;
    while i < a.max
      invariant 0 <= i <= a.max && p == 32 * i
      invariant CodedScan(test, p, end, size) == CodedScan(test, 0, end, size)
    {
      WordAround(a.words[..], a.max, test, i, p);
      frame := SearchWord(a.words[i], test, p, size, end);
      if frame != -1 {
        return;
      }
      i, p := i + 1, p + 32;
    }
    return -1;
  }

  lemma SingleAnswer(words: seq<Word>, max: nat, test: int -> bool, frame: int)
    requires Around(words, max, test)
    requires frame == -1 ==> forall f :: 0 <= f < 32 * max ==> BitAt(words, f)
    requires frame != -1 ==> frame < 32 * max && IsLeastClear(words, frame)
    ensures frame == CodedRun(test, max, 1)
  {
    var end: nat := 32 * max;
    forall g | 0 <= g < (if frame == -1 then end else frame)
      ensures test(g)
    {
      assert BitAt(words, g);
    }
    FirstClearIs(test, 0, end, frame);
  }

  /** w is what stands at bit p. */
  ghost predicate WordAt(test: int -> bool, p: nat, w: Word) {
    forall j :: 0 <= j < 32 ==> test(p + j) == w[j]
  }

  lemma WordAround(words: seq<Word>, max: nat, test: int -> bool, i: nat, p: nat)
    requires Around(words, max, test) && i < max <= |words| && p == 32 * i
    ensures WordAt(test, p, words[i]) && p % 32 == 0 && p + 32 <= 32 * max
  {
    forall j | 0 <= j < 32
      ensures test(32 * i + j) == words[i][j]
    {
      assert test(32 * i + j) == BitAt(words, 32 * i + j);
    }
  }

  /** The search of a word, which stands at bit p. */
  method SearchWord(w: Word, test: int -> bool, p: nat, size: nat, ghost end: nat) returns (frame: int)
    requires WordAt(test, p, w) && p % 32 == 0 && p + 32 <= end && size > 0
    ensures frame == -1 || 0 <= frame
    ensures CodedScan(test, p, end, size) == if frame == -1 then CodedScan(test, p + 32, end, size) else frame
  {
    if w != FULL {
      frame := SearchBits(w, test, p, size, end);
    } else {
      forall g | p <= g < p + 32
        ensures test(g)
      {
        assert test(p + (g - p)) == w[g - p];
      }
      FullIsSkipped(test, p, p + 32, end, size);
      frame := -1;
    }
  }

  /** The loop over its bits. */
  method SearchBits(w: Word, test: int -> bool, p: nat, size: nat, ghost end: nat) returns (frame: int)
    requires WordAt(test, p, w) && p % 32 == 0 && p + 32 <= end && size > 0
    ensures frame == -1 || 0 <= frame
    ensures CodedScan(test, p, end, size) == if frame == -1 then CodedScan(test, p + 32, end, size) else frame
  {
    var j := 0;
    while j < 32
      invariant 0 <= j <= 32 && CodedScan(test, p + j, end, size) == CodedScan(test, p, end, size)
    {
      var found := SearchBit(w, test, p, j, size);
      ScanOn(test, p + j, end, size);
      if found {
        return p + j;
      }
      j := j + 1;
    }
    return -1;
  }

  /** One bit: it must be clear, and enough bits must be clear from where the count starts. */
  method SearchBit(w: Word, test: int -> bool, p: nat, j: nat, size: nat) returns (found: bool)
    requires WordAt(test, p, w) && p % 32 == 0 && j < 32 && size > 0
    ensures found <==> CodedAccepts(test, p + j, size)
  {
    assert test(p + j) == w[j];
    found := false;
    if !w[j] {
      StartIs(p, j);
      found := CountFree(test, p + Bit(j), size);
    }
  }

  lemma ScanOn(test: int -> bool, p: nat, end: nat, size: nat)
    requires p < end
    ensures CodedScan(test, p, end, size) ==
      if CodedAccepts(test, p, size) then p else CodedScan(test, p + 1, end, size)
  {
  }

  lemma StartIs(p: nat, j: nat)
    requires p % 32 == 0 && j < 32
    ensures CodedStart(p + j) == p + Bit(j)
  {
  }

  /** Marking a run as used and adding its length to the counter keeps the counter right exactly when
      the run was free and in the map. */
  lemma RunMarked(before: seq<Word>, after: seq<Word>, max: nat, used: int, f: nat, n: nat)
    requires Counted(before, max, used) && Marked(before, after, f, n, true)
    ensures Counted(after, max, used + n) <==> n == 0 || RunClear(before, max, f, n)
  {
    var u, taken := UsedSet(before, max), FreeOf(before, max, f, n);
    assert UsedSet(after, max) == u + taken;
    SubsetSize(taken, RunSet(f, n));
    FreeOfAll(before, max, f, n);
  }

  /** The free frames of the map in a run. */
  function FreeOf(words: seq<Word>, max: nat, f: nat, n: nat): (s: set<int>)
    ensures s <= RunSet(f, n) && s !! UsedSet(words, max)
  {
    set g | g in RunSet(f, n) && g < max && !BitAt(words, g)
  }

  lemma FreeOfAll(words: seq<Word>, max: nat, f: nat, n: nat)
    ensures FreeOf(words, max, f, n) == RunSet(f, n) <==> n == 0 || RunClear(words, max, f, n)
  {
    if FreeOf(words, max, f, n) == RunSet(f, n) && n > 0 {
      assert f + n - 1 in RunSet(f, n);
      forall g | f <= g < f + n
        ensures !BitAt(words, g)
      {
        assert g in RunSet(f, n);
      }
    }
  }

  lemma {:induction false} ClearAndUsed(words: seq<Word>, test: int -> bool, n: nat)
    requires forall f :: 0 <= f < n ==> test(f) == BitAt(words, f)
    ensures ClearCount(test, 0, n) + |UsedSet(words, n)| == n
  {
    if n > 0 {
      ClearAndUsed(words, test, n - 1);
      assert test(n - 1) == BitAt(words, n - 1);
      UsedNext(words, n - 1);
    } else {
      assert UsedSet(words, 0) == {};
    }
  }

  lemma UsedNext(words: seq<Word>, n: nat)
    ensures |UsedSet(words, n + 1)| == |UsedSet(words, n)| + if BitAt(words, n) then 1 else 0
  {
    var u, v := UsedSet(words, n), UsedSet(words, n + 1);
    if BitAt(words, n) {
      assert v == u + {n};
    } else {
      assert v == u;
    }
  }

  /** While the counter is right, its guard lets through exactly the calls `Asked` describes. */
  lemma GuardIsAsked(words: seq<Word>, max: nat, used: int, test: int -> bool, size: nat)
    requires Counted(words, max, used) && Around(words, max, test)
    ensures max - used > size <==> Asked(test, max, size)
  {
    ClearAndUsed(words, test, max);
    assert max > 0 ==> test(0) == BitAt(words, 0);
    UsedBound(words, max);
  }

  /** pmmngr_alloc_blocks over the search as coded; the address is cut to 32 bits. The counter stays
      right exactly when the search's answer was sound. */
  method AllocBlocks(a: FrameAllocator, test: int -> bool, size: nat) returns (addr: int, ghost frame: int)
    requires a.Valid() && Around(a.words[..], a.max, test)
    requires CodedRun(test, a.max, size) + size <= 32 * a.words.Length
    modifies a`used, a.words
    ensures frame == if a.max - old(a.used) <= size then -1 else CodedRun(test, a.max, size)
    ensures frame < 0 ==> addr == 0 && a.used == old(a.used) && a.words[..] == old(a.words[..])
    ensures frame >= 0 ==>
      && addr == frame * BLOCK_SIZE % TWO32 && a.used == old(a.used) + size
      && Marked(old(a.words[..]), a.words[..], frame, size, true)
    ensures a.Valid() <==> frame < 0 || Sound(test, a.max, size)
  {
    frame := -1;
    if a.max - a.used <= size {
      return 0, -1;
    }
    var found := FirstFreeRun(a, test, size);
    frame := found;
    if found == -1 {
      return 0, -1;
    }
    ghost var before := a.words[..];
    a.MarkRun(found, size, true);
    RunMarked(before, a.words[..], a.max, a.used, found, size);
    a.used := a.used + size;
    addr := found * BLOCK_SIZE % TWO32;
  }
}

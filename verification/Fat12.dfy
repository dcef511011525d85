/** src/fat12.c: the 12-bit table as the FAT12 format defines it. */
module Fat12Table {
  const SECTOR_SIZE := 512
  const FIRST_END := 0xff8

  type Byte = b: int | 0 <= b < 256
  type Sector = s: seq<Byte> | |s| == SECTOR_SIZE witness seq(SECTOR_SIZE, _ => 0)
  type Disk = int -> Sector
  type Bytes = nat -> Byte

  /** The flat table: its first sector is sector 1. */
  function Flat(disk: Disk): Bytes {
    (o: nat) => disk(1 + o / SECTOR_SIZE)[o % SECTOR_SIZE]
  }

  /** The j-th group of four bits of the table, low half of each byte first. */
  function Nibble(bytes: Bytes, j: nat): (n: nat)
    ensures n < 16
  {
    if j % 2 == 0 then bytes(j / 2) % 16 else bytes(j / 2) / 16
  }

  function Number(n0: nat, n1: nat, n2: nat): nat {
    n0 + 16 * n1 + 256 * n2
  }

  /** The c-th 12-bit entry. */
  function Entry(bytes: Bytes, c: nat): (e: nat)
    ensures e < 4096
  {
    Number(Nibble(bytes, 3 * c), Nibble(bytes, 3 * c + 1), Nibble(bytes, 3 * c + 2))
  }

  function Entries(bytes: Bytes): nat -> nat {
    (c: nat) => Entry(bytes, c)
  }

  function Word16(low: Byte, high: Byte): (w: int)
    ensures 0 <= w < 0x10000
  {
    low + 256 * high
  }

  /** The two bytes at c * 1.5, little-endian. */
  function Word(bytes: Bytes, c: nat): int {
    Word16(bytes(c + c / 2), bytes(c + c / 2 + 1))
  }

  lemma WordLow(low: Byte, high: Byte)
    ensures Word16(low, high) % 4096 == Number(low % 16, low / 16, high % 16)
  {
    var r := Number(low % 16, low / 16, high % 16);
    assert Word16(low, high) == 4096 * (high / 16) + r;
  }

  lemma WordHigh(low: Byte, high: Byte)
    ensures Word16(low, high) / 16 == Number(low / 16, high % 16, high / 16)
  {
    var q := Number(low / 16, high % 16, high / 16);
    assert Word16(low, high) == 16 * q + low % 16;
  }

  lemma NibbleAt(bytes: Bytes, o: nat)
    ensures Nibble(bytes, 2 * o) == bytes(o) % 16 && Nibble(bytes, 2 * o + 1) == bytes(o) / 16
  {
    assert 2 * o / 2 == o && (2 * o + 1) / 2 == o;
  }

  /** Shifted for an odd cluster, masked for an even one, that word is the entry. */
  lemma WordHoldsEntry(bytes: Bytes, c: nat)
    ensures Entry(bytes, c) == if c % 2 == 1 then Word(bytes, c) / 16 else Word(bytes, c) % 4096
  {
    var o := c + c / 2;
    NibbleAt(bytes, o);
    NibbleAt(bytes, o + 1);
    if c % 2 == 1 {
      assert 3 * c == 2 * o + 1;
      WordHigh(bytes(o), bytes(o + 1));
    } else {
      assert 3 * c == 2 * o;
      WordLow(bytes(o), bytes(o + 1));
    }
  }

  /** On a volume whose table, from sector 1 on, holds the p-th pair of entries x and y in three bytes as
      the format has it, both are read back. */
  lemma PairOnDisk(disk: Disk, p: nat, x: nat, y: nat)
    requires x < 4096 && y < 4096
    requires disk(1 + 3 * p / 512)[3 * p % 512] == x % 256
    requires disk(1 + (3 * p + 1) / 512)[(3 * p + 1) % 512] == x / 256 + 16 * (y % 16)
    requires disk(1 + (3 * p + 2) / 512)[(3 * p + 2) % 512] == y / 16
    ensures Entry(Flat(disk), 2 * p) == x && Entry(Flat(disk), 2 * p + 1) == y
  {
    var bytes := Flat(disk);
    EntriesOfPair(bytes, p);
    FirstOfPair(x, y, bytes(3 * p), bytes(3 * p + 1));
    SecondOfPair(x, y, bytes(3 * p + 1), bytes(3 * p + 2));
  }

  lemma EntriesOfPair(bytes: Bytes, p: nat)
    ensures Entry(bytes, 2 * p) == Word16(bytes(3 * p), bytes(3 * p + 1)) % 4096
    ensures Entry(bytes, 2 * p + 1) == Word16(bytes(3 * p + 1), bytes(3 * p + 2)) / 16
  {
    WordHoldsEntry(bytes, 2 * p);
    WordHoldsEntry(bytes, 2 * p + 1);
    assert 2 * p + 2 * p / 2 == 3 * p && 2 * p + 1 + (2 * p + 1) / 2 == 3 * p + 1;
  }

  lemma FirstOfPair(x: nat, y: nat, b0: Byte, b1: Byte)
    requires x < 4096 && b0 == x % 256 && b1 == x / 256 + 16 * (y % 16)
    ensures Word16(b0, b1) % 4096 == x
  {
    assert Word16(b0, b1) == x + 4096 * (y % 16);
  }

  lemma SecondOfPair(x: nat, y: nat, b1: Byte, b2: Byte)
    requires x < 4096 && b1 == x / 256 + 16 * (y % 16) && b2 == y / 16
    ensures Word16(b1, b2) / 16 == y
  {
    assert Word16(b1, b2) == x / 256 + 16 * y;
  }

  // ----- packing

  /** The four-bit groups of 12-bit entries laid end to end. */
  function PackedNibble(entries: nat -> nat, j: nat): (n: nat)
    ensures n < 16
  {
    Digit(entries(j / 3), j % 3)
  }

  function Digit(n: nat, i: nat): (d: nat)
    ensures d < 16
  {
    if i == 0 then n % 16 else if i == 1 then n / 16 % 16 else n / 256 % 16
  }

  /** Byte o of the table that holds the given entries. */
  function PackedByte(entries: nat -> nat, o: nat): nat {
    PackedNibble(entries, 2 * o) + 16 * PackedNibble(entries, 2 * o + 1)
  }

  lemma DigitsOf(n: nat)
    requires n < 4096
    ensures Number(Digit(n, 0), Digit(n, 1), Digit(n, 2)) == n
  {
    assert n / 256 == n / 16 / 16;
  }

  lemma DigitsUnique(n0: nat, n1: nat, n2: nat)
    requires n0 < 16 && n1 < 16 && n2 < 16
    ensures var n := Number(n0, n1, n2); Digit(n, 0) == n0 && Digit(n, 1) == n1 && Digit(n, 2) == n2
  {
    assert Number(n0, n1, n2) / 16 == n1 + 16 * n2;
  }

  /** Decoding inverts packing. */
  lemma PackThenDecode(bytes: Bytes, entries: nat -> nat, c: nat)
    requires forall i: nat :: entries(i) < 4096
    requires forall o: nat :: bytes(o) == PackedByte(entries, o)
    ensures Entry(bytes, c) == entries(c)
  {
    NibbleOfPacked(bytes, entries, 3 * c);
    NibbleOfPacked(bytes, entries, 3 * c + 1);
    NibbleOfPacked(bytes, entries, 3 * c + 2);
    EntryOfNibbles(bytes, entries, c);
  }

  lemma EntryOfNibbles(bytes: Bytes, entries: nat -> nat, c: nat)
    requires entries(c) < 4096
    requires Nibble(bytes, 3 * c) == PackedNibble(entries, 3 * c)
    requires Nibble(bytes, 3 * c + 1) == PackedNibble(entries, 3 * c + 1)
    requires Nibble(bytes, 3 * c + 2) == PackedNibble(entries, 3 * c + 2)
    ensures Entry(bytes, c) == entries(c)
  {
    DigitsOf(entries(c));
    PackedAt(entries, c, 0);
    PackedAt(entries, c, 1);
    PackedAt(entries, c, 2);
  }

  lemma PackedAt(entries: nat -> nat, c: nat, i: nat)
    requires i < 3
    ensures PackedNibble(entries, 3 * c + i) == Digit(entries(c), i)
  {
    assert (3 * c + i) / 3 == c && (3 * c + i) % 3 == i;
  }

  lemma NibbleOfPacked(bytes: Bytes, entries: nat -> nat, j: nat)
    requires bytes(j / 2) == PackedByte(entries, j / 2)
    ensures Nibble(bytes, j) == PackedNibble(entries, j)
  {
    assert j == 2 * (j / 2) || j == 2 * (j / 2) + 1;
  }

  /** Packing inverts decoding. */
  lemma DecodeThenPack(bytes: Bytes, o: nat)
    ensures PackedByte(Entries(bytes), o) == bytes(o)
  {
    PackedOfNibble(bytes, 2 * o);
    PackedOfNibble(bytes, 2 * o + 1);
    NibbleAt(bytes, o);
  }

  lemma PackedOfNibble(bytes: Bytes, j: nat)
    ensures PackedNibble(Entries(bytes), j) == Nibble(bytes, j)
  {
    var c := j / 3;
    DigitsUnique(Nibble(bytes, 3 * c), Nibble(bytes, 3 * c + 1), Nibble(bytes, 3 * c + 2));
    assert j == 3 * c || j == 3 * c + 1 || j == 3 * c + 2;
  }
}

/** src/fat12.c: walking a file's cluster chain. A table maps each cluster to its entry. */
module Fat12Chain {
  import opened Fat12Table

  type Table = nat -> nat

  /** The entry marks the end of the file, or a corrupt table. */
  predicate Last(table: Table, c: nat) {
    table(c) >= FIRST_END || table(c) == 0
  }

  /** The chain from c has at most n clusters. */
  predicate EndsWithin(table: Table, c: nat, n: nat)
    decreases n
  {
    n > 0 && (Last(table, c) || EndsWithin(table, table(c), n - 1))
  }

  /** The number of clusters in the chain from c. */
  function Length(table: Table, c: nat, n: nat): (l: nat)
    requires EndsWithin(table, c, n)
    ensures 0 < l <= n
    decreases n
  {
    if Last(table, c) then 1 else 1 + Length(table, table(c), n - 1)
  }

  /** The clusters of a file from c on: each the entry of the one before and none a mark of the end,
      the last with such a mark for its entry. */
  predicate Chain(table: Table, c: nat, cs: seq<nat>)
    decreases cs
  {
    && cs != [] && cs[0] == c
    && if |cs| == 1 then table(c) >= 0xff8 || table(c) == 0
       else 0 < table(c) < 0xff8 && Chain(table, table(c), cs[1..])
  }

  /** A chain has at most n clusters exactly when a list of as many is one. */
  lemma {:induction false} EndsWithinIff(table: Table, c: nat, n: nat)
    ensures EndsWithin(table, c, n) <==> exists cs: seq<nat> :: Chain(table, c, cs) && |cs| <= n
    decreases n
  {
    if n > 0 {
      if Last(table, c) {
        assert Chain(table, c, [c]);
      } else {
        EndsWithinIff(table, table(c), n - 1);
        if EndsWithin(table, table(c), n - 1) {
          var cs: seq<nat> :| Chain(table, table(c), cs) && |cs| <= n - 1;
          assert ([c] + cs)[1..] == cs;
          assert Chain(table, c, [c] + cs);
        }
        if cs: seq<nat> :| Chain(table, c, cs) && |cs| <= n {
          assert Chain(table, table(c), cs[1..]);
        }
      }
    }
  }

  /** The clusters after the first, when the chain has more than one. */
  ghost function Later(table: Table, c: nat, n: nat): set<int>
    requires EndsWithin(table, c, n)
    decreases n
  {
    if Last(table, c) then {} else {table(c)} + Later(table, table(c), n - 1)
  }

  lemma {:induction false} EndsByLength(table: Table, c: nat, n: nat, m: nat)
    requires EndsWithin(table, c, n)
    ensures EndsWithin(table, c, m) <==> m >= Length(table, c, n)
    decreases n
  {
    if !Last(table, c) && m > 0 {
      EndsByLength(table, table(c), n - 1, m - 1);
    }
  }

  /** No cluster comes twice: each later one has a shorter chain. */
  lemma {:induction false} LaterDistinct(table: Table, c: nat, n: nat)
    requires EndsWithin(table, c, n)
    ensures |Later(table, c, n)| == Length(table, c, n) - 1
    ensures forall d :: d in Later(table, c, n) ==> 0 < d < FIRST_END && EndsWithin(table, d, Length(table, c, n) - 1)
    decreases n
  {
    if !Last(table, c) {
      var e := table(c);
      var l := Length(table, e, n - 1);
      LaterDistinct(table, e, n - 1);
      EndsByLength(table, e, n - 1, l - 1);
      EndsByLength(table, e, n - 1, l);
      assert e !in Later(table, e, n - 1);
      forall d | d in Later(table, e, n - 1)
        ensures EndsWithin(table, d, l)
      {
        EndsByLength(table, d, l - 1, l);
      }
    }
  }

  ghost function UpTo(n: nat): (s: set<int>)
    ensures |s| == n
    ensures forall d :: d in s <==> 0 < d <= n
  {
    if n == 0 then {} else UpTo(n - 1) + {n}
  }

  /** A chain that ends at all ends within 4088 clusters, so walking that far decides it. */
  lemma EndsIffSoon(table: Table, c: nat, bound: nat)
    requires bound >= 4088
    ensures (exists n: nat :: EndsWithin(table, c, n)) <==> EndsWithin(table, c, bound)
  {
    if n: nat :| EndsWithin(table, c, n) {
      LaterDistinct(table, c, n);
      var later, all := Later(table, c, n), UpTo(FIRST_END - 1);
      assert all == later + (all - later);
      EndsByLength(table, c, n, bound);
    }
  }

  // ----- the display loop ends exactly on the chains that end

  /** What k reads leave of (currentCluster, eof). */
  function AfterReads(table: Table, c: nat, k: nat): (r: (nat, bool)) {
    if k == 0 then (c, false)
    else
      var (d, eof) := AfterReads(table, c, k - 1);
      if eof || Last(table, d) then (d, true) else (table(d), false)
  }

  lemma {:induction false} AfterReadsStep(table: Table, c: nat, k: nat)
    ensures AfterReads(table, c, k + 1) == if Last(table, c) then (c, true) else AfterReads(table, table(c), k)
  {
    if k > 0 {
      AfterReadsStep(table, c, k - 1);
    }
  }

  /** eof is set by exactly the read of the last cluster. */
  lemma {:induction false} EofIff(table: Table, c: nat, k: nat)
    ensures AfterReads(table, c, k).1 <==> EndsWithin(table, c, k)
    decreases k
  {
    if k > 0 {
      AfterReadsStep(table, c, k - 1);
      EofIff(table, table(c), k - 1);
    }
  }
}

/** src/fat12.c, src/kernel.c: reading a file cluster by cluster, in place. */
module Fat12 {
  import opened Machine
  import opened Fat12Table
  import opened Fat12Chain

  /** memcpy of one sector. */
  method Copy(a: array<Byte>, start: nat, sector: Sector)
    requires start + SECTOR_SIZE <= a.Length
    modifies a
    ensures a[..] == old(a[..start]) + sector + old(a[start + SECTOR_SIZE..])
  {
    forall i | 0 <= i < SECTOR_SIZE {
      a[start + i] := sector[i];
    }
  }

  /** The two-sector window holds the word of cluster c even when it straddles the two. */
  lemma WindowHoldsWord(disk: Disk, window: seq<Byte>, c: nat)
    requires window == disk(1 + (c + c / 2) / SECTOR_SIZE) + disk(2 + (c + c / 2) / SECTOR_SIZE)
    ensures var e := (c + c / 2) % SECTOR_SIZE;
      Word16(window[e], window[e + 1]) == Word(Flat(disk), c)
  {
    var o := c + c / 2;
    if o % SECTOR_SIZE == SECTOR_SIZE - 1 {
      assert (o + 1) / SECTOR_SIZE == o / SECTOR_SIZE + 1 && (o + 1) % SECTOR_SIZE == 0;
    } else {
      assert (o + 1) / SECTOR_SIZE == o / SECTOR_SIZE && (o + 1) % SECTOR_SIZE == o % SECTOR_SIZE + 1;
    }
  }

  /** c is not negative and its offset into the table fits in the 32 bits of FAT_Offset. */
  predicate InRange(c: int) {
    0 <= c && c + c / 2 < TWO32
  }

  class File {
    var currentCluster: int
    var eof: int

    constructor (firstCluster: int)
      ensures currentCluster == firstCluster && eof == 0
    {
      currentCluster, eof := firstCluster, 0;
    }
  }

  class FileSystem {
    const disk: Disk
    const fat: array<Byte>
    /** The disk's table, entry by entry. */
    ghost const table: Table

    constructor (d: Disk)
      ensures disk == d && table == Entries(Flat(d)) && Valid() && fresh(fat)
    {
      disk, table := d, Entries(Flat(d));
      fat := new Byte[2 * SECTOR_SIZE](_ => 0);
    }

    ghost predicate Valid() {
      && fat.Length == 2 * SECTOR_SIZE
      && forall c: nat {:trigger table(c), Entry(Flat(disk), c)} :: table(c) == Entry(Flat(disk), c)
    }

    /** fsysFatRead. */
    method Read(file: File?, buffer: array<Byte>)
      requires Valid() && buffer.Length >= SECTOR_SIZE && buffer != fat
      requires file != null ==> InRange(file.currentCluster)
      modifies file, buffer, fat
      ensures file == null ==> buffer[..] == old(buffer[..])
      ensures file != null ==>
        var c, next := old(file.currentCluster), table(old(file.currentCluster));
        && buffer[..] == disk(31 + c) + old(buffer[512..])
        && (if next >= 0xff8 || next == 0 then file.eof == 1 && file.currentCluster == c
            else file.eof == old(file.eof) && file.currentCluster == next)
    {
      if file != null {
        var physSector := 32 + (file.currentCluster - 1);
        Copy(buffer, 0, disk(physSector));
        var nextCluster := ReadEntry(file.currentCluster);
        if nextCluster >= FIRST_END {
          file.eof := 1;
          return;
        }
        if nextCluster == 0 {
          file.eof := 1;
          return;
        }
        file.currentCluster := nextCluster;
      }
    }

    /** The entry for the next cluster. The window holds the sector of the entry's first byte and
        the sector after it. */
    method ReadEntry(c: nat) returns (nextCluster: nat)
      requires Valid() && InRange(c)
      modifies fat
      ensures nextCluster == table(c)
    {
      var fatOffset := c + c / 2;
      var fatSector := 1 + fatOffset / SECTOR_SIZE;
      var entryOffset := fatOffset % SECTOR_SIZE;
      Copy(fat, 0, disk(fatSector));
      Copy(fat, SECTOR_SIZE, disk(fatSector + 1));
      assert fat[..] == disk(fatSector) + disk(fatSector + 1);
      WindowHoldsWord(disk, fat[..], c);
      var word := Word16(fat[entryOffset], fat[entryOffset + 1]);
      WordHoldsEntry(Flat(disk), c);
      assert table(c) == Entry(Flat(disk), c);
      nextCluster := if c % 2 == 1 then word / 16 else word % 4096;
    }

    method ReadSector(file: File) returns (sector: seq<Byte>)
      requires Valid() && InRange(file.currentCluster)
      modifies file, fat
      ensures sector == disk(31 + old(file.currentCluster)) && InRange(file.currentCluster)
      ensures var c, next := old(file.currentCluster), table(old(file.currentCluster));
        if next >= 0xff8 || next == 0 then file.eof == 1 && file.currentCluster == c
        else file.eof == old(file.eof) && file.currentCluster == next
    {
      var buf := new Byte[SECTOR_SIZE](_ => 0);
      Read(file, buf);
      sector := buf[..];
    }

    /** The loop that displays the file with clusters cs, `shown` being what it puts on the screen. */
    method Display(file: File, ghost cs: seq<nat>) returns (shown: seq<Byte>, count: nat)
      requires Valid() && file.eof != 1 && InRange(file.currentCluster)
      requires Chain(table, file.currentCluster, cs)
      modifies file, fat
      ensures file.eof == 1 && count == |cs|
      ensures |shown| == 512 * |cs|
      ensures forall j :: 0 <= j < |shown| ==> shown[j] == disk(31 + cs[j / 512])[j % 512]
    {
      shown, count := [], 0;
      while file.eof != 1
        invariant InRange(file.currentCluster) && 0 <= count <= |cs| && (file.eof == 1 <==> count == |cs|)
        invariant count < |cs| ==> Chain(table, file.currentCluster, cs[count..])
        invariant IsShown(disk, cs[..count], shown)
        decreases |cs| - count
      {
        ShowOne(disk, cs, count, shown);
        assert cs[count..][1..] == cs[count + 1..];
        var sector := ReadSector(file);
        shown, count := shown + sector, count + 1;
      }
      assert cs[..count] == cs;
    }
  }

  /** The sectors of the clusters, one after another. */
  ghost predicate IsShown(disk: Disk, cs: seq<nat>, shown: seq<Byte>) {
    && |shown| == 512 * |cs|
    && forall j :: 0 <= j < |shown| ==> shown[j] == disk(31 + cs[j / 512])[j % 512]
  }

  lemma ShowOne(disk: Disk, cs: seq<nat>, k: nat, shown: seq<Byte>)
    requires k < |cs| && IsShown(disk, cs[..k], shown)
    ensures IsShown(disk, cs[..k + 1], shown + disk(31 + cs[k]))
  {
    var all := shown + disk(31 + cs[k]);
    forall j | 0 <= j < |all|
      ensures all[j] == disk(31 + cs[..k + 1][j / 512])[j % 512]
    {
      if j < |shown| {
        assert shown[j] == disk(31 + cs[..k][j / 512])[j % 512];
      } else {
        assert j / 512 == k && j % 512 == j - |shown|;
      }
    }
  }
}

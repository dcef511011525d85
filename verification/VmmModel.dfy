/** The two-level page tables of src/vmm.c on values.

    A page is a 20-bit page number, a frame a 20-bit frame number; memory is frames of 1024
    entries. An entry is a frame's address plus its twelve flag bits, which for aligned
    addresses is the source's bitwise or. */
module VmmModel {
  import opened Machine

  const ENTRIES: int := 1024
  const PAGES: int := 0x10_0000       // pages of a 32-bit space
  const PRESENT: int := 1             // I86_PTE_PRESENT
  const WRITABLE: int := 2            // I86_PTE_WRITABLE

  type Table = seq<int>

  /** `used` is the frame allocator's used set, `dir` the current page directory. */
  datatype State = State(used: set<int>, max: nat, dir: Table, mem: seq<Table>)

  /** A cleared table. */
  function EmptyTable(): (t: Table)
    ensures |t| == ENTRIES && forall k :: 0 <= k < ENTRIES ==> t[k] == 0
  {
    seq(ENTRIES, _ => 0)
  }

  /** The frame an entry names. */
  function FrameOf(entry: int): int {
    entry / PAGE_SIZE
  }

  function Entry(frame: int, flags: int): int {
    frame * PAGE_SIZE + flags
  }

  /** A page-table frame is a used frame of the machine, never frame 0. */
  predicate TableOk(s: State, i: int)
    requires 0 <= i < |s.dir|
  {
    s.dir[i] != 0 ==> 0 < FrameOf(s.dir[i]) < s.max && FrameOf(s.dir[i]) in s.used
  }

  ghost predicate TablesOk(s: State) {
    |s.dir| == ENTRIES && forall i {:trigger TableOk(s, i)} :: 0 <= i < ENTRIES ==> TableOk(s, i)
  }

  ghost predicate TablesDistinct(dir: Table) {
    forall i, j :: 0 <= i < j < |dir| && dir[i] != 0 && dir[j] != 0 ==> FrameOf(dir[i]) != FrameOf(dir[j])
  }

  /** Present directory entries name pairwise distinct used frames. */
  ghost predicate Inv(s: State) {
    && |s.dir| == ENTRIES && |s.mem| == s.max <= PAGES
    && (forall f :: 0 <= f < s.max ==> |s.mem[f]| == ENTRIES)
    && (forall f :: f in s.used ==> 0 <= f < s.max)
    && (s.max > 0 ==> 0 in s.used)
    && TablesOk(s)
    && TablesDistinct(s.dir)
  }

  function Absent(dir: Table): set<int> {
    set i | 0 <= i < |dir| && dir[i] == 0
  }

  /** The least free frame, or 0 when there is none: what pmmngr_alloc_block hands out. */
  function LeastFree(used: set<int>, max: nat, f: int): (r: int)
    requires f >= 1
    ensures r != 0 ==> f <= r < max && r !in used && forall g :: f <= g < r ==> g in used
    ensures r == 0 ==> forall g :: f <= g < max ==> g in used
    decreases max - f
  {
    if f >= max then 0
    else if f !in used then f
    else LeastFree(used, max, f + 1)
  }

  // ----- vmmngr_mapPhysicalAddress and vmmngr_createPageTable

  predicate Formed(s: State) {
    |s.dir| == ENTRIES
  }

  /** The store into a page table, or into frame 0 when the directory entry is still absent. */
  function StoreEntry(s: State, page: int, entry: int): (r: State)
    requires Formed(s) && 0 <= page < PAGES
    ensures r.used == s.used && r.dir == s.dir && r.max == s.max && |r.mem| == |s.mem|
  {
    var t := FrameOf(s.dir[page / ENTRIES]);
    if 0 <= t < |s.mem| && |s.mem[t]| == ENTRIES
    then s.(mem := s.mem[t := s.mem[t][page % ENTRIES := entry]]) else s
  }

  /** A fresh, cleared page table for page p in frame f. */
  function NewTable(s: State, p: int, f: int, flags: int): (r: State)
    requires Formed(s) && 0 <= p < PAGES && f >= 1 && flags >= 0
    ensures Formed(r) && Absent(r.dir) == Absent(s.dir) - {p / ENTRIES} && |r.mem| == |s.mem|
  {
    s.(used := s.used + {f}, dir := s.dir[p / ENTRIES := Entry(f, flags)],
       mem := if f < |s.mem| then s.mem[f := EmptyTable()] else s.mem)
  }

  /** vmmngr_createPageTable: the new table is itself identity mapped, which may need another. */
  function Create(s: State, page: int, flags: int): (r: State)
    requires Formed(s) && s.max <= PAGES && 0 <= page < PAGES && 0 <= flags < PAGE_SIZE
    ensures Formed(r) && r.max == s.max && |r.mem| == |s.mem|
    decreases Absent(s.dir), 0
  {
    if s.dir[page / ENTRIES] != 0 then s
    else
      var f := LeastFree(s.used, s.max, 1);
      if f == 0 then s
      else
        assert page / ENTRIES in Absent(s.dir);
        Map(NewTable(s, page, f, flags), f, f, flags)
  }

  /** vmmngr_mapPhysicalAddress. The recursion ends because every table made leaves one absent
      directory entry less. */
  function Map(s: State, page: int, frame: int, flags: int): (r: State)
    requires Formed(s) && s.max <= PAGES && 0 <= page < PAGES && 0 <= flags < PAGE_SIZE
    ensures Formed(r) && r.max == s.max && |r.mem| == |s.mem|
    decreases Absent(s.dir), 1
  {
    var q := if s.dir[page / ENTRIES] == 0 then Create(s, page, flags) else s;
    StoreEntry(q, page, Entry(frame, flags))
  }

  /** vmmngr_getPhysicalAddress. */
  function Lookup(s: State, page: int): int
    requires Formed(s) && 0 <= page < PAGES
  {
    if s.dir[page / ENTRIES] == 0 then 0 else ReadEntry(s.mem, FrameOf(s.dir[page / ENTRIES]), page % ENTRIES)
  }

  /** A 32-bit read of physical memory; 0 stands for what lies outside the machine. */
  function ReadEntry(mem: seq<Table>, frame: int, k: int): int {
    if 0 <= frame < |mem| && 0 <= k < |mem[frame]| then mem[frame][k] else 0
  }

  // ----- ownership of page-table frames is invariant

  lemma StoreInv(s: State, page: int, entry: int)
    requires Inv(s) && 0 <= page < PAGES
    ensures Inv(StoreEntry(s, page, entry))
  {
    var r := StoreEntry(s, page, entry);
    forall i | 0 <= i < ENTRIES
      ensures TableOk(r, i)
    {
      assert TableOk(s, i);
    }
  }

  lemma NewTableInv(s: State, p: int, f: int, flags: int)
    requires Inv(s) && 0 <= p < PAGES && s.dir[p / ENTRIES] == 0
    requires 0 < f < s.max && f !in s.used && 0 <= flags < PAGE_SIZE
    ensures Inv(NewTable(s, p, f, flags)) && Extends(s, NewTable(s, p, f, flags))
    ensures NewTable(s, p, f, flags).dir[p / ENTRIES] != 0
  {
    var r := NewTable(s, p, f, flags);
    forall i | 0 <= i < ENTRIES
      ensures TableOk(r, i)
      ensures i != p / ENTRIES && r.dir[i] != 0 ==> FrameOf(r.dir[i]) != f
    {
      assert TableOk(s, i);
    }
  }

  /** r extends s: frames stay used, directory entries stay as they are. */
  ghost predicate Extends(s: State, r: State) {
    && r.max == s.max && s.used <= r.used && |r.dir| == |s.dir|
    && (forall i :: 0 <= i < |s.dir| && s.dir[i] != 0 ==> r.dir[i] == s.dir[i])
  }

  /** A page table can be had for the page: it is there, or a frame is free. */
  predicate CanMap(s: State, page: int)
    requires Formed(s) && 0 <= page < PAGES
  {
    s.dir[page / ENTRIES] != 0 || LeastFree(s.used, s.max, 1) != 0
  }

  lemma {:induction false} CreateInv(s: State, page: int, flags: int)
    requires Inv(s) && 0 <= page < PAGES && 0 <= flags < PAGE_SIZE
    ensures var r := Create(s, page, flags);
      && Inv(r) && Extends(s, r)
      && (r.dir[page / ENTRIES] != 0 <==> CanMap(s, page))
    decreases Absent(s.dir), 0
  {
    if s.dir[page / ENTRIES] == 0 {
      var f := LeastFree(s.used, s.max, 1);
      if f != 0 {
        assert page / ENTRIES in Absent(s.dir);
        NewTableInv(s, page, f, flags);
        MapInv(NewTable(s, page, f, flags), f, f, flags);
      }
    }
  }

  /** Mapping keeps page tables in distinct used frames, and gives the page a table exactly when
      one was there or a frame was free. */
  lemma {:induction false} MapInv(s: State, page: int, frame: int, flags: int)
    requires Inv(s) && 0 <= page < PAGES && 0 <= flags < PAGE_SIZE
    ensures var r := Map(s, page, frame, flags);
      && Inv(r) && Extends(s, r)
      && (r.dir[page / ENTRIES] != 0 <==> CanMap(s, page))
    decreases Absent(s.dir), 1
  {
    var q := if s.dir[page / ENTRIES] == 0 then Create(s, page, flags) else s;
    if s.dir[page / ENTRIES] == 0 {
      CreateInv(s, page, flags);
    }
    StoreInv(q, page, Entry(frame, flags));
  }

  // ----- what mapping does to every lookup

  /** Page v keeps its translation, or is the identity page of a page table made on the way. */
  predicate KeepsOrIdentity(s: State, r: State, v: int, flags: int)
    requires Formed(s) && Formed(r) && 0 <= v < PAGES
  {
    || Lookup(r, v) == Lookup(s, v)
    || (v in r.used && v !in s.used && Lookup(r, v) == Entry(v, flags))
  }

  lemma StoreLookup(s: State, page: int, entry: int, v: int)
    requires Inv(s) && 0 <= page < PAGES && 0 <= v < PAGES
    ensures Lookup(StoreEntry(s, page, entry), v) ==
      if v == page && s.dir[page / ENTRIES] != 0 then entry else Lookup(s, v)
  {
    assert TableOk(s, page / ENTRIES) && TableOk(s, v / ENTRIES);
    var i, j := page / ENTRIES, v / ENTRIES;
    if s.dir[i] != 0 && s.dir[j] != 0 && i != j {
      assert FrameOf(s.dir[i]) != FrameOf(s.dir[j]) by {
        if i < j { } else { assert j < i; }
      }
    }
    assert i == j && page % ENTRIES == v % ENTRIES ==> v == page;
  }

  lemma NewTableLookup(s: State, p: int, f: int, flags: int, v: int)
    requires Inv(s) && 0 <= p < PAGES && s.dir[p / ENTRIES] == 0
    requires 0 < f < s.max && f !in s.used && 0 <= flags < PAGE_SIZE && 0 <= v < PAGES
    ensures Lookup(NewTable(s, p, f, flags), v) == Lookup(s, v)
  {
    assert TableOk(s, v / ENTRIES);
  }

  lemma {:induction false} CreateLookup(s: State, page: int, flags: int, v: int)
    requires Inv(s) && 0 <= page < PAGES && 0 <= flags < PAGE_SIZE && 0 <= v < PAGES
    ensures KeepsOrIdentity(s, Create(s, page, flags), v, flags)
    decreases Absent(s.dir), 0
  {
    if s.dir[page / ENTRIES] == 0 {
      var f := LeastFree(s.used, s.max, 1);
      if f != 0 {
        assert page / ENTRIES in Absent(s.dir);
        var n := NewTable(s, page, f, flags);
        NewTableInv(s, page, f, flags);
        NewTableLookup(s, page, f, flags, v);
        MapLookup(n, f, f, flags, v);
        MapInv(n, f, f, flags);
      }
    }
  }

  /** Afterwards the page reads back frame and flags if it can have a table, and NULL otherwise;
      every other page reads as before, except identity pages of frames taken for page tables. */
  lemma {:induction false} MapLookup(s: State, page: int, frame: int, flags: int, v: int)
    requires Inv(s) && 0 <= page < PAGES && 0 <= flags < PAGE_SIZE && 0 <= v < PAGES
    ensures var r := Map(s, page, frame, flags);
      if v == page then Lookup(r, v) == if CanMap(s, page) then Entry(frame, flags) else 0
      else KeepsOrIdentity(s, r, v, flags)
    decreases Absent(s.dir), 1
  {
    var q := if s.dir[page / ENTRIES] == 0 then Create(s, page, flags) else s;
    if s.dir[page / ENTRIES] == 0 {
      CreateLookup(s, page, flags, v);
      CreateInv(s, page, flags);
    }
    StoreLookup(q, page, Entry(frame, flags), v);
  }

  // ----- the tables made on the way

  /** Directory entry i came to name a page table in frame f. */
  predicate Made(s: State, r: State, i: int, f: int)
    requires Formed(s) && Formed(r) && 0 <= i < ENTRIES
  {
    s.dir[i] == 0 && r.dir[i] != 0 && FrameOf(r.dir[i]) == f
  }

  ghost predicate MadeTable(s: State, r: State, f: int)
    requires Formed(s) && Formed(r)
  {
    exists i :: 0 <= i < ENTRIES && Made(s, r, i, f)
  }

  /** Frame f, made the table of entry i, stands in the directory under the flags asked for; and where
      its own page can have a table at all, that page reads frame f, unless it is page `but`. */
  predicate SelfMapped(s: State, r: State, i: int, flags: int, but: int)
    requires Formed(s) && Formed(r) && 0 <= i < ENTRIES
  {
    var f := FrameOf(r.dir[i]);
    Made(s, r, i, f) ==>
      && r.dir[i] == Entry(f, flags)
      && 0 <= f < PAGES
      && (f != but && r.dir[f / ENTRIES] != 0 ==> Lookup(r, f) == Entry(f, flags))
  }

  lemma {:induction false} CreateSelfMaps(s: State, page: int, flags: int, i: int)
    requires Inv(s) && 0 <= page < PAGES && 0 <= flags < PAGE_SIZE && 0 <= i < ENTRIES
    ensures SelfMapped(s, Create(s, page, flags), i, flags, -1)
    decreases Absent(s.dir), 0
  {
    if s.dir[page / ENTRIES] == 0 {
      var f := LeastFree(s.used, s.max, 1);
      if f != 0 {
        assert page / ENTRIES in Absent(s.dir);
        var n := NewTable(s, page, f, flags);
        NewTableInv(s, page, f, flags);
        MapInv(n, f, f, flags);
        MapLookup(n, f, f, flags, f);
        MapSelfMaps(n, f, f, flags, i);
        OneTableEach(Map(n, f, f, flags), page / ENTRIES, i);
      }
    }
  }

  lemma OneTableEach(s: State, i: int, j: int)
    requires Inv(s) && 0 <= i < ENTRIES && 0 <= j < ENTRIES
    ensures s.dir[i] != 0 && s.dir[j] != 0 && FrameOf(s.dir[i]) == FrameOf(s.dir[j]) ==> i == j
  {
  }

  /** Every page table made while mapping is identity mapped itself. */
  lemma {:induction false} MapSelfMaps(s: State, page: int, frame: int, flags: int, i: int)
    requires Inv(s) && 0 <= page < PAGES && 0 <= flags < PAGE_SIZE && 0 <= i < ENTRIES
    ensures SelfMapped(s, Map(s, page, frame, flags), i, flags, page)
    decreases Absent(s.dir), 1
  {
    var q := if s.dir[page / ENTRIES] == 0 then Create(s, page, flags) else s;
    if s.dir[page / ENTRIES] == 0 {
      CreateInv(s, page, flags);
      CreateSelfMaps(s, page, flags, i);
    }
    var f := FrameOf(q.dir[i]);
    if Made(s, q, i, f) {
      assert TableOk(q, i);
      StoreLookup(q, page, Entry(frame, flags), f);
    }
  }

  lemma {:induction false} CreateTakes(s: State, page: int, flags: int, g: int)
    requires Inv(s) && 0 <= page < PAGES && 0 <= flags < PAGE_SIZE
    requires g in Create(s, page, flags).used && g !in s.used
    ensures MadeTable(s, Create(s, page, flags), g)
    decreases Absent(s.dir), 0
  {
    var f := LeastFree(s.used, s.max, 1);
    assert page / ENTRIES in Absent(s.dir);
    var n := NewTable(s, page, f, flags);
    NewTableInv(s, page, f, flags);
    MapInv(n, f, f, flags);
    if g == f {
      assert Made(s, Map(n, f, f, flags), page / ENTRIES, g);
    } else {
      MapTakes(n, f, f, flags, g);
      var i :| 0 <= i < ENTRIES && Made(n, Map(n, f, f, flags), i, g);
      assert Made(s, Map(n, f, f, flags), i, g);
    }
  }

  /** Mapping takes frames for page tables only. */
  lemma {:induction false} MapTakes(s: State, page: int, frame: int, flags: int, g: int)
    requires Inv(s) && 0 <= page < PAGES && 0 <= flags < PAGE_SIZE
    requires g in Map(s, page, frame, flags).used && g !in s.used
    ensures MadeTable(s, Map(s, page, frame, flags), g)
    decreases Absent(s.dir), 1
  {
    if s.dir[page / ENTRIES] == 0 {
      CreateTakes(s, page, flags, g);
      var i :| 0 <= i < ENTRIES && Made(s, Create(s, page, flags), i, g);
      assert Made(s, Map(s, page, frame, flags), i, g);
    }
  }

  /** Exactly what every page reads afterwards: the page mapped, its entry if it has a table; the page
      of each table made that can have one, itself; all others, what they read before. */
  lemma MapExact(s: State, page: int, frame: int, flags: int, v: int)
    requires Inv(s) && 0 <= page < PAGES && 0 <= flags < PAGE_SIZE && 0 <= v < PAGES
    ensures var r := Map(s, page, frame, flags);
      Lookup(r, v) ==
        if v == page then if CanMap(s, page) then Entry(frame, flags) else 0
        else if MadeTable(s, r, v) && r.dir[v / ENTRIES] != 0 then Entry(v, flags)
        else Lookup(s, v)
  {
    var r := Map(s, page, frame, flags);
    MapInv(s, page, frame, flags);
    MapLookup(s, page, frame, flags, v);
    if v != page {
      if MadeTable(s, r, v) {
        var i :| 0 <= i < ENTRIES && Made(s, r, i, v);
        MapSelfMaps(s, page, frame, flags, i);
        assert s.dir[v / ENTRIES] != 0 ==> r.dir[v / ENTRIES] != 0;
      } else if v in r.used && v !in s.used {
        MapTakes(s, page, frame, flags, v);
      }
    }
  }

  // ----- the processor's walk

  const FAULT := -1

  /** The physical address of a virtual one: ten bits choose the directory entry, ten the table's, and
      both must have the present bit. */
  function Walk(s: State, va: int): int
    requires Formed(s) && 0 <= va < TWO32
  {
    var e := s.dir[va / 0x40_0000];
    if e % 2 == 0 then FAULT
    else
      var t := ReadEntry(s.mem, e / 4096, va / 4096 % 1024);
      if t % 2 == 0 then FAULT else t / 4096 * 4096 + va % 4096
  }

  /** Every directory entry in use has the present bit. */
  predicate AllPresent(dir: Table) {
    forall i :: 0 <= i < |dir| && dir[i] != 0 ==> dir[i] % 2 == 1
  }

  /** Under such a directory the walk goes by what the page reads. */
  lemma WalkIs(s: State, page: int, o: int)
    requires Formed(s) && AllPresent(s.dir) && 0 <= page < PAGES && 0 <= o < 4096
    ensures var e := Lookup(s, page);
      Walk(s, page * 4096 + o) == if e % 2 == 1 then e / 4096 * 4096 + o else FAULT
  {
    var va := page * 4096 + o;
    assert va / 0x40_0000 == page / 1024 && va / 4096 == page && va % 4096 == o;
  }

  lemma MapKeepsPresent(s: State, page: int, frame: int, flags: int)
    requires Inv(s) && 0 <= page < PAGES && 0 <= flags < PAGE_SIZE && flags % 2 == 1 && AllPresent(s.dir)
    ensures AllPresent(Map(s, page, frame, flags).dir)
  {
    var r := Map(s, page, frame, flags);
    MapInv(s, page, frame, flags);
    forall i | 0 <= i < ENTRIES && r.dir[i] != 0
      ensures r.dir[i] % 2 == 1
    {
      MapSelfMaps(s, page, frame, flags, i);
    }
  }

  /** After mapping, the processor takes every address of the page to the frame. */
  lemma MapWalks(s: State, page: int, frame: nat, flags: int, o: int)
    requires Inv(s) && 0 <= page < PAGES && 0 <= flags < PAGE_SIZE && flags % 2 == 1 && AllPresent(s.dir)
    requires 0 <= o < 4096
    ensures Walk(Map(s, page, frame, flags), page * 4096 + o) == if CanMap(s, page) then frame * 4096 + o else FAULT
  {
    MapKeepsPresent(s, page, frame, flags);
    MapExact(s, page, frame, flags, page);
    WalkIs(Map(s, page, frame, flags), page, o);
  }

  // ----- frames that are not page tables are left alone

  function TableFrames(s: State): set<int> {
    set i | 0 <= i < |s.dir| && s.dir[i] != 0 :: FrameOf(s.dir[i])
  }

  /** Frame g holds data: used, not a page table, not frame 0. */
  predicate IsData(s: State, g: int) {
    g in s.used && g !in TableFrames(s) && g != 0
  }

  lemma NewTableSparesData(s: State, p: int, f: int, flags: int, g: int)
    requires Inv(s) && 0 <= p < PAGES && s.dir[p / ENTRIES] == 0 && IsData(s, g)
    requires 0 < f < s.max && f !in s.used && 0 <= flags < PAGE_SIZE
    ensures var r := NewTable(s, p, f, flags); r.mem[g] == s.mem[g] && IsData(r, g)
  {
    var r := NewTable(s, p, f, flags);
    forall i | 0 <= i < |r.dir| && r.dir[i] != 0
      ensures FrameOf(r.dir[i]) != g
    {
      assert i != p / ENTRIES ==> FrameOf(s.dir[i]) in TableFrames(s);
    }
  }

  lemma {:induction false} CreateSparesData(s: State, page: int, flags: int, g: int)
    requires Inv(s) && 0 <= page < PAGES && 0 <= flags < PAGE_SIZE && IsData(s, g)
    ensures var r := Create(s, page, flags); r.mem[g] == s.mem[g] && IsData(r, g)
    decreases Absent(s.dir), 0
  {
    if s.dir[page / ENTRIES] == 0 {
      var f := LeastFree(s.used, s.max, 1);
      if f != 0 {
        assert page / ENTRIES in Absent(s.dir);
        NewTableInv(s, page, f, flags);
        NewTableSparesData(s, page, f, flags, g);
        MapSparesData(NewTable(s, page, f, flags), f, f, flags, g);
      }
    }
  }

  /** Mapping never writes to a used frame that is not a page table; only frame 0 may be hit, when
      no frame is left for a table. */
  lemma {:induction false} MapSparesData(s: State, page: int, frame: int, flags: int, g: int)
    requires Inv(s) && 0 <= page < PAGES && 0 <= flags < PAGE_SIZE && IsData(s, g)
    ensures var r := Map(s, page, frame, flags); r.mem[g] == s.mem[g] && IsData(r, g)
    decreases Absent(s.dir), 1
  {
    var q := if s.dir[page / ENTRIES] == 0 then Create(s, page, flags) else s;
    if s.dir[page / ENTRIES] == 0 {
      CreateSparesData(s, page, flags, g);
    }
    assert q.dir[page / ENTRIES] != 0 ==> FrameOf(q.dir[page / ENTRIES]) in TableFrames(q);
  }

  /** Nor does mapping a range of pages. */
  lemma {:induction false} RangeSparesData(s: State, page: int, frame: int, n: nat, g: int)
    requires Inv(s) && 0 <= page && page + n <= PAGES && IsData(s, g)
    ensures var r := MapRange(s, page, frame, n); r.mem[g] == s.mem[g] && IsData(r, g)
    decreases n
  {
    if n > 0 {
      MapInv(s, page, frame, PW);
      MapSparesData(s, page, frame, PW, g);
      RangeSparesData(Map(s, page, frame, PW), page + 1, frame + 1, n - 1, g);
      RangeStep(s, page, frame, n);
    }
  }

  // ----- enough frames

  /** The free frames beyond one for every absent directory entry. */
  function Slack(s: State): int {
    s.max - |s.used| - |Absent(s.dir)|
  }

  /** A free frame for every absent directory entry. */
  predicate Plenty(s: State) {
    Slack(s) >= 0
  }

  lemma FreeFrameExists(s: State)
    requires Inv(s) && s.max > |s.used|
    ensures LeastFree(s.used, s.max, 1) != 0
  {
    var all := AllFrames(s.max);
    assert LeastFree(s.used, s.max, 1) == 0 ==> s.used == all;
  }

  lemma NewTableSlack(s: State, p: int, f: int, flags: int)
    requires Inv(s) && 0 <= p < PAGES && s.dir[p / ENTRIES] == 0 && f >= 1 && f !in s.used && 0 <= flags
    ensures Slack(NewTable(s, p, f, flags)) == Slack(s)
  {
    assert p / ENTRIES in Absent(s.dir);
  }

  lemma {:induction false} CreateSlack(s: State, page: int, flags: int)
    requires Inv(s) && 0 <= page < PAGES && 0 <= flags < PAGE_SIZE
    ensures Slack(Create(s, page, flags)) == Slack(s)
    decreases Absent(s.dir), 0
  {
    if s.dir[page / ENTRIES] == 0 {
      var f := LeastFree(s.used, s.max, 1);
      if f != 0 {
        assert page / ENTRIES in Absent(s.dir);
        NewTableInv(s, page, f, flags);
        NewTableSlack(s, page, f, flags);
        MapSlack(NewTable(s, page, f, flags), f, f, flags);
      }
    }
  }

  /** Mapping takes a frame for every directory entry it fills, neither more nor less. */
  lemma {:induction false} MapSlack(s: State, page: int, frame: int, flags: int)
    requires Inv(s) && 0 <= page < PAGES && 0 <= flags < PAGE_SIZE
    ensures Slack(Map(s, page, frame, flags)) == Slack(s)
    decreases Absent(s.dir), 1
  {
    if s.dir[page / ENTRIES] == 0 {
      CreateSlack(s, page, flags);
    }
  }

  /** With a free frame for every absent directory entry, mapping succeeds and leaves as much. */
  lemma MapKeepsPlenty(s: State, page: int, frame: int, flags: int)
    requires Inv(s) && 0 <= page < PAGES && 0 <= flags < PAGE_SIZE && Plenty(s)
    ensures Plenty(Map(s, page, frame, flags)) && CanMap(s, page)
  {
    MapSlack(s, page, frame, flags);
    if s.dir[page / ENTRIES] == 0 {
      assert page / ENTRIES in Absent(s.dir);
      FreeFrameExists(s);
    }
  }

  // ----- vmmngr_alloc_pages_at_virtual_address

  const PW: int := 3  // I86_PTE_PRESENT | I86_PTE_WRITABLE

  /** The loop: page + i onto frame + i. */
  function MapRange(s: State, page: int, frame: int, n: nat): (r: State)
    requires Formed(s) && s.max <= PAGES && 0 <= page && page + n <= PAGES
    ensures Formed(r) && r.max == s.max && |r.mem| == |s.mem|
    decreases n
  {
    if n == 0 then s else MapRange(Map(s, page, frame, PW), page + 1, frame + 1, n - 1)
  }

  lemma RangeStep(s: State, page: int, frame: int, n: nat)
    requires Formed(s) && s.max <= PAGES && 0 <= page && page + n <= PAGES && n > 0
    ensures MapRange(s, page, frame, n) == MapRange(Map(s, page, frame, PW), page + 1, frame + 1, n - 1)
  {
  }

  lemma ExtendsTwice(s: State, q: State, r: State)
    requires Formed(s) && Extends(s, q) && Extends(q, r)
    ensures Extends(s, r)
  {
  }

  lemma {:induction false} RangeInv(s: State, page: int, frame: int, n: nat)
    requires Inv(s) && 0 <= page && page + n <= PAGES
    ensures Inv(MapRange(s, page, frame, n)) && Extends(s, MapRange(s, page, frame, n))
    decreases n
  {
    if n > 0 {
      MapInv(s, page, frame, PW);
      RangeInv(Map(s, page, frame, PW), page + 1, frame + 1, n - 1);
      ExtendsTwice(s, Map(s, page, frame, PW), MapRange(s, page, frame, n));
    }
  }

  lemma {:induction false} RangeKeepsPresent(s: State, page: int, frame: int, n: nat)
    requires Inv(s) && 0 <= page && page + n <= PAGES && AllPresent(s.dir)
    ensures AllPresent(MapRange(s, page, frame, n).dir)
    decreases n
  {
    if n > 0 {
      MapInv(s, page, frame, PW);
      MapKeepsPresent(s, page, frame, PW);
      RangeKeepsPresent(Map(s, page, frame, PW), page + 1, frame + 1, n - 1);
      RangeStep(s, page, frame, n);
    }
  }

  /** r is s with the frames of `taken` used and then n of them mapped from page on. */
  ghost predicate MappedFrom(s: State, taken: set<int>, page: int, frame: int, n: nat, r: State) {
    var q := s.(used := s.used + taken);
    Inv(q) && 0 <= page && page + n <= PAGES && r == MapRange(q, page, frame, n)
  }

  /** Pages outside the range keep their translation, identity pages of new page tables aside. */
  lemma {:induction false} RangeOutside(s: State, page: int, frame: int, n: nat, v: int)
    requires Inv(s) && 0 <= page && page + n <= PAGES && 0 <= v < PAGES
    requires v < page || page + n <= v
    ensures KeepsOrIdentity(s, MapRange(s, page, frame, n), v, PW)
    decreases n
  {
    if n > 0 {
      var q, r := Map(s, page, frame, PW), MapRange(s, page, frame, n);
      RangeStep(s, page, frame, n);
      MapInv(s, page, frame, PW);
      RangeInv(q, page + 1, frame + 1, n - 1);
      RangeOutside(q, page + 1, frame + 1, n - 1, v);
      assert KeepsOrIdentity(s, q, v, PW) by {
        MapLookup(s, page, frame, PW, v);
      }
      KeepsTwice(s, q, r, v, PW);
    }
  }

  lemma KeepsTwice(s: State, q: State, r: State, v: int, flags: int)
    requires Formed(s) && Formed(q) && Formed(r) && 0 <= v < PAGES
    requires s.used <= q.used <= r.used
    requires KeepsOrIdentity(s, q, v, flags) && KeepsOrIdentity(q, r, v, flags)
    ensures KeepsOrIdentity(s, r, v, flags)
  {
  }

  /** Without a free frame no page table can be made any more. */
  lemma {:induction false} FullRange(s: State, page: int, frame: int, n: nat)
    requires Formed(s) && s.max <= PAGES && 0 <= page && page + n <= PAGES && LeastFree(s.used, s.max, 1) == 0
    ensures MapRange(s, page, frame, n).dir == s.dir
    decreases n
  {
    if n > 0 {
      var q := Map(s, page, frame, PW);
      assert s.dir[page / ENTRIES] == 0 ==> Create(s, page, PW) == s;
      assert q.dir == s.dir && q.used == s.used;
      FullRange(q, page + 1, frame + 1, n - 1);
    }
  }

  /** The first page of the range, once the rest has been mapped too. */
  lemma RangeFirst(s: State, page: int, frame: int, n: nat)
    requires Inv(s) && s.max <= page && page + n <= PAGES && n > 0
    ensures var r := MapRange(s, page, frame, n);
      Lookup(r, page) == if r.dir[page / ENTRIES] != 0 then Entry(frame, PW) else 0
  {
    var q := Map(s, page, frame, PW);
    MapLookup(s, page, frame, PW, page);
    MapInv(s, page, frame, PW);
    RangeStep(s, page, frame, n);
    if q.dir[page / ENTRIES] == 0 {
      assert s.dir[page / ENTRIES] == 0 && LeastFree(s.used, s.max, 1) == 0;
      FullRange(q, page + 1, frame + 1, n - 1);
    } else {
      RangeRest(q, page, frame + 1, n - 1);
    }
  }

  lemma RangeRest(q: State, page: int, frame: int, n: nat)
    requires Inv(q) && q.max <= page && page + 1 + n <= PAGES && q.dir[page / ENTRIES] != 0
    ensures var r := MapRange(q, page + 1, frame, n);
      Lookup(r, page) == Lookup(q, page) && r.dir[page / ENTRIES] == q.dir[page / ENTRIES]
  {
    RangeOutside(q, page + 1, frame, n, page);
    RangeInv(q, page + 1, frame, n);
  }

  /** When every frame's identity page lies below the range, no table made later in the loop
      overwrites a page mapped earlier: each page reads its frame with the present and writable
      bits, or NULL where its table could not be made. */
  lemma {:induction false} RangeMapped(s: State, page: int, frame: int, n: nat, v: int)
    requires Inv(s) && s.max <= page && page + n <= PAGES && page <= v < page + n
    ensures var r := MapRange(s, page, frame, n);
      Lookup(r, v) == if r.dir[v / ENTRIES] != 0 then (frame + (v - page)) * 4096 + 3 else 0
    decreases n
  {
    if v == page {
      RangeFirst(s, page, frame, n);
    } else {
      MapInv(s, page, frame, PW);
      RangeStep(s, page, frame, n);
      RangeMapped(Map(s, page, frame, PW), page + 1, frame + 1, n - 1, v);
    }
  }

  lemma {:induction false} RangeSlack(s: State, page: int, frame: int, n: nat)
    requires Inv(s) && 0 <= page && page + n <= PAGES
    ensures Slack(MapRange(s, page, frame, n)) == Slack(s)
    decreases n
  {
    if n > 0 {
      MapSlack(s, page, frame, PW);
      MapInv(s, page, frame, PW);
      RangeSlack(Map(s, page, frame, PW), page + 1, frame + 1, n - 1);
      RangeStep(s, page, frame, n);
    }
  }

  /** Where the range enters the 4 MB region of v. */
  function RegionStart(page: int, v: int): (w: int)
    requires page <= v
    ensures page <= w <= v && w / ENTRIES == v / ENTRIES
  {
    if v / ENTRIES == page / ENTRIES then page else v / ENTRIES * ENTRIES
  }

  /** When the loop comes to the region of v, a page table is there or a frame is free. */
  predicate RegionReady(s: State, page: int, frame: int, v: int)
    requires Formed(s) && s.max <= PAGES && 0 <= page <= v < PAGES
  {
    var w := RegionStart(page, v);
    CanMap(MapRange(s, page, frame, w - page), w)
  }

  /** Page v of a range that starts at `page` reads its frame, present and writable. */
  predicate Reads(s: State, page: int, frame: int, v: int)
    requires Formed(s) && 0 <= page <= v < PAGES
  {
    Lookup(s, v) == Entry(frame + (v - page), PW)
  }

  predicate AllRead(s: State, page: int, frame: int, n: nat)
    requires Formed(s) && 0 <= page && page + n <= PAGES
  {
    forall v :: page <= v < page + n ==> Reads(s, page, frame, v)
  }

  lemma {:induction false} RangeSplit(s: State, page: int, frame: int, m: nat, n: nat)
    requires Formed(s) && s.max <= PAGES && 0 <= page && page + n <= PAGES && m <= n
    ensures MapRange(s, page, frame, n) == MapRange(MapRange(s, page, frame, m), page + m, frame + m, n - m)
    decreases m, 0
  {
    if m > 0 {
      RangeStep(s, page, frame, n);
      RangeStep(s, page, frame, m);
      SplitStep(s, Map(s, page, frame, PW), page, frame, m, n);
    }
  }

  lemma {:induction false} SplitStep(s: State, q: State, page: int, frame: int, m: nat, n: nat)
    requires Formed(s) && s.max <= PAGES && Formed(q) && q.max <= PAGES && 0 <= page && page + n <= PAGES && 0 < m <= n
    requires MapRange(s, page, frame, n) == MapRange(q, page + 1, frame + 1, n - 1)
    requires MapRange(s, page, frame, m) == MapRange(q, page + 1, frame + 1, m - 1)
    ensures MapRange(s, page, frame, n) == MapRange(MapRange(s, page, frame, m), page + m, frame + m, n - m)
    decreases m - 1, 1
  {
    RangeSplit(q, page + 1, frame + 1, m - 1, n - 1);
  }

  /** A region entered with a table or a free frame ends up with a table, any other does not. */
  lemma RegionTable(s: State, page: int, frame: int, n: nat)
    requires Inv(s) && 0 <= page && page + n <= PAGES && n > 0
    ensures MapRange(s, page, frame, n).dir[page / ENTRIES] != 0 <==> CanMap(s, page)
  {
    MapInv(s, page, frame, PW);
    if CanMap(s, page) {
      RangeStep(s, page, frame, n);
      RangeInv(Map(s, page, frame, PW), page + 1, frame + 1, n - 1);
    } else {
      FullRange(s, page, frame, n);
    }
  }

  lemma RegionTableOf(s: State, page: int, frame: int, n: nat, v: int)
    requires Inv(s) && 0 <= page && page + n <= PAGES && page <= v < page + n
    ensures MapRange(s, page, frame, n).dir[v / ENTRIES] != 0 <==> RegionReady(s, page, frame, v)
  {
    RegionTableAt(s, page, frame, n, RegionStart(page, v) - page);
  }

  lemma RegionTableAt(s: State, page: int, frame: int, n: nat, m: nat)
    requires Inv(s) && 0 <= page && page + n <= PAGES && m < n
    ensures MapRange(s, page, frame, n).dir[(page + m) / ENTRIES] != 0 <==>
      CanMap(MapRange(s, page, frame, m), page + m)
  {
    RangeSplit(s, page, frame, m, n);
    RangeInv(s, page, frame, m);
    RegionTable(MapRange(s, page, frame, m), page + m, frame + m, n - m);
  }

  /** A page of the range reads its frame exactly when its region could have a page table at the
      time the loop came to the region. */
  lemma RangeMappedIff(s: State, page: int, frame: int, n: nat, v: int)
    requires Inv(s) && s.max <= page && page + n <= PAGES && page <= v < page + n
    ensures Reads(MapRange(s, page, frame, n), page, frame, v) <==> RegionReady(s, page, frame, v)
  {
    RegionTableOf(s, page, frame, n, v);
    RangeMapped(s, page, frame, n, v);
  }

  /** Given a free frame for every absent directory entry, all n pages are mapped. */
  lemma RangeAllMapped(s: State, page: int, frame: int, n: nat, v: int)
    requires Inv(s) && s.max <= page && page + n <= PAGES && page <= v < page + n && Plenty(s)
    ensures Reads(MapRange(s, page, frame, n), page, frame, v)
  {
    var w := RegionStart(page, v);
    var q := MapRange(s, page, frame, w - page);
    RangeInv(s, page, frame, w - page);
    RangeSlack(s, page, frame, w - page);
    MapKeepsPlenty(q, w, 0, PW);
    RangeMappedIff(s, page, frame, n, v);
  }

  /** Within one 4 MB region all pages are mapped exactly when the first could have a page table
      before the call. */
  lemma RegionMappedIff(s: State, page: int, frame: int, n: nat)
    requires Inv(s) && s.max <= page && page + n <= PAGES && n > 0 && page / ENTRIES == (page + n - 1) / ENTRIES
    ensures AllRead(MapRange(s, page, frame, n), page, frame, n) <==> CanMap(s, page)
  {
    assert MapRange(s, page, frame, 0) == s;
    forall v | page <= v < page + n
      ensures Reads(MapRange(s, page, frame, n), page, frame, v) <==> CanMap(s, page)
    {
      assert RegionStart(page, v) == page;
      RangeMappedIff(s, page, frame, n, v);
    }
    assert Reads(MapRange(s, page, frame, n), page, frame, page) <==> CanMap(s, page);
  }

  /** What MappedFrom means page by page. */
  ghost predicate MappedExactly(s: State, taken: set<int>, page: int, frame: int, n: nat, r: State)
    requires Formed(s) && s.max <= page && Formed(r) && s.max <= PAGES && page + n <= PAGES
  {
    forall v :: page <= v < page + n ==>
      (Reads(r, page, frame, v) <==> RegionReady(s.(used := s.used + taken), page, frame, v))
  }

  lemma MappedFromIff(s: State, taken: set<int>, page: int, frame: int, n: nat, r: State)
    requires MappedFrom(s, taken, page, frame, n, r) && s.max <= page
    ensures MappedExactly(s, taken, page, frame, n, r)
  {
    forall v | page <= v < page + n
      ensures Reads(r, page, frame, v) <==> RegionReady(s.(used := s.used + taken), page, frame, v)
    {
      RangeMappedIff(s.(used := s.used + taken), page, frame, n, v);
    }
  }

  // ----- vmmngr_identMap

  /** The pages of `size` bytes. */
  function PagesIn(size: nat): (n: nat)
    ensures size <= n * 4096 < size + 4096
  {
    size / PAGE_SIZE + if size % PAGE_SIZE > 0 then 1 else 0
  }

  lemma IdentFirst(s: State, page: int, n: nat)
    requires Inv(s) && 0 <= page && page + n <= PAGES && n > 0
    ensures var r := MapRange(s, page, page, n);
      Lookup(r, page) == if r.dir[page / ENTRIES] != 0 then Entry(page, PW) else 0
  {
    var q := Map(s, page, page, PW);
    MapLookup(s, page, page, PW, page);
    MapInv(s, page, page, PW);
    RangeStep(s, page, page, n);
    if q.dir[page / ENTRIES] == 0 {
      assert s.dir[page / ENTRIES] == 0 && LeastFree(s.used, s.max, 1) == 0;
      FullRange(q, page + 1, page + 1, n - 1);
    } else {
      IdentRest(q, page, n - 1);
    }
  }

  lemma IdentRest(q: State, page: int, n: nat)
    requires Inv(q) && 0 <= page && page + 1 + n <= PAGES && Lookup(q, page) == Entry(page, PW)
    requires q.dir[page / ENTRIES] != 0
    ensures var r := MapRange(q, page + 1, page + 1, n);
      Lookup(r, page) == Entry(page, PW) && r.dir[page / ENTRIES] != 0
  {
    RangeOutside(q, page + 1, page + 1, n, page);
    RangeInv(q, page + 1, page + 1, n);
  }

  /** Mapping pages onto themselves, a page table made on the way can only map a page of the range to
      itself again; so every page with a table reads itself, wherever the frames lie. */
  lemma {:induction false} IdentMapped(s: State, page: int, n: nat, v: int)
    requires Inv(s) && 0 <= page && page + n <= PAGES && page <= v < page + n
    ensures var r := MapRange(s, page, page, n);
      Lookup(r, v) == if r.dir[v / ENTRIES] != 0 then Entry(v, PW) else 0
    decreases n
  {
    if v == page {
      IdentFirst(s, page, n);
    } else {
      MapInv(s, page, page, PW);
      RangeStep(s, page, page, n);
      IdentMapped(Map(s, page, page, PW), page + 1, n - 1, v);
    }
  }

  lemma IdentRead(s: State, page: int, n: nat, v: int)
    requires Inv(s) && AllPresent(s.dir) && 0 <= page && page + n <= PAGES && page <= v < page + n
    ensures var r := MapRange(s, page, page, n);
      AllPresent(r.dir) && Lookup(r, v) == if RegionReady(s, page, page, v) then v * 4096 + 3 else 0
  {
    IdentMapped(s, page, n, v);
    RegionTableOf(s, page, page, n, v);
    RangeKeepsPresent(s, page, page, n);
  }

  /** The processor takes every byte of an identity mapped range to itself exactly when its region could
      have a page table at the time the loop came to it, and faults otherwise. */
  lemma IdentWalks(s: State, virt: int, size: nat, b: int)
    requires Inv(s) && AllPresent(s.dir) && 0 <= virt && virt % 4096 == 0
    requires virt / 4096 + PagesIn(size) <= PAGES && virt <= b < virt + size
    ensures 0 <= b < TWO32 && virt / 4096 <= b / 4096 < virt / 4096 + PagesIn(size)
    ensures Walk(MapRange(s, virt / 4096, virt / 4096, PagesIn(size)), b) ==
      if RegionReady(s, virt / 4096, virt / 4096, b / 4096) then b else FAULT
  {
    var page, n, v := virt / 4096, PagesIn(size), b / 4096;
    BytePage(virt, size, b);
    IdentRead(s, page, n, v);
    WalkOfRead(MapRange(s, page, page, n), b);
  }

  lemma BytePage(virt: int, size: nat, b: int)
    requires 0 <= virt && virt % 4096 == 0 && virt / 4096 + PagesIn(size) <= PAGES && virt <= b < virt + size
    ensures 0 <= b < TWO32 && virt / 4096 <= b / 4096 < virt / 4096 + PagesIn(size)
  {
  }

  lemma WalkOfRead(s: State, b: int)
    requires Formed(s) && AllPresent(s.dir) && 0 <= b < TWO32
    ensures var v := b / 4096;
      && (Lookup(s, v) == v * 4096 + 3 ==> Walk(s, b) == b)
      && (Lookup(s, v) == 0 ==> Walk(s, b) == FAULT)
  {
    var v, o := b / 4096, b % 4096;
    assert b == v * 4096 + o;
    WalkIs(s, v, o);
    EntryOfPage(v);
  }

  lemma EntryOfPage(v: nat)
    ensures (v * 4096 + 3) % 2 == 1 && (v * 4096 + 3) / 4096 == v
  {
  }

  /** Without a table and without a free frame the entry is stored into frame 0, and nothing else changes. */
  lemma MapFails(s: State, page: int, frame: int, flags: int)
    requires Inv(s) && 0 <= page < PAGES && 0 <= flags < PAGE_SIZE && s.max > 0 && !CanMap(s, page)
    ensures Map(s, page, frame, flags) == s.(mem := s.mem[0 := s.mem[0][page % ENTRIES := Entry(frame, flags)]])
    ensures Map(s, page, frame, flags).mem[0][page % ENTRIES] == Entry(frame, flags)
    ensures Lookup(Map(s, page, frame, flags), page) == 0
  {
  }

  // ----- vmmngr_unmapPageTable

  const FRAME_MASK_LIMIT: int := 0x8000_0000

  /** `entry & 0x7FFFF000`, as a frame number: bit 31 is masked off. */
  function MaskedFrame(entry: int): int {
    (entry % FRAME_MASK_LIMIT) / PAGE_SIZE
  }

  /** The mask names the entry's own frame exactly when that lies below 2 GB. */
  lemma MaskExact(entry: int)
    requires 0 <= entry < 0x1_0000_0000
    ensures MaskedFrame(entry) == entry / 4096 <==> entry < 0x8000_0000
  {
  }

  function Unmap(s: State, page: int): (r: State)
    requires Formed(s) && 0 <= page < PAGES
  {
    var i := page / ENTRIES;
    if s.dir[i] == 0 then s else s.(used := s.used - {MaskedFrame(s.dir[i])}, dir := s.dir[i := 0])
  }

  /** Unmapping a present page table gives back exactly its frame when the table lies below 2 GB, and
      only then. */
  lemma UnmapExact(s: State, page: int)
    requires Inv(s) && 0 <= page < PAGES && s.dir[page / ENTRIES] != 0
    ensures Unmap(s, page).used == s.used - {s.dir[page / ENTRIES] / 4096}
       <==> s.dir[page / ENTRIES] < 0x8000_0000
  {
    var e := s.dir[page / ENTRIES];
    assert TableOk(s, page / ENTRIES);
    MaskExact(e);
    assert FrameOf(e) in s.used;
    assert MaskedFrame(e) != FrameOf(e) ==> FrameOf(e) in s.used - {MaskedFrame(e)};
  }

  /** With the table below 2 GB, unmapping it gives back exactly its frame, makes exactly its 4 MB
      region absent and leaves every other translation alone. */
  lemma UnmapHolds(s: State, page: int, v: int)
    requires Inv(s) && 0 <= page < PAGES && 0 <= v < PAGES && s.dir[page / ENTRIES] < FRAME_MASK_LIMIT
    ensures var r := Unmap(s, page);
      var i := page / ENTRIES;
      && Inv(r)
      && r.used == (if s.dir[i] == 0 then s.used else s.used - {FrameOf(s.dir[i])})
      && Absent(r.dir) == Absent(s.dir) + {i}
      && Lookup(r, v) == if v / ENTRIES == i then 0 else Lookup(s, v)
  {
    var i := page / ENTRIES;
    var r := Unmap(s, page);
    assert TableOk(s, i);
    MaskExact(s.dir[i]);
    forall j | 0 <= j < ENTRIES
      ensures TableOk(r, j)
    {
      assert TableOk(s, j);
      assert s.dir[i] != 0 && s.dir[j] != 0 && j != i ==> FrameOf(s.dir[j]) != FrameOf(s.dir[i]) by {
        if j < i { } else { assert i <= j; }
      }
    }
    assert TableOk(s, v / ENTRIES);
  }

  /** The allocator never hands out a live page table: they are all used, and it hands out free frames. */
  lemma NoTableHandedOut(s: State, f: int)
    requires Inv(s) && f == LeastFree(s.used, s.max, 1) && f != 0
    ensures f !in TableFrames(s)
  {
    forall i | 0 <= i < ENTRIES
      ensures s.dir[i] != 0 ==> FrameOf(s.dir[i]) != f
    {
      assert TableOk(s, i);
    }
  }

  // ----- the clearing of a new table, as coded

  function Pow256(n: nat): (p: int)
    ensures p >= 1
  {
    if n == 0 then 1 else 256 * Pow256(n - 1)
  }

  /** memset at the directory entry's value, flag bits included: the first `flags` bytes of the
      frame keep what they held and as many of the next frame are zeroed. */
  function CodedClear(mem: seq<Table>, f: int, flags: nat): seq<Table>
    requires 0 <= f < |mem| && forall g :: 0 <= g < |mem| ==> |mem[g]| == ENTRIES
  {
    var low := Pow256(flags);
    var cleared := mem[f := EmptyTable()[0 := mem[f][0] % low]];
    if f + 1 < |mem| then cleared[f + 1 := mem[f + 1][0 := mem[f + 1][0] - mem[f + 1][0] % low]] else cleared
  }

  /** It leaves a cleared table and the neighbour intact exactly when the bytes it misses and the
      bytes it should not touch were zero already. */
  lemma CodedClearExact(mem: seq<Table>, f: int, flags: nat)
    requires 0 <= f < |mem| && forall g :: 0 <= g < |mem| ==> |mem[g]| == ENTRIES
    requires flags <= 4
    ensures CodedClear(mem, f, flags) == mem[f := EmptyTable()] <==>
      mem[f][0] % Pow256(flags) == 0 && (f + 1 < |mem| ==> mem[f + 1][0] % Pow256(flags) == 0)
  {
    var got := CodedClear(mem, f, flags);
    var want := mem[f := EmptyTable()];
    var low := Pow256(flags);
    assert got[f][0] == mem[f][0] % low && want[f][0] == 0;
    if f + 1 < |mem| {
      assert got[f + 1][0] == mem[f + 1][0] - mem[f + 1][0] % low && want[f + 1] == mem[f + 1];
    }
    if mem[f][0] % low == 0 && (f + 1 < |mem| ==> mem[f + 1][0] % low == 0) {
      assert got[f] == want[f];
      assert f + 1 < |mem| ==> got[f + 1] == want[f + 1];
    }
  }
}

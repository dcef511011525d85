/** src/heap.c on values: the ranges of virtual memory granted to the heap, bottom up. */
module PagerModel {
  import opened Machine
  import Pmm
  import opened VmmModel

  const KHEAP_PAGE: int := KHEAP / PAGE_SIZE

  /** A granted range: `pages` pages from `page` on, over as many frames from `frame` on. `mapped` are
      the pages that had a page table at the time; the others read NULL. */
  datatype Grant = Grant(page: int, pages: nat, frame: int, mapped: set<int>)

  /** The grants lie end to end from KHEAP up to page `top`. */
  predicate EndToEnd(grants: seq<Grant>, top: int)
    decreases grants
  {
    if grants == [] then top == KHEAP_PAGE
    else
      var last := grants[|grants| - 1];
      top == last.page + last.pages && last.pages > 0 && EndToEnd(grants[..|grants| - 1], last.page)
  }

  /** Every page of the grant reads its frame, present and writable, or NULL if it had no table. */
  ghost predicate Stands(s: State, g: Grant)
    requires Formed(s)
  {
    && 0 <= g.page && g.page + g.pages <= PAGES
    && forall v :: g.page <= v < g.page + g.pages ==>
         Lookup(s, v) == if v in g.mapped then Entry(g.frame + (v - g.page), PW) else 0
  }

  /** Its frames are in use, and none is a page table or frame 0. */
  ghost predicate OnData(s: State, g: Grant) {
    forall f :: f in Pmm.RunSet(g.frame, g.pages) ==> IsData(s, f)
  }

  ghost predicate Apart(grants: seq<Grant>) {
    forall i, j :: 0 <= i < j < |grants| ==>
      Pmm.RunSet(grants[i].frame, grants[i].pages) !! Pmm.RunSet(grants[j].frame, grants[j].pages)
  }

  /** What the pager keeps. The pages keep their translations when all frames lie below KHEAP. */
  ghost predicate Kept(s: State, top: int, grants: seq<Grant>) {
    && Inv(s) && top <= PAGES && EndToEnd(grants, top) && Apart(grants)
    && (forall i :: 0 <= i < |grants| ==> OnData(s, grants[i]))
    && (s.max <= KHEAP_PAGE ==> forall i :: 0 <= i < |grants| ==> Stands(s, grants[i]))
  }

  // ----- the grants cover the heap, each page once

  lemma {:induction false} GrantsInOrder(grants: seq<Grant>, top: int, i: nat)
    requires EndToEnd(grants, top) && i < |grants|
    ensures 0xC8000 <= grants[i].page && grants[i].page + grants[i].pages <= top
    ensures grants[i].page == if i == 0 then 0xC8000 else grants[i - 1].page + grants[i - 1].pages
    ensures i == |grants| - 1 ==> grants[i].page + grants[i].pages == top
    decreases |grants|
  {
    var rest, last := grants[..|grants| - 1], grants[|grants| - 1];
    if i < |rest| {
      GrantsInOrder(rest, last.page, i);
    } else if i > 0 {
      GrantsInOrder(rest, last.page, i - 1);
    }
  }

  /** Every page from KHEAP to the top lies in exactly one grant. */
  lemma {:induction false} GrantOf(grants: seq<Grant>, top: int, v: int) returns (i: nat)
    requires EndToEnd(grants, top) && KHEAP_PAGE <= v < top
    ensures i < |grants| && grants[i].page <= v < grants[i].page + grants[i].pages
    ensures forall j :: 0 <= j < |grants| && grants[j].page <= v < grants[j].page + grants[j].pages ==> j == i
    decreases |grants|
  {
    var rest, last := grants[..|grants| - 1], grants[|grants| - 1];
    if v >= last.page {
      i := |grants| - 1;
      forall j | 0 <= j < |rest|
        ensures grants[j].page + grants[j].pages <= v
      {
        GrantsInOrder(rest, last.page, j);
      }
    } else {
      i := GrantOf(rest, last.page, v);
      assert forall j :: 0 <= j < |rest| ==> rest[j] == grants[j];
    }
  }

  // ----- one more grant

  /** liballoc_alloc of n pages was served with the frames from `frame` on. */
  ghost predicate Served(s: State, page: int, n: nat, frame: int, r: State) {
    && n > 0 && 0 < frame && Pmm.RunSet(frame, n) !! s.used
    && MappedFrom(s, Pmm.RunSet(frame, n), page, frame, n, r)
  }

  ghost function Granted(r: State, page: int, n: nat, frame: int): Grant
    requires Formed(r) && 0 <= page && page + n <= PAGES
  {
    Grant(page, n, frame, set v | page <= v < page + n && Reads(r, page, frame, v))
  }

  /** g records such a call. */
  ghost predicate Records(s: State, page: int, n: nat, g: Grant, r: State) {
    Served(s, page, n, g.frame, r) && Formed(r) && 0 <= page && page + n <= PAGES && g == Granted(r, page, n, g.frame)
  }

  lemma OldStands(s: State, page: int, n: nat, frame: int, r: State, g: Grant)
    requires Inv(s) && s.max <= KHEAP_PAGE && Served(s, page, n, frame, r)
    requires Stands(s, g) && KHEAP_PAGE <= g.page && g.page + g.pages <= page
    ensures Formed(r) && Stands(r, g)
  {
    var q := s.(used := s.used + Pmm.RunSet(frame, n));
    RangeInv(q, page, frame, n);
    forall v | g.page <= v < g.page + g.pages
      ensures Lookup(r, v) == Lookup(s, v)
    {
      RangeOutside(q, page, frame, n, v);
    }
  }

  lemma NewStands(s: State, page: int, n: nat, frame: int, r: State)
    requires Inv(s) && s.max <= page && Served(s, page, n, frame, r)
    ensures Formed(r) && Stands(r, Granted(r, page, n, frame))
  {
    var q := s.(used := s.used + Pmm.RunSet(frame, n));
    RangeInv(q, page, frame, n);
    forall v | page <= v < page + n
      ensures Reads(r, page, frame, v) || Lookup(r, v) == 0
    {
      RangeMapped(q, page, frame, n, v);
    }
  }

  lemma OldOnData(s: State, page: int, n: nat, frame: int, r: State, g: Grant)
    requires Inv(s) && Served(s, page, n, frame, r) && OnData(s, g)
    ensures OnData(r, g)
  {
    var q := s.(used := s.used + Pmm.RunSet(frame, n));
    forall f | f in Pmm.RunSet(g.frame, g.pages)
      ensures IsData(r, f)
    {
      assert IsData(s, f) && TableFrames(q) == TableFrames(s);
      RangeSparesData(q, page, frame, n, f);
    }
  }

  lemma NewOnData(s: State, page: int, n: nat, frame: int, r: State)
    requires Inv(s) && Served(s, page, n, frame, r)
    ensures Formed(r) && OnData(r, Granted(r, page, n, frame))
  {
    var q := s.(used := s.used + Pmm.RunSet(frame, n));
    RangeInv(q, page, frame, n);
    forall f | f in Pmm.RunSet(frame, n)
      ensures IsData(r, f)
    {
      TablesAreUsed(s);
      assert TableFrames(q) == TableFrames(s);
      RangeSparesData(q, page, frame, n, f);
    }
  }

  lemma TablesAreUsed(s: State)
    requires Inv(s)
    ensures TableFrames(s) <= s.used
  {
    forall i | 0 <= i < |s.dir| && s.dir[i] != 0
      ensures FrameOf(s.dir[i]) in s.used
    {
      assert TableOk(s, i);
    }
  }

  lemma NewApart(s: State, grants: seq<Grant>, g: Grant)
    requires Apart(grants) && forall i :: 0 <= i < |grants| ==> OnData(s, grants[i])
    requires Pmm.RunSet(g.frame, g.pages) !! s.used
    ensures Apart(grants + [g])
  {
    forall i | 0 <= i < |grants|
      ensures Pmm.RunSet(grants[i].frame, grants[i].pages) !! Pmm.RunSet(g.frame, g.pages)
    {
      assert OnData(s, grants[i]);
    }
  }

  /** A served call keeps it all: the new range follows the last one, no earlier page changes its
      translation, and the frames are new. */
  lemma ServedKeeps(s: State, top: int, grants: seq<Grant>, n: nat, frame: int, r: State)
    requires Kept(s, top, grants) && Served(s, top, n, frame, r)
    ensures Formed(r) && Kept(r, top + n, grants + [Granted(r, top, n, frame)])
  {
    RangeInv(s.(used := s.used + Pmm.RunSet(frame, n)), top, frame, n);
    var g := Granted(r, top, n, frame);
    var all := grants + [g];
    NewOnData(s, top, n, frame, r);
    NewApart(s, grants, g);
    assert all[..|grants|] == grants;
    forall i | 0 <= i < |all|
      ensures OnData(r, all[i])
    {
      if i < |grants| {
        OldOnData(s, top, n, frame, r, grants[i]);
      }
    }
    if s.max <= KHEAP_PAGE {
      TopIsAbove(grants, top);
      NewStands(s, top, n, frame, r);
      forall i | 0 <= i < |all|
        ensures Stands(r, all[i])
      {
        if i < |grants| {
          GrantsInOrder(grants, top, i);
          OldStands(s, top, n, frame, r, grants[i]);
        }
      }
    }
  }

  lemma TopIsAbove(grants: seq<Grant>, top: int)
    requires EndToEnd(grants, top)
    ensures KHEAP_PAGE <= top
  {
    if grants != [] {
      GrantsInOrder(grants, top, |grants| - 1);
    }
  }

  // ----- every page mapped

  /** Every page of every grant reads its frame. */
  ghost predicate AllMapped(grants: seq<Grant>) {
    forall i, v :: 0 <= i < |grants| && grants[i].page <= v < grants[i].page + grants[i].pages ==> v in grants[i].mapped
  }

  /** A grant of n pages is mapped in full when, besides its frames, a free frame is left for every
      absent directory entry. */
  lemma PlentyMaps(s: State, page: int, n: nat, frame: int, r: State)
    requires Inv(s) && s.max <= page && Served(s, page, n, frame, r)
    requires Plenty(s.(used := s.used + Pmm.RunSet(frame, n)))
    ensures Formed(r) && forall v :: page <= v < page + n ==> v in Granted(r, page, n, frame).mapped
  {
    var q := s.(used := s.used + Pmm.RunSet(frame, n));
    RangeInv(q, page, frame, n);
    forall v | page <= v < page + n
      ensures Reads(r, page, frame, v)
    {
      RangeAllMapped(q, page, frame, n, v);
    }
  }
}

/** src/heap.c: the pager hook that gives the heap ranges of virtual memory. */
module KernelHeap {
  import opened Machine
  import Pmm
  import opened VmmModel
  import opened Vmm
  import opened PagerModel

  class Pager {
    const space: AddressSpace
    var heaptop: int
    /** Every range granted since init_heap, the page number of heaptop, and the page tables. */
    ghost var grants: seq<Grant>
    ghost var top: int
    ghost var tables: State

    /** init_heap. */
    constructor (s: AddressSpace)
      requires s.Valid()
      ensures space == s && heaptop == 0xC800_0000 && grants == [] && Valid()
    {
      space, heaptop, grants, top, tables := s, KHEAP, [], KHEAP_PAGE, s.St();
    }

    /** The grants lie end to end from KHEAP to the top, over frames of their own that are no page
        tables, and with all frames below KHEAP their pages keep their translations. */
    ghost predicate Valid()
      reads this, space, space.pmm, space.pmm.words
    {
      && space.Valid() && space.St() == tables
      && KHEAP_PAGE <= top && heaptop == top * PAGE_SIZE && Kept(tables, top, grants)
    }

    /** liballoc_alloc. When the page at the top has a translation already, or no run of frames can
        be had, the source returns an uninitialised pointer, here `garbage`. */
    method LiballocAlloc(pages: nat, garbage: int) returns (outmem: int, ok: bool, ghost g: Grant)
      requires Valid() && top + pages <= PAGES && top < PAGES
      modifies this, space`dir, space`mem, space.pmm`used, space.pmm.words
      ensures Valid()
      ensures ok <==> old(space.Grantable(top, pages))
      ensures outmem == if ok then old(heaptop) else garbage
      ensures !ok ==> top == old(top) && tables == old(tables) && grants == old(grants)
      ensures ok ==> top == old(top) + pages && grants == old(grants) + [g]
      ensures ok ==> Records(old(tables), old(top), pages, g, tables)
    {
      outmem := garbage;
      assert heaptop / PAGE_SIZE == top;
      ok, g := Extend(heaptop / PAGE_SIZE, pages);
      if ok {
        outmem := Advance(pages);
      }
    }

    /** The move of heaptop. */
    method Advance(pages: nat) returns (was: int)
      requires space.Valid() && space.St() == tables && KHEAP_PAGE <= top && heaptop == top * PAGE_SIZE
      requires Kept(tables, top + pages, grants)
      modifies this`heaptop, this`top
      ensures Valid() && was == old(heaptop) && top == old(top) + pages
    {
      was := heaptop;
      heaptop := heaptop + PAGE_SIZE * pages;
      top := top + pages;
    }

    /** The call of vmmngr_alloc_pages_at_virtual_address, at page number `page`. */
    method Extend(page: int, pages: nat) returns (ok: bool, ghost g: Grant)
      requires space.Valid() && space.St() == tables && Kept(tables, page, grants)
      requires 0 <= page < PAGES && page + pages <= PAGES
      modifies this`grants, this`tables, space`dir, space`mem, space.pmm`used, space.pmm.words
      ensures space.Valid() && space.St() == tables && Kept(tables, if ok then page + pages else page, grants)
      ensures ok <==> old(space.Grantable(page, pages))
      ensures !ok ==> tables == old(tables) && grants == old(grants)
      ensures ok ==> Records(old(tables), page, pages, g, tables) && grants == old(grants) + [g]
    {
      ghost var frame;
      ok, frame := space.AllocPages(pages, page);
      g := Grant(page, pages, frame, {});
      if ok {
        ghost var r := space.St();
        ServedKeeps(tables, page, grants, pages, frame, r);
        g := Granted(r, page, pages, frame);
        grants, tables := grants + [g], r;
      }
    }
  }
}

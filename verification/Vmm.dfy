/** src/vmm.c as it runs: the current page directory over physical memory and the frame allocator. */
module Vmm {
  import opened Machine
  import Pmm
  import opened VmmModel

  // ----- the fill loops of vmmngr_initialize

  /** The loop that maps the first 4 MB to themselves. */
  method FillIdentity(table: array<int>)
    requires table.Length == ENTRIES
    modifies table
    ensures forall k :: 0 <= k < ENTRIES ==> table[k] == Entry(k, PRESENT)
  {
    var i, frame, virt := 0, 0x0, 0x0000_0000;
    while i < ENTRIES
      invariant 0 <= i <= ENTRIES && frame == virt == i * PAGE_SIZE
      invariant forall k :: 0 <= k < i ==> table[k] == Entry(k, PRESENT)
    {
      table[(virt / PAGE_SIZE) % ENTRIES] := frame + PRESENT;
      i, frame, virt := i + 1, frame + PAGE_SIZE, virt + PAGE_SIZE;
    }
  }

  /** Which of the 1024 pages from 0xc0100000 on lands in slot k of the table. */
  function KernelStep(k: int): int {
    (k - 0x100) % ENTRIES
  }

  /** The frame that slot k of the kernel's table ends up with. */
  function KernelSlot(k: int): int {
    0x100 + KernelStep(k)
  }

  lemma SlotOfStep(i: int, k: int)
    requires 0 <= i < ENTRIES && 0 <= k < ENTRIES
    ensures KernelStep(k) == i <==> k == (0xc0100 + i) % ENTRIES
  {
  }

  /** The loop that maps the kernel: 1024 pages from 0xc0100000 on, which run past the table's end and
      wrap. */
  method FillKernel(table: array<int>)
    requires table.Length == ENTRIES
    modifies table
    ensures forall k :: 0 <= k < ENTRIES ==> table[k] == Entry(KernelSlot(k), PRESENT)
  {
    var i, frame, virt := 0, 0x10_0000, 0xc010_0000;
    while i < ENTRIES
      invariant 0 <= i <= ENTRIES && frame == 0x10_0000 + i * PAGE_SIZE && virt == 0xc010_0000 + i * PAGE_SIZE
      invariant forall k :: 0 <= k < ENTRIES && KernelStep(k) < i ==> table[k] == Entry(KernelSlot(k), PRESENT)
    {
      ghost var was := table[..];
      var slot := (virt / PAGE_SIZE) % ENTRIES;
      table[slot] := frame + PRESENT;
      forall k | 0 <= k < ENTRIES && KernelStep(k) < i + 1
        ensures table[k] == Entry(KernelSlot(k), PRESENT)
      {
        SlotOfStep(i, k);
        assert k != slot ==> table[k] == was[k];
      }
      i, frame, virt := i + 1, frame + PAGE_SIZE, virt + PAGE_SIZE;
    }
  }

  /** In the 4 MB at 0xc0000000 the kernel's table translates an address to itself minus 3 GB
      exactly from 0xc0100000 on; the first megabyte reads frames of the fifth. */
  lemma KernelWindow(k: int)
    requires 0 <= k < ENTRIES
    ensures KernelSlot(k) == k <==> k >= 0x100
    ensures k < 0x100 ==> KernelSlot(k) == k + ENTRIES
  {
  }

  // ----- linking the bitmap to the used set

  lemma GrantIsLeastFree(before: seq<Pmm.Word>, after: seq<Pmm.Word>, max: nat, f: int)
    requires Pmm.Granted(before, after, max, f, 1)
    ensures f == LeastFree(Pmm.UsedSet(before, max), max, 1)
    ensures Pmm.UsedSet(after, max) == Pmm.UsedSet(before, max) + {f}
    ensures f !in Pmm.UsedSet(before, max) && 0 < f < max
  {
    Pmm.FrameIsRun(before, max, f);
    var used := Pmm.UsedSet(before, max);
    var g := LeastFree(used, max, 1);
    assert f !in used;
    forall h | 0 <= h < f
      ensures Pmm.BitAt(before, h)
    {
      Pmm.FrameIsRun(before, max, h);
    }
  }

  lemma FullHasNoFree(words: seq<Pmm.Word>, max: nat)
    requires max > 0 ==> 0 in Pmm.UsedSet(words, max)
    ensures Pmm.AllUsed(words, max) <==> LeastFree(Pmm.UsedSet(words, max), max, 1) == 0
  {
    var used := Pmm.UsedSet(words, max);
    if LeastFree(used, max, 1) == 0 {
      forall f | 0 <= f < max
        ensures Pmm.BitAt(words, f)
      {
        assert f in used;
      }
    } else {
      assert !Pmm.BitAt(words, LeastFree(used, max, 1));
    }
  }

  class AddressSpace {
    const pmm: Pmm.FrameAllocator
    var dir: Table          // _cur_directory
    var mem: seq<Table>     // physical memory as tables

    ghost function St(): State
      reads this, pmm, pmm.words
    {
      State(pmm.Used(), pmm.max, dir, mem)
    }

    ghost predicate Valid()
      reads this, pmm, pmm.words
    {
      pmm.Valid() && Inv(St())
    }

    constructor (allocator: Pmm.FrameAllocator, directory: Table, memory: seq<Table>)
      requires allocator.Valid() && Inv(State(allocator.Used(), allocator.max, directory, memory))
      ensures Valid() && pmm == allocator && dir == directory && mem == memory
    {
      pmm, dir, mem := allocator, directory, memory;
    }

    /** vmmngr_getPhysicalAddress. */
    method GetPhysicalAddress(page: int) returns (entry: int)
      requires Valid() && 0 <= page < PAGES
      ensures entry == Lookup(St(), page)
    {
      assert TableOk(St(), page / ENTRIES);
      if dir[page / ENTRIES] == 0 {
        return 0;
      }
      return mem[FrameOf(dir[page / ENTRIES])][page % ENTRIES];
    }

    /** vmmngr_createPageTable; `ok` is its status code. */
    method CreatePageTable(page: int, flags: int) returns (ok: bool)
      requires Valid() && 0 <= page < PAGES && 0 <= flags < PAGE_SIZE
      modifies this`dir, this`mem, pmm`used, pmm.words
      ensures Valid() && St() == Create(old(St()), page, flags)
      ensures ok <==> old(CanMap(St(), page))
      decreases Absent(dir), 0
    {
      ghost var s := St();
      if dir[page / ENTRIES] == 0 {
        FullHasNoFree(pmm.words[..], pmm.max);
        ghost var before := pmm.words[..];
        var block := pmm.AllocBlock();
        if block == 0 {
          return false;
        }
        var f := FrameOf(block);
        GrantIsLeastFree(before, pmm.words[..], pmm.max, f);
        NewTableInv(s, page, f, flags);
        dir := dir[page / ENTRIES := Entry(f, flags)];
        mem := mem[f := EmptyTable()];
        assert St() == NewTable(s, page, f, flags);
        assert page / ENTRIES in Absent(s.dir);
        MapPhysicalAddress(f, f, flags);
      }
      return true;
    }

    /** vmmngr_mapPhysicalAddress. */
    method MapPhysicalAddress(page: int, frame: int, flags: int)
      requires Valid() && 0 <= page < PAGES && 0 <= flags < PAGE_SIZE
      modifies this`dir, this`mem, pmm`used, pmm.words
      ensures Valid() && St() == Map(old(St()), page, frame, flags)
      decreases Absent(dir), 1
    {
      if dir[page / ENTRIES] == 0 {
        var _ := CreatePageTable(page, flags);
      }
      assert TableOk(St(), page / ENTRIES);
      ghost var q := St();
      var t := FrameOf(dir[page / ENTRIES]);
      if t < |mem| {
        mem := mem[t := mem[t][page % ENTRIES := Entry(frame, flags)]];
      }
      assert St() == StoreEntry(q, page, Entry(frame, flags));
      StoreInv(q, page, Entry(frame, flags));
    }

    /** vmmngr_unmapPageTable. The state stays whole when the table lies below 2 GB. */
    method UnmapPageTable(page: int)
      requires Valid() && 0 <= page < PAGES
      modifies this`dir, pmm`used, pmm.words
      ensures St() == Unmap(old(St()), page)
      ensures old(dir[page / ENTRIES]) < FRAME_MASK_LIMIT ==> Valid()
    {
      ghost var s := St();
      assert TableOk(s, page / ENTRIES);
      if dir[page / ENTRIES] != 0 {
        ghost var entry := dir[page / ENTRIES];
        var frame := MaskedFrame(dir[page / ENTRIES]);
        MaskExact(entry);
        assert 0 <= frame < pmm.max && frame * PAGE_SIZE / Pmm.BLOCK_SIZE == frame;
        pmm.FreeBlock(frame * PAGE_SIZE);
        assert entry < FRAME_MASK_LIMIT ==> pmm.Valid();
        dir := dir[page / ENTRIES := 0];
        assert St() == Unmap(s, page);
        if entry < FRAME_MASK_LIMIT {
          UnmapHolds(s, page, page);
        }
      }
    }

    /** The loop of vmmngr_alloc_pages_at_virtual_address. */
    method MapPages(page: int, frame: int, n: nat)
      requires Valid() && 0 <= page && page + n <= PAGES
      modifies this`dir, this`mem, pmm`used, pmm.words
      ensures Valid() && St() == MapRange(old(St()), page, frame, n)
    {
      ghost var want := MapRange(St(), page, frame, n);
      var i, start, blocks := 0, page, frame;
      while i < n
        invariant 0 <= i <= n && start == page + i && Valid()
        invariant MapRange(St(), start, blocks, n - i) == want
      {
        RangeStep(St(), start, blocks, n - i);
        MapPhysicalAddress(start, blocks, PRESENT + WRITABLE);
        i, start, blocks := i + 1, start + 1, blocks + 1;
      }
    }

    /** The page has no translation, and a run of n frames can be had. */
    ghost predicate Grantable(page: int, n: nat)
      requires Formed(St()) && 0 <= page < PAGES
      reads this, pmm, pmm.words
    {
      Lookup(St(), page) == 0 && Pmm.RunAvailable(pmm.words[..], pmm.max, pmm.used, n)
    }

    /** vmmngr_alloc_pages_at_virtual_address. The frames come as one run that was free; `true` is
        returned whether or not every page table could be made. */
    method AllocPages(n: nat, page: int) returns (ok: bool, ghost frame: int)
      requires Valid() && 0 <= page && page + n <= PAGES && page < PAGES
      modifies this`dir, this`mem, pmm`used, pmm.words
      ensures Valid()
      ensures ok <==> old(Grantable(page, n))
      ensures !ok ==> St() == old(St())
      ensures ok ==> n > 0 && 0 < frame && frame + n <= pmm.max && Pmm.RunSet(frame, n) !! old(pmm.Used())
      ensures ok ==> MappedFrom(old(St()), Pmm.RunSet(frame, n), page, frame, n, St())
      ensures ok && pmm.max <= page ==> MappedExactly(old(St()), Pmm.RunSet(frame, n), page, frame, n, St())
    {
      frame := 0;
      var entry := GetPhysicalAddress(page);
      if entry != 0 {
        return false, 0;
      }
      ghost var s := St();
      var blocks := pmm.AllocBlocks(n);
      if blocks == 0 {
        return false, 0;
      }
      frame := FrameOf(blocks);
      MoreUsed(s, pmm.Used());
      assert St() == s.(used := s.used + Pmm.RunSet(frame, n));
      MapPages(page, FrameOf(blocks), n);
      if pmm.max <= page {
        MappedFromIff(s, Pmm.RunSet(frame, n), page, frame, n, St());
      }
      return true, frame;
    }

    /** vmmngr_identMap of a page-aligned address. */
    method IdentMap(virt: int, size: nat)
      requires Valid() && 0 <= virt && virt % PAGE_SIZE == 0 && virt / PAGE_SIZE + PagesIn(size) <= PAGES
      modifies this`dir, this`mem, pmm`used, pmm.words
      ensures Valid()
      ensures St() == MapRange(old(St()), virt / PAGE_SIZE, virt / PAGE_SIZE, PagesIn(size))
    {
      MapPages(virt / PAGE_SIZE, virt / PAGE_SIZE, PagesIn(size));
    }
  }

  /** That is: nothing is mapped at the page, more than n frames are free, and n of them lie together. */
  lemma GrantableMeans(a: AddressSpace, page: int, n: nat)
    requires a.Valid() && 0 <= page < PAGES
    ensures a.Grantable(page, n) <==>
      && Lookup(a.St(), page) == 0 && 0 < n < a.pmm.max - |a.pmm.Used()|
      && exists p :: 0 <= p && p + n <= a.pmm.max && Pmm.RunSet(p, n) !! a.pmm.Used()
  {
    var words, max := a.pmm.words[..], a.pmm.max;
    if p :| Pmm.RunClear(words, max, p, n) {
      assert Pmm.RunSet(p, n) !! a.pmm.Used();
    }
    if p :| 0 <= p && p + n <= max && Pmm.RunSet(p, n) !! a.pmm.Used() {
      forall g | p <= g < p + n
        ensures !Pmm.BitAt(words, g)
      {
        assert g in Pmm.RunSet(p, n);
      }
      assert Pmm.RunClear(words, max, p, n);
    }
  }

  /** Using more frames keeps the page tables what they are. */
  lemma MoreUsed(s: State, used: set<int>)
    requires Inv(s) && s.used <= used && forall f :: f in used ==> 0 <= f < s.max
    ensures Inv(s.(used := used))
  {
    var r := s.(used := used);
    forall i | 0 <= i < ENTRIES
      ensures TableOk(r, i)
    {
      assert TableOk(s, i);
    }
  }
}

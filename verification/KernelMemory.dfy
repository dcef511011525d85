/** The heap of src/liballoc.c over the pager of src/heap.c over the page tables of src/vmm.c: one
    system, on values. */
module KernelModel {
  import opened Machine
  import H = LiballocModel
  import I = LiballocInvariant
  import O = LiballocOps
  import M = LiballocMalloc
  import B = LiballocBytes
  import R = LiballocRuns
  import Pmm
  import V = VmmModel
  import P = PagerModel

  datatype System = System(heap: H.State, tables: V.State, grants: seq<P.Grant>)

  /** The page number of heaptop. */
  function Top(k: System): int {
    k.heap.top / PAGE_SIZE
  }

  ghost predicate Inv(k: System) {
    I.Inv(k.heap) && k.heap.top % PAGE_SIZE == 0 && P.Kept(k.tables, Top(k), k.grants)
  }

  // ----- steps

  function Request(op: R.Op): int {
    match op
    case DoMalloc(size, _) => size
    case DoRealloc(_, size, _) => size
    case DoFree(_) => 0
    case DoWrite(_, _) => 0
  }

  /** The operation calls malloc and malloc finds no tag, so it calls the pager. */
  predicate Asks(s: H.State, op: R.Op)
    requires H.Shape(s)
  {
    && 0 <= Request(op) < TWO32
    && (op.DoMalloc? || (op.DoRealloc? && op.size != 0))
    && M.Found(s, Request(op)) == 0
  }

  /** The pages the operation gets from the pager. */
  function Pages(s: H.State, op: R.Op): nat
    requires H.Shape(s)
  {
    if Asks(s, op) && op.granted then H.PagesFor(Request(op)) else 0
  }

  /** liballoc_alloc serves n pages at page `top`. */
  ghost predicate Call(s: V.State, top: int, grants: seq<P.Grant>, n: nat, r: V.State, after: seq<P.Grant>) {
    exists g :: P.Records(s, top, n, g, r) && after == grants + [g]
  }

  /** One operation of the heap, with the call of the pager it makes. The chunk that free gives back
      stays mapped: liballoc_free returns without effect when its first page has a translation. */
  ghost predicate Step(k: System, op: R.Op, r: System)
    requires H.Shape(k.heap)
  {
    && r.heap == R.Step(k.heap, op)
    && if Pages(k.heap, op) > 0 then Call(k.tables, Top(k), k.grants, Pages(k.heap, op), r.tables, r.grants)
       else r.tables == k.tables && r.grants == k.grants
  }

  lemma MergesKeepTop(s: H.State, a: int)
    requires H.Shape(s)
    ensures O.MergeLeft(s, a).0.top == s.top && O.MergeRight(s, a).top == s.top
  {
  }

  lemma FreeKeepsTop(s: H.State, p: int)
    requires H.Shape(s)
    ensures M.FreePtr(s, p).0.top == s.top
  {
    var a := H.U32(p - H.HEADER);
    var (s1, b) := O.MergeLeft(s, a);
    MergesKeepTop(s, a);
    MergesKeepTop(s1, b);
    M.FileKeepsChunks(O.MergeRight(s1, b), b);
  }

  /** The heap's top moves by the pages it gets. */
  lemma StepTop(s: H.State, op: R.Op)
    requires I.Inv(s) && R.Legal(s, op)
    ensures R.Step(s, op).top == s.top + Pages(s, op) * PAGE_SIZE
  {
    match op
    case DoMalloc(size, granted) => M.MallocChunks(s, size, granted);
    case DoFree(p) => FreeKeepsTop(s, p);
    case DoRealloc(p, size, granted) =>
      if size == 0 {
        FreeKeepsTop(s, p);
      } else {
        M.MallocChunks(s, size, granted);
        var (s1, q) := M.Malloc(s, size, granted);
        FreeKeepsTop(R.Copied(s1, q, p, R.Kept(s, p, size)), p);
      }
    case DoWrite(x, v) =>
  }

  lemma CallKeeps(s: V.State, top: int, grants: seq<P.Grant>, n: nat, r: V.State, after: seq<P.Grant>)
    requires P.Kept(s, top, grants) && Call(s, top, grants, n, r, after)
    ensures P.Kept(r, top + n, after)
  {
    var g :| P.Records(s, top, n, g, r) && after == grants + [g];
    P.ServedKeeps(s, top, grants, n, g.frame, r);
  }

  /** Every layer's invariant is kept, and the heap's top and the pager's move together. */
  lemma StepKeeps(k: System, op: R.Op, r: System)
    requires Inv(k) && R.Legal(k.heap, op) && Step(k, op, r)
    ensures Inv(r) && Top(r) == Top(k) + Pages(k.heap, op)
  {
    R.StepHolds(k.heap, op);
    StepTop(k.heap, op);
    LayersKeep(k, Pages(k.heap, op), r);
  }

  lemma LayersKeep(k: System, n: nat, r: System)
    requires k.heap.top % PAGE_SIZE == 0 && P.Kept(k.tables, Top(k), k.grants)
    requires r.heap.top == k.heap.top + n * PAGE_SIZE
    requires if n > 0 then Call(k.tables, Top(k), k.grants, n, r.tables, r.grants)
             else r.tables == k.tables && r.grants == k.grants
    ensures r.heap.top % PAGE_SIZE == 0 && P.Kept(r.tables, Top(r), r.grants) && Top(r) == Top(k) + n
  {
    TopMoves(k.heap.top, n);
    if n > 0 {
      CallKeeps(k.tables, Top(k), k.grants, n, r.tables, r.grants);
    }
  }

  lemma TopMoves(top: int, n: nat)
    requires top % PAGE_SIZE == 0
    ensures (top + n * PAGE_SIZE) % PAGE_SIZE == 0 && (top + n * PAGE_SIZE) / PAGE_SIZE == top / PAGE_SIZE + n
  {
  }

  // ----- every page mapped

  lemma GrantSlack(s: V.State, page: int, n: nat, g: P.Grant, r: V.State)
    requires V.Inv(s) && P.Records(s, page, n, g, r)
    ensures V.Slack(r) == V.Slack(s) - n && r.max == s.max
    ensures V.Slack(s.(used := s.used + Pmm.RunSet(g.frame, n))) == V.Slack(s) - n
  {
    V.RangeSlack(s.(used := s.used + Pmm.RunSet(g.frame, n)), page, g.frame, n);
  }

  /** A call takes exactly its pages off the slack, and with that much slack maps them all. */
  lemma CallMaps(s: V.State, top: int, grants: seq<P.Grant>, n: nat, r: V.State, after: seq<P.Grant>)
    requires V.Inv(s) && P.EndToEnd(grants, top) && Call(s, top, grants, n, r, after)
    ensures V.Slack(r) == V.Slack(s) - n && r.max == s.max
    ensures s.max <= P.KHEAP_PAGE && P.AllMapped(grants) && V.Slack(s) >= n ==> P.AllMapped(after)
  {
    var g :| P.Records(s, top, n, g, r) && after == grants + [g];
    GrantSlack(s, top, n, g, r);
    P.TopIsAbove(grants, top);
    if s.max <= P.KHEAP_PAGE && P.AllMapped(grants) && V.Slack(s) >= n {
      P.PlentyMaps(s, top, n, g.frame, r);
      MappedAppend(grants, g);
    }
  }

  lemma MappedAppend(grants: seq<P.Grant>, g: P.Grant)
    requires P.AllMapped(grants) && forall v :: g.page <= v < g.page + g.pages ==> v in g.mapped
    ensures P.AllMapped(grants + [g])
  {
  }

  lemma StepMaps(k: System, op: R.Op, r: System)
    requires Inv(k) && Step(k, op, r)
    ensures V.Slack(r.tables) == V.Slack(k.tables) - Pages(k.heap, op) && r.tables.max == k.tables.max
    ensures k.tables.max <= P.KHEAP_PAGE && P.AllMapped(k.grants) && V.Slack(k.tables) >= Pages(k.heap, op) ==>
      P.AllMapped(r.grants)
  {
    if Pages(k.heap, op) > 0 {
      CallMaps(k.tables, Top(k), k.grants, Pages(k.heap, op), r.tables, r.grants);
    }
  }

  // ----- runs

  /** The system before the first malloc, over any memory. */
  ghost predicate Boot(k: System) {
    && (exists tags, bytes :: k.heap == R.Init(tags, bytes))
    && V.Inv(k.tables) && k.grants == []
  }

  /** ops[i] is legal and leads from states[i] to states[i + 1]. */
  ghost predicate Taken(states: seq<System>, ops: seq<R.Op>, i: nat)
    requires i < |ops| && |states| == |ops| + 1 && H.Shape(states[i].heap)
  {
    R.Legal(states[i].heap, ops[i]) && Step(states[i], ops[i], states[i + 1])
  }

  ghost predicate Trace(states: seq<System>, ops: seq<R.Op>) {
    && |states| == |ops| + 1
    && (forall i :: 0 <= i < |ops| ==> H.Shape(states[i].heap))
    && forall i: nat {:trigger Taken(states, ops, i)} :: i < |ops| ==> Taken(states, ops, i)
  }

  /** The pages the first n operations get. */
  function PagesGot(states: seq<System>, ops: seq<R.Op>, n: nat): nat
    requires n <= |ops| <= |states| && forall i :: 0 <= i < |ops| ==> H.Shape(states[i].heap)
  {
    if n == 0 then 0 else PagesGot(states, ops, n - 1) + Pages(states[n - 1].heap, ops[n - 1])
  }

  lemma {:induction false} PagesGrow(states: seq<System>, ops: seq<R.Op>, m: nat, n: nat)
    requires m <= n <= |ops| <= |states| && forall i :: 0 <= i < |ops| ==> H.Shape(states[i].heap)
    ensures PagesGot(states, ops, m) <= PagesGot(states, ops, n)
    decreases n
  {
    if m < n {
      PagesGrow(states, ops, m, n - 1);
    }
  }

  lemma BootHolds(k: System)
    requires Boot(k)
    ensures Inv(k)
  {
    var tags, bytes :| k.heap == R.Init(tags, bytes);
    R.InitHolds(tags, bytes);
  }

  lemma OneStep(states: seq<System>, ops: seq<R.Op>, i: nat)
    requires Trace(states, ops) && i < |ops| && Inv(states[i])
    ensures Inv(states[i + 1])
  {
    assert Taken(states, ops, i);
    StepKeeps(states[i], ops[i], states[i + 1]);
  }

  lemma {:induction false} InvFrom(states: seq<System>, ops: seq<R.Op>, i: nat)
    requires Trace(states, ops) && Inv(states[0]) && i <= |ops|
    ensures Inv(states[i])
    decreases i
  {
    if i > 0 {
      InvFrom(states, ops, i - 1);
      OneStep(states, ops, i - 1);
    }
  }

  /** Every state of every run satisfies the invariants of all layers. */
  lemma EveryReachableSystem(states: seq<System>, ops: seq<R.Op>, i: nat)
    requires Trace(states, ops) && Boot(states[0]) && i <= |ops|
    ensures Inv(states[i])
  {
    BootHolds(states[0]);
    InvFrom(states, ops, i);
  }

  /** All pages are mapped, and the slack is less by the pages got. */
  ghost predicate Covered(states: seq<System>, ops: seq<R.Op>, i: nat)
    requires Trace(states, ops) && i <= |ops|
  {
    && P.AllMapped(states[i].grants) && states[i].tables.max == states[0].tables.max
    && V.Slack(states[i].tables) == V.Slack(states[0].tables) - PagesGot(states, ops, i)
  }

  /** With a free frame at the start for every absent directory entry and for every page the run
      gets, every page of the heap is mapped at all times. */
  lemma EveryPageMapped(states: seq<System>, ops: seq<R.Op>, i: nat)
    requires Trace(states, ops) && Boot(states[0]) && i <= |ops|
    requires states[0].tables.max <= P.KHEAP_PAGE
    requires V.Slack(states[0].tables) >= PagesGot(states, ops, |ops|)
    ensures P.AllMapped(states[i].grants) && states[i].tables.max == states[0].tables.max
    ensures V.Slack(states[i].tables) == V.Slack(states[0].tables) - PagesGot(states, ops, i)
  {
    BootHolds(states[0]);
    CoveredFrom(states, ops, i);
  }

  lemma {:induction false} CoveredFrom(states: seq<System>, ops: seq<R.Op>, i: nat)
    requires Trace(states, ops) && Inv(states[0]) && i <= |ops| && Covered(states, ops, 0)
    requires states[0].tables.max <= P.KHEAP_PAGE
    requires V.Slack(states[0].tables) >= PagesGot(states, ops, |ops|)
    ensures Covered(states, ops, i)
    decreases i
  {
    if i > 0 {
      CoveredFrom(states, ops, i - 1);
      InvFrom(states, ops, i - 1);
      CoveredStep(states, ops, i - 1);
    }
  }

  lemma CoveredStep(states: seq<System>, ops: seq<R.Op>, i: nat)
    requires Trace(states, ops) && i < |ops| && Inv(states[i]) && Covered(states, ops, i)
    requires states[0].tables.max <= P.KHEAP_PAGE
    requires V.Slack(states[0].tables) >= PagesGot(states, ops, |ops|)
    ensures Covered(states, ops, i + 1)
  {
    EnoughForStep(states, ops, i);
    OneStepMaps(states, ops, i);
  }

  lemma EnoughForStep(states: seq<System>, ops: seq<R.Op>, i: nat)
    requires i < |ops| <= |states| && forall j :: 0 <= j < |ops| ==> H.Shape(states[j].heap)
    ensures PagesGot(states, ops, i + 1) == PagesGot(states, ops, i) + Pages(states[i].heap, ops[i])
    ensures PagesGot(states, ops, i + 1) <= PagesGot(states, ops, |ops|)
  {
    PagesGrow(states, ops, i + 1, |ops|);
  }

  lemma OneStepMaps(states: seq<System>, ops: seq<R.Op>, i: nat)
    requires Trace(states, ops) && i < |ops| && Inv(states[i]) && states[i].tables.max <= P.KHEAP_PAGE
    requires P.AllMapped(states[i].grants) && V.Slack(states[i].tables) >= Pages(states[i].heap, ops[i])
    ensures P.AllMapped(states[i + 1].grants) && states[i + 1].tables.max == states[i].tables.max
    ensures V.Slack(states[i + 1].tables) == V.Slack(states[i].tables) - Pages(states[i].heap, ops[i])
  {
    assert Taken(states, ops, i);
    StepMaps(states[i], ops[i], states[i + 1]);
  }

  // ----- live payloads lie in mapped pages of their own

  /** Page v is present and writable, on a frame that is in use and no page table. */
  ghost predicate OnOwnFrame(t: V.State, v: int) {
    && V.Formed(t) && 0 <= v < V.PAGES
    && V.Lookup(t, v) % 4096 == 3
    && V.IsData(t, V.FrameOf(V.Lookup(t, v)))
  }

  lemma PayloadPage(k: System, a: int, x: int)
    requires Inv(k) && B.InPayload(k.heap, a, x)
    ensures P.KHEAP_PAGE <= x / PAGE_SIZE < Top(k)
  {
    M.RealSizeBounds(k.heap, a);
    assert I.TagSized(H.Get(k.heap.tags, a));
    assert KHEAP <= x < k.heap.top;
  }

  lemma PageFrame(t: V.State, top: int, grants: seq<P.Grant>, v: int) returns (i: nat)
    requires P.Kept(t, top, grants) && t.max <= P.KHEAP_PAGE && P.AllMapped(grants) && P.KHEAP_PAGE <= v < top
    ensures i < |grants| && grants[i].page <= v < grants[i].page + grants[i].pages && OnOwnFrame(t, v)
    ensures V.FrameOf(V.Lookup(t, v)) == grants[i].frame + (v - grants[i].page)
  {
    i := P.GrantOf(grants, top, v);
    OnGrant(t, grants[i], v);
  }

  lemma OnGrant(t: V.State, g: P.Grant, v: int)
    requires V.Formed(t) && P.Stands(t, g) && P.OnData(t, g) && g.page <= v < g.page + g.pages && v in g.mapped
    ensures OnOwnFrame(t, v) && V.FrameOf(V.Lookup(t, v)) == g.frame + (v - g.page)
  {
    var f := g.frame + (v - g.page);
    assert V.Lookup(t, v) == V.Entry(f, V.PW);
    assert f in Pmm.RunSet(g.frame, g.pages);
  }

  /** Different pages of the heap have different frames. */
  lemma FramesDiffer(t: V.State, top: int, grants: seq<P.Grant>, v: int, w: int)
    requires P.Kept(t, top, grants) && t.max <= P.KHEAP_PAGE && P.AllMapped(grants)
    requires P.KHEAP_PAGE <= v < top && P.KHEAP_PAGE <= w < top && v != w
    ensures OnOwnFrame(t, v) && OnOwnFrame(t, w)
    ensures V.FrameOf(V.Lookup(t, v)) != V.FrameOf(V.Lookup(t, w))
  {
    var i := PageFrame(t, top, grants, v);
    var j := PageFrame(t, top, grants, w);
    RunsDiffer(grants, i, j, v, w);
  }

  lemma RunsDiffer(grants: seq<P.Grant>, i: nat, j: nat, v: int, w: int)
    requires P.Apart(grants) && i < |grants| && j < |grants| && v != w
    requires grants[i].page <= v < grants[i].page + grants[i].pages
    requires grants[j].page <= w < grants[j].page + grants[j].pages
    ensures grants[i].frame + (v - grants[i].page) != grants[j].frame + (w - grants[j].page)
  {
    var g, h := grants[i], grants[j];
    assert g.frame + (v - g.page) in Pmm.RunSet(g.frame, g.pages);
    assert h.frame + (w - h.page) in Pmm.RunSet(h.frame, h.pages);
    if i < j {
      assert Pmm.RunSet(g.frame, g.pages) !! Pmm.RunSet(h.frame, h.pages);
    } else if j < i {
      assert Pmm.RunSet(h.frame, h.pages) !! Pmm.RunSet(g.frame, g.pages);
    }
  }

  /** In every state of every run that starts with enough frames, every byte of every live payload
      lies in a page that is present and writable, on a frame that is no page table. */
  lemma EveryPayloadByteMapped(states: seq<System>, ops: seq<R.Op>, i: nat, a: int, x: int)
    requires Trace(states, ops) && Boot(states[0]) && i <= |ops|
    requires states[0].tables.max <= P.KHEAP_PAGE
    requires V.Slack(states[0].tables) >= PagesGot(states, ops, |ops|)
    requires B.InPayload(states[i].heap, a, x)
    ensures OnOwnFrame(states[i].tables, x / PAGE_SIZE)
  {
    EveryReachableSystem(states, ops, i);
    EveryPageMapped(states, ops, i);
    PayloadPage(states[i], a, x);
    var k := states[i];
    var _ := PageFrame(k.tables, Top(k), k.grants, x / PAGE_SIZE);
  }

  /** ... and bytes on different pages lie on different frames. */
  lemma PayloadPagesApart(states: seq<System>, ops: seq<R.Op>, i: nat, a: int, x: int, b: int, y: int)
    requires Trace(states, ops) && Boot(states[0]) && i <= |ops|
    requires states[0].tables.max <= P.KHEAP_PAGE
    requires V.Slack(states[0].tables) >= PagesGot(states, ops, |ops|)
    requires B.InPayload(states[i].heap, a, x) && B.InPayload(states[i].heap, b, y)
    requires x / PAGE_SIZE != y / PAGE_SIZE
    ensures OnOwnFrame(states[i].tables, x / PAGE_SIZE) && OnOwnFrame(states[i].tables, y / PAGE_SIZE)
    ensures var t := states[i].tables;
      V.FrameOf(V.Lookup(t, x / PAGE_SIZE)) != V.FrameOf(V.Lookup(t, y / PAGE_SIZE))
  {
    EveryReachableSystem(states, ops, i);
    EveryPageMapped(states, ops, i);
    PayloadPage(states[i], a, x);
    PayloadPage(states[i], b, y);
    var k := states[i];
    FramesDiffer(k.tables, Top(k), k.grants, x / PAGE_SIZE, y / PAGE_SIZE);
  }

  // ----- what the processor makes of a heap address

  lemma {:induction false} EveryDirectoryPresent(states: seq<System>, ops: seq<R.Op>, i: nat)
    requires Trace(states, ops) && Boot(states[0]) && i <= |ops| && V.AllPresent(states[0].tables.dir)
    ensures V.AllPresent(states[i].tables.dir)
  {
    if i > 0 {
      EveryDirectoryPresent(states, ops, i - 1);
      EveryReachableSystem(states, ops, i - 1);
      OneStepKeepsPresent(states, ops, i - 1);
    }
  }

  lemma OneStepKeepsPresent(states: seq<System>, ops: seq<R.Op>, i: nat)
    requires Trace(states, ops) && i < |ops| && Inv(states[i]) && V.AllPresent(states[i].tables.dir)
    ensures V.AllPresent(states[i + 1].tables.dir)
  {
    assert Taken(states, ops, i);
    StepKeepsPresent(states[i], ops[i], states[i + 1]);
  }

  lemma StepKeepsPresent(k: System, op: R.Op, r: System)
    requires Inv(k) && Step(k, op, r) && V.AllPresent(k.tables.dir)
    ensures V.AllPresent(r.tables.dir)
  {
    var n := Pages(k.heap, op);
    if n > 0 {
      var g :| P.Records(k.tables, Top(k), n, g, r.tables) && r.grants == k.grants + [g];
      V.RangeKeepsPresent(k.tables.(used := k.tables.used + Pmm.RunSet(g.frame, n)), Top(k), g.frame, n);
    }
  }

  lemma WalkOfPage(t: V.State, x: int)
    requires V.Formed(t) && V.AllPresent(t.dir) && 0 <= x < TWO32 && OnOwnFrame(t, x / PAGE_SIZE)
    ensures V.Walk(t, x) == V.FrameOf(V.Lookup(t, x / PAGE_SIZE)) * PAGE_SIZE + x % PAGE_SIZE
  {
    V.WalkIs(t, x / PAGE_SIZE, x % PAGE_SIZE);
  }

  /** In every state of every run that starts with enough frames and a directory of present tables, the
      processor takes every byte of every live payload to a byte of a frame in use that is no page
      table, and different payload bytes to different bytes. */
  lemma PayloadWalks(states: seq<System>, ops: seq<R.Op>, i: nat, a: int, x: int, b: int, y: int)
    requires Trace(states, ops) && Boot(states[0]) && i <= |ops|
    requires states[0].tables.max <= P.KHEAP_PAGE && V.AllPresent(states[0].tables.dir)
    requires V.Slack(states[0].tables) >= PagesGot(states, ops, |ops|)
    requires B.InPayload(states[i].heap, a, x) && B.InPayload(states[i].heap, b, y)
    ensures V.Formed(states[i].tables) && 0 <= x < TWO32 && 0 <= y < TWO32
    ensures V.Walk(states[i].tables, x) != V.FAULT && V.IsData(states[i].tables, V.Walk(states[i].tables, x) / 4096)
    ensures V.Walk(states[i].tables, x) % 4096 == x % 4096
    ensures x != y ==> V.Walk(states[i].tables, x) != V.Walk(states[i].tables, y)
  {
    var t := states[i].tables;
    EveryReachableSystem(states, ops, i);
    EveryDirectoryPresent(states, ops, i);
    PayloadPage(states[i], a, x);
    PayloadPage(states[i], b, y);
    EveryPayloadByteMapped(states, ops, i, a, x);
    EveryPayloadByteMapped(states, ops, i, b, y);
    WalkOfPage(t, x);
    WalkOfPage(t, y);
    if x / PAGE_SIZE != y / PAGE_SIZE {
      PayloadPagesApart(states, ops, i, a, x, b, y);
    }
    WalksDiffer(t, x, y);
  }

  lemma WalksDiffer(t: V.State, x: int, y: int)
    requires V.Formed(t) && 0 <= x < TWO32 && 0 <= y < TWO32 && OnOwnFrame(t, x / PAGE_SIZE)
    requires V.Walk(t, x) == V.FrameOf(V.Lookup(t, x / PAGE_SIZE)) * PAGE_SIZE + x % PAGE_SIZE
    requires 0 <= y / PAGE_SIZE < V.PAGES
    requires V.Walk(t, y) == V.FrameOf(V.Lookup(t, y / PAGE_SIZE)) * PAGE_SIZE + y % PAGE_SIZE
    requires x / PAGE_SIZE != y / PAGE_SIZE ==>
      V.FrameOf(V.Lookup(t, x / PAGE_SIZE)) != V.FrameOf(V.Lookup(t, y / PAGE_SIZE))
    ensures V.Walk(t, x) / 4096 == V.FrameOf(V.Lookup(t, x / PAGE_SIZE)) && V.Walk(t, x) % 4096 == x % 4096
    ensures x != y ==> V.Walk(t, x) != V.Walk(t, y)
  {
  }
}

/** The layers as they run: malloc, free and realloc with the calls they make of liballoc_alloc. */
module KernelMemory {
  import opened Machine
  import H = LiballocModel
  import I = LiballocInvariant
  import M = LiballocMalloc
  import R = LiballocRuns
  import L = Liballoc
  import Pmm
  import V = VmmModel
  import Vmm
  import P = PagerModel
  import K = KernelHeap
  import opened KernelModel

  class Kernel {
    const heap: L.Heap
    const pager: K.Pager

    constructor (memory: map<int, H.Tag>, contents: map<int, int>, space: Vmm.AddressSpace)
      requires space.Valid()
      ensures Valid() && Boot(Sys())
    {
      heap := new L.Heap(memory, contents);
      pager := new K.Pager(space);
      new;
      assert heap.St() == R.Init(memory, contents);
    }

    /** The two layers agree on the heap's top. */
    ghost predicate Valid()
      reads heap, heap.freePages, heap.completePages, pager, pager.space, pager.space.pmm, pager.space.pmm.words
    {
      && heap.Valid() && pager.Valid() && heap.top == pager.heaptop
      && var heapArrays: set<object> := {heap.freePages, heap.completePages};
      && heapArrays !! {pager.space.pmm.words}
    }

    ghost function Sys(): System
      requires heap.Formed()
      reads heap, heap.freePages, heap.completePages, pager
    {
      System(heap.St(), pager.tables, pager.grants)
    }

    /** malloc finds no tag for the size, and the pager can serve it. */
    ghost predicate Serves(size: int)
      requires Valid() && 0 <= size < TWO32 && pager.top < V.PAGES
      reads heap, heap.freePages, heap.completePages, pager, pager.space, pager.space.pmm, pager.space.pmm.words
    {
      M.Found(heap.St(), size) == 0 && pager.space.Grantable(pager.top, H.PagesFor(size))
    }

    /** The window has room for the chunk malloc may ask for. */
    ghost predicate Room(size: int)
      requires Valid() && 0 <= size < TWO32
      reads heap, heap.freePages, heap.completePages, pager, pager.space, pager.space.pmm, pager.space.pmm.words
    {
      heap.top < TWO32 && M.Fits(heap.St(), size)
    }

    /** malloc's search finds nothing. */
    method Misses(size: int) returns (b: bool)
      requires heap.Valid() && 0 <= size < TWO32
      ensures b <==> M.Found(heap.St(), size) == 0
    {
      var index := L.GetExponent(size);
      if index < H.MINEXP {
        index := H.MINEXP;
      }
      var tag := heap.Search(index, size);
      b := tag == 0;
    }

    /** The call of liballoc_alloc inside malloc. Nothing is written before it but the arrays'
        first clearing. */
    method AskPager(size: int, garbage: int) returns (granted: bool)
      requires Valid() && 0 <= size && size + H.HEADER < TWO32 && Room(size)
      modifies pager, pager.space`dir, pager.space`mem, pager.space.pmm`used, pager.space.pmm.words
      ensures heap.Valid() && heap.St() == old(heap.St()) && pager.Valid()
      ensures granted <==> old(Serves(size))
      ensures granted ==>
        && Call(old(pager.tables), old(pager.top), old(pager.grants), H.PagesFor(size), pager.tables, pager.grants)
        && pager.top == old(pager.top) + H.PagesFor(size)
      ensures !granted ==>
        pager.tables == old(pager.tables) && pager.grants == old(pager.grants) && pager.top == old(pager.top)
    {
      var misses := Misses(size);
      granted := false;
      if misses {
        var outmem;
        ghost var g;
        outmem, granted, g := pager.LiballocAlloc(H.PagesFor(size), garbage);
        assert heap.St() == old(heap.St());
      }
    }

    method Malloc(size: int, garbage: int) returns (ptr: int, ghost granted: bool)
      requires Valid() && 0 <= size && size + H.HEADER < TWO32 && Room(size)
      modifies heap, heap.freePages, heap.completePages
      modifies pager, pager.space`dir, pager.space`mem, pager.space.pmm`used, pager.space.pmm.words
      ensures Valid() && granted == old(Serves(size))
      ensures Step(old(Sys()), R.DoMalloc(size, granted), Sys())
      ensures (heap.St(), ptr) == M.Malloc(old(heap.St()), size, granted)
    {
      ghost var k, top := Sys(), pager.top;
      assert k.heap.top / PAGE_SIZE == top;
      var answer := AskPager(size, garbage);
      granted := answer;
      ghost var tables, grants := pager.tables, pager.grants;
      ptr := heap.Malloc(size, answer);
      assert pager.Valid();
      MallocStep(k, top, size, granted, heap.St(), tables, grants);
    }

    /** free of a pointer its caller owns. liballoc_free returns without effect on a mapped chunk. */
    method Free(ptr: int)
      requires Valid() && R.Owned(heap.St(), ptr)
      modifies heap, heap.freePages, heap.completePages
      ensures Valid() && Step(old(Sys()), R.DoFree(ptr), Sys())
    {
      ghost var s := heap.St();
      var _ := heap.Free(ptr);
      FreeKeepsTop(s, ptr);
      assert pager.Valid();
    }

    method Realloc(p: int, size: int, garbage: int) returns (ptr: int, ghost granted: bool)
      requires Valid() && R.Owned(heap.St(), p) && 0 <= size && size + H.HEADER < TWO32 && Room(size)
      modifies heap, heap.freePages, heap.completePages
      modifies pager, pager.space`dir, pager.space`mem, pager.space.pmm`used, pager.space.pmm.words
      ensures Valid() && granted == (size != 0 && old(Serves(size)))
      ensures Step(old(Sys()), R.DoRealloc(p, size, granted), Sys())
      ensures (heap.St(), ptr) == R.Realloc(old(heap.St()), p, size, granted)
    {
      ghost var k, top := Sys(), pager.top;
      assert k.heap.top / PAGE_SIZE == top;
      var answer := false;
      if size != 0 {
        answer := AskPager(size, garbage);
      }
      granted := answer;
      ghost var tables, grants := pager.tables, pager.grants;
      ptr := heap.ReallocPtr(p, size, answer);
      assert pager.Valid();
      ReallocStep(k, top, p, size, granted, heap.St(), tables, grants);
    }
  }

  lemma MallocStep(k: System, top: int, size: int, granted: bool, r: H.State, tables: V.State, grants: seq<P.Grant>)
    requires I.Inv(k.heap) && 0 <= size && size + H.HEADER < TWO32 && M.Fits(k.heap, size) && Top(k) == top
    requires r == M.Malloc(k.heap, size, granted).0
    requires granted ==> M.Found(k.heap, size) == 0
    requires if granted then Call(k.tables, top, k.grants, H.PagesFor(size), tables, grants)
             else tables == k.tables && grants == k.grants
    ensures Step(k, R.DoMalloc(size, granted), System(r, tables, grants))
    ensures r.top == k.heap.top + (if granted then H.PagesFor(size) else 0) * PAGE_SIZE
  {
    M.MallocChunks(k.heap, size, granted);
    StepOfMalloc(k.heap, size, granted);
  }

  lemma StepOfMalloc(s: H.State, size: int, granted: bool)
    requires H.Shape(s) && 0 <= size && size < TWO32
    ensures R.Step(s, R.DoMalloc(size, granted)) == M.Malloc(s, size, granted).0
    ensures Pages(s, R.DoMalloc(size, granted)) == if granted && M.Found(s, size) == 0 then H.PagesFor(size) else 0
  {
  }

  lemma ReallocStep(k: System, top: int, p: int, size: int, granted: bool, r: H.State, tables: V.State,
                    grants: seq<P.Grant>)
    requires I.Inv(k.heap) && R.Legal(k.heap, R.DoRealloc(p, size, granted)) && Top(k) == top
    requires r == R.Realloc(k.heap, p, size, granted).0
    requires granted ==> size != 0 && M.Found(k.heap, size) == 0
    requires if granted then Call(k.tables, top, k.grants, H.PagesFor(size), tables, grants)
             else tables == k.tables && grants == k.grants
    ensures Step(k, R.DoRealloc(p, size, granted), System(r, tables, grants))
    ensures r.top == k.heap.top + (if granted then H.PagesFor(size) else 0) * PAGE_SIZE
  {
    StepOfRealloc(k.heap, p, size, granted);
    StepTop(k.heap, R.DoRealloc(p, size, granted));
  }

  lemma StepOfRealloc(s: H.State, p: int, size: int, granted: bool)
    requires H.Shape(s) && 0 <= size && size < TWO32
    ensures R.Step(s, R.DoRealloc(p, size, granted)) == R.Realloc(s, p, size, granted).0
    ensures Pages(s, R.DoRealloc(p, size, granted)) ==
      if granted && size != 0 && M.Found(s, size) == 0 then H.PagesFor(size) else 0
  {
  }
}

/** src/pci.c: the scan of configuration space through bridges. */
module PciModel {

  /** Configuration space, a 16-bit word per (bus, device, function, register). */
  type Word = w: int | 0 <= w < 0x10000
  type Config = (int, int, int, int) -> Word

  /** A bus, device and function number. */
  datatype Slot = Slot(bus: nat, device: nat, func: nat)

  const ABSENT := 0xFFFF

  function VendorID(cfg: Config, x: Slot): int {
    cfg(x.bus, x.device, x.func, 0)
  }

  function DeviceID(cfg: Config, x: Slot): int {
    cfg(x.bus, x.device, x.func, 2)
  }

  function HeaderType(cfg: Config, x: Slot): int {
    cfg(x.bus, x.device, x.func, 0x0E) % 256
  }

  function BaseClass(cfg: Config, x: Slot): int {
    cfg(x.bus, x.device, x.func, 0x0A) / 256 % 256
  }

  function SubClass(cfg: Config, x: Slot): int {
    cfg(x.bus, x.device, x.func, 0x0A) % 256
  }

  function SecondaryBus(cfg: Config, x: Slot): (b: nat)
    ensures b < 256
  {
    cfg(x.bus, x.device, x.func, 0x18) / 256 % 256
  }

  predicate IsBridge(cfg: Config, x: Slot) {
    BaseClass(cfg, x) == 6 && SubClass(cfg, x) == 4
  }

  predicate MultiFunction(cfg: Config, x: Slot) {
    HeaderType(cfg, x) / 128 % 2 == 1
  }

  /** The fields of the packed words: the vendor at 0, the device at 2, base class over sub-class at 0x0A,
      the multi-function bit over the header type at 0x0E, secondary over primary bus at 0x18. */
  lemma Registers(cfg: Config, x: Slot, base: nat, sub: nat, multi: bool, layout: nat, bist: nat, primary: nat,
                  secondary: nat)
    requires base < 256 && sub < 256 && layout < 128 && bist < 256 && primary < 256 && secondary < 256
    requires cfg(x.bus, x.device, x.func, 0x0A) == sub + 256 * base
    requires cfg(x.bus, x.device, x.func, 0x0E) == layout + (if multi then 128 else 0) + 256 * bist
    requires cfg(x.bus, x.device, x.func, 0x18) == primary + 256 * secondary
    ensures BaseClass(cfg, x) == base && SubClass(cfg, x) == sub && SecondaryBus(cfg, x) == secondary
    ensures IsBridge(cfg, x) <==> base == 6 && sub == 4
    ensures MultiFunction(cfg, x) <==> multi
    ensures VendorID(cfg, x) == cfg(x.bus, x.device, x.func, 0) && DeviceID(cfg, x) == cfg(x.bus, x.device, x.func, 2)
  {
    HighByte(sub, base);
    HighByte(primary, secondary);
    HighByte(layout + if multi then 128 else 0, bist);
  }

  lemma HighByte(low: nat, high: nat)
    requires low < 256 && high < 256
    ensures (low + 256 * high) / 256 == high && (low + 256 * high) % 256 == low
  {
  }

  // ----- which functions there are, and which can be reached

  /** The function exists: functions 1 to 7 count only on a multi-function device. */
  predicate Present(cfg: Config, x: Slot) {
    && x.bus < 256 && x.device < 32 && x.func < 8
    && VendorID(cfg, x.(func := 0)) != ABSENT
    && (x.func > 0 ==> MultiFunction(cfg, x.(func := 0)) && VendorID(cfg, x) != ABSENT)
  }

  predicate Bridge(cfg: Config, x: Slot) {
    Present(cfg, x) && IsBridge(cfg, x)
  }

  /** The bridges of p lead from bus a to bus b. */
  predicate Path(cfg: Config, a: nat, p: seq<Slot>, b: nat)
    decreases p
  {
    if p == [] then a == b
    else p[0].bus == a && Bridge(cfg, p[0]) && Path(cfg, SecondaryBus(cfg, p[0]), p[1..], b)
  }

  ghost predicate Reaches(cfg: Config, a: nat, b: nat) {
    exists p :: Path(cfg, a, p, b)
  }

  /** No two bridges lead to the same bus. */
  ghost predicate Distinct(cfg: Config) {
    forall x, y :: Bridge(cfg, x) && Bridge(cfg, y) && SecondaryBus(cfg, x) == SecondaryBus(cfg, y) ==> x == y
  }

  lemma {:induction false} PathJoin(cfg: Config, a: nat, p: seq<Slot>, b: nat, q: seq<Slot>, c: nat)
    requires Path(cfg, a, p, b) && Path(cfg, b, q, c)
    ensures Path(cfg, a, p + q, c)
    decreases p
  {
    if p == [] {
      assert p + q == q;
    } else {
      PathJoin(cfg, SecondaryBus(cfg, p[0]), p[1..], b, q, c);
      assert (p + q)[1..] == p[1..] + q;
    }
  }

  lemma {:induction false} PathSplit(cfg: Config, a: nat, p: seq<Slot>, b: nat, i: nat)
    requires Path(cfg, a, p, b) && i < |p|
    ensures Bridge(cfg, p[i]) && Path(cfg, a, p[..i], p[i].bus) && Path(cfg, p[i].bus, p[i..], b)
    decreases p
  {
    if i > 0 {
      PathSplit(cfg, SecondaryBus(cfg, p[0]), p[1..], b, i - 1);
      assert p[..i][1..] == p[1..][..i - 1] && p[i..] == p[1..][i - 1..];
    } else {
      assert p[0..] == p;
    }
  }

  // ----- when the recursion ends

  /** From the bus at most k bridges lead down one after another. */
  ghost predicate Finishes(cfg: Config, bus: nat, k: nat)
    decreases k, 1
  {
    forall x: Slot {:trigger Deeper(cfg, x, k)} :: x.bus == bus && Bridge(cfg, x) ==> Deeper(cfg, x, k)
  }

  /** At most k, the bridge x being the first. */
  ghost predicate Deeper(cfg: Config, x: Slot, k: nat)
    decreases k, 0
  {
    k > 0 && Finishes(cfg, SecondaryBus(cfg, x), k - 1)
  }

  lemma FinishesStep(cfg: Config, x: Slot, k: nat)
    requires Finishes(cfg, x.bus, k) && Bridge(cfg, x)
    ensures k > 0 && Finishes(cfg, SecondaryBus(cfg, x), k - 1)
  {
    assert Deeper(cfg, x, k);
  }

  lemma {:induction false} FinishesAlong(cfg: Config, a: nat, k: nat, p: seq<Slot>, b: nat)
    requires Finishes(cfg, a, k) && Path(cfg, a, p, b)
    ensures |p| <= k && Finishes(cfg, b, k - |p|)
    decreases p
  {
    if p != [] {
      var c := SecondaryBus(cfg, p[0]);
      FinishesStep(cfg, p[0], k);
      FinishesAlong(cfg, c, k - 1, p[1..], b);
      assert k - 1 - |p[1..]| == k - |p|;
    }
  }

  lemma {:induction false} NoLoop(cfg: Config, a: nat, k: nat, p: seq<Slot>)
    requires Finishes(cfg, a, k) && Path(cfg, a, p, a)
    ensures p == []
    decreases k
  {
    FinishesAlong(cfg, a, k, p, a);
    if p != [] {
      NoLoop(cfg, a, k - |p|, p);
    }
  }

  /** A bus that can be reached from the start reaches itself through a bridge. */
  ghost predicate Loops(cfg: Config, start: nat) {
    exists p, b, q :: q != [] && Path(cfg, start, p, b) && Path(cfg, b, q, b)
  }

  lemma {:induction false} LongPath(cfg: Config, bus: nat, k: nat) returns (p: seq<Slot>, b: nat)
    requires !Finishes(cfg, bus, k)
    ensures |p| == k + 1 && Path(cfg, bus, p, b)
    decreases k
  {
    var x: Slot :| x.bus == bus && Bridge(cfg, x) && !Deeper(cfg, x, k);
    if k == 0 {
      p, b := [x], SecondaryBus(cfg, x);
    } else {
      var rest;
      rest, b := LongPath(cfg, SecondaryBus(cfg, x), k - 1);
      p := [x] + rest;
    }
  }

  function BusNumbers(n: nat): (s: set<int>)
    ensures |s| == n && forall b :: b in s <==> 0 <= b < n
  {
    if n == 0 then {} else BusNumbers(n - 1) + {n - 1}
  }

  function BusesOf(p: seq<Slot>): (s: set<int>)
    ensures forall b :: b in s <==> exists i :: 0 <= i < |p| && p[i].bus == b
  {
    set i | 0 <= i < |p| :: p[i].bus
  }

  /** Without a repetition a path names as many buses as it has bridges. */
  lemma {:induction false} NoRepeat(p: seq<Slot>)
    requires forall i, j :: 0 <= i < j < |p| ==> p[i].bus != p[j].bus
    ensures |BusesOf(p)| == |p|
  {
    if p != [] {
      var rest, last := p[..|p| - 1], p[|p| - 1];
      NoRepeat(rest);
      assert BusesOf(p) == BusesOf(rest) + {last.bus};
    } else {
      assert BusesOf(p) == {};
    }
  }

  lemma Repeat(cfg: Config, p: seq<Slot>) returns (i: nat, j: nat)
    requires |p| > 256 && forall k :: 0 <= k < |p| ==> p[k].bus < 256
    ensures i < j < |p| && p[i].bus == p[j].bus
  {
    var buses, all := BusesOf(p), BusNumbers(256);
    assert buses <= all;
    assert all == buses + (all - buses);
    if forall i, j :: 0 <= i < j < |p| ==> p[i].bus != p[j].bus {
      NoRepeat(p);
    }
    i, j :| 0 <= i < j < |p| && p[i].bus == p[j].bus;
  }

  lemma DeepLoops(cfg: Config, start: nat, k: nat)
    requires k >= 256 && !Finishes(cfg, start, k)
    ensures Loops(cfg, start)
  {
    var p, b := LongPath(cfg, start, k);
    forall m | 0 <= m < |p|
      ensures p[m].bus < 256
    {
      PathSplit(cfg, start, p, b, m);
    }
    var i, j := Repeat(cfg, p);
    PathSplit(cfg, start, p, b, j);
    PathSplit(cfg, start, p[..j], p[j].bus, i);
    var q := p[..j][i..];
    assert q != [] && Path(cfg, start, p[..j][..i], p[i].bus) && Path(cfg, p[i].bus, q, p[i].bus);
  }

  /** The recursion from a bus ends exactly when no bus that it reaches reaches itself. */
  lemma FinishesIff(cfg: Config, start: nat)
    ensures (exists k :: Finishes(cfg, start, k)) <==> !Loops(cfg, start)
  {
    if Loops(cfg, start) {
      forall k
        ensures !Finishes(cfg, start, k)
      {
        LoopNeverFinishes(cfg, start, k);
      }
    } else {
      var k: nat :| k >= 256;
      if !Finishes(cfg, start, k) {
        DeepLoops(cfg, start, k);
      }
      assert Finishes(cfg, start, k);
    }
  }

  lemma LoopNeverFinishes(cfg: Config, start: nat, k: nat)
    requires Loops(cfg, start)
    ensures !Finishes(cfg, start, k)
  {
    var p, b, q :| q != [] && Path(cfg, start, p, b) && Path(cfg, b, q, b);
    if Finishes(cfg, start, k) {
      FinishesAlong(cfg, start, k, p, b);
      NoLoop(cfg, b, k - |p|, q);
    }
  }

  /** Every bridge leads to a higher bus. */
  ghost predicate Ordered(cfg: Config) {
    forall x :: Bridge(cfg, x) ==> x.bus < SecondaryBus(cfg, x)
  }

  /** Then it ends from every bus. */
  lemma {:induction false} OrderedFinishes(cfg: Config, bus: nat)
    requires Ordered(cfg) && bus < 256
    ensures Finishes(cfg, bus, 256 - bus)
    decreases 256 - bus
  {
    forall x: Slot | x.bus == bus && Bridge(cfg, x)
      ensures Deeper(cfg, x, 256 - bus)
    {
      var c := SecondaryBus(cfg, x);
      OrderedFinishes(cfg, c);
      FinishesMore(cfg, c, 256 - c, 256 - bus - 1);
    }
  }

  lemma {:induction false} FinishesMore(cfg: Config, bus: nat, k: nat, m: nat)
    requires Finishes(cfg, bus, k) && k <= m
    ensures Finishes(cfg, bus, m)
    decreases k
  {
    forall x: Slot | x.bus == bus && Bridge(cfg, x)
      ensures Deeper(cfg, x, m)
    {
      FinishesStep(cfg, x, k);
      FinishesMore(cfg, SecondaryBus(cfg, x), k - 1, m - 1);
    }
  }

  // ----- the scan, at most k bridges deep

  /** What the scan of a bus from device d on checks, in order. */
  ghost function BusScan(cfg: Config, bus: nat, d: nat, k: nat): (l: seq<Slot>)
    requires Finishes(cfg, bus, k) && bus < 256 && d <= 32
    decreases k, 4, 32 - d
  {
    if d == 32 then [] else DeviceScan(cfg, bus, d, k) + BusScan(cfg, bus, d + 1, k)
  }

  ghost function DeviceScan(cfg: Config, bus: nat, d: nat, k: nat): (l: seq<Slot>)
    requires Finishes(cfg, bus, k) && bus < 256 && d < 32
    decreases k, 3, 0
  {
    var x := Slot(bus, d, 0);
    if VendorID(cfg, x) == ABSENT then []
    else FunctionScan(cfg, x, k) + if MultiFunction(cfg, x) then OtherScan(cfg, bus, d, 1, k) else []
  }

  /** Functions f to 7 of a multi-function device. */
  ghost function OtherScan(cfg: Config, bus: nat, d: nat, f: nat, k: nat): (l: seq<Slot>)
    requires Finishes(cfg, bus, k) && bus < 256 && d < 32 && 1 <= f <= 8
    requires VendorID(cfg, Slot(bus, d, 0)) != ABSENT && MultiFunction(cfg, Slot(bus, d, 0))
    decreases k, 2, 8 - f
  {
    if f == 8 then []
    else
      (if VendorID(cfg, Slot(bus, d, f)) != ABSENT then FunctionScan(cfg, Slot(bus, d, f), k) else [])
      + OtherScan(cfg, bus, d, f + 1, k)
  }

  ghost function FunctionScan(cfg: Config, x: Slot, k: nat): (l: seq<Slot>)
    requires Present(cfg, x) && Finishes(cfg, x.bus, k)
    decreases k, 1, 0
  {
    SubScan(cfg, x, k) + [x]
  }

  /** What is behind a bridge. */
  ghost function SubScan(cfg: Config, x: Slot, k: nat): (l: seq<Slot>)
    requires Present(cfg, x) && Finishes(cfg, x.bus, k)
    decreases k, 0, 0
  {
    if IsBridge(cfg, x) then
      FinishesStep(cfg, x, k);
      BusScan(cfg, SecondaryBus(cfg, x), 0, k - 1)
    else []
  }

  /** How often x is checked. */
  ghost function Times(l: seq<Slot>, x: Slot): nat {
    multiset(l)[x]
  }

  // ----- every reachable function, once

  /** With distinct secondary buses there is at most one path from a bus that the recursion ends from. */
  lemma {:induction false} PathUnique(cfg: Config, a: nat, k: nat, p: seq<Slot>, q: seq<Slot>, b: nat)
    requires Distinct(cfg) && Finishes(cfg, a, k) && Path(cfg, a, p, b) && Path(cfg, a, q, b)
    ensures p == q
    decreases |p|
  {
    if p == [] {
      NoLoop(cfg, a, k, q);
    } else if q == [] {
      NoLoop(cfg, a, k, p);
    } else {
      var i, j := |p| - 1, |q| - 1;
      LastLeads(cfg, a, p, b);
      LastLeads(cfg, a, q, b);
      assert p[i] == q[j];
      PathUnique(cfg, a, k, p[..i], q[..j], p[i].bus);
      assert p == p[..i] + [p[i]] && q == q[..j] + [q[j]];
    }
  }

  lemma LastLeads(cfg: Config, a: nat, p: seq<Slot>, b: nat)
    requires p != [] && Path(cfg, a, p, b)
    ensures var i := |p| - 1;
      Bridge(cfg, p[i]) && SecondaryBus(cfg, p[i]) == b && Path(cfg, a, p[..i], p[i].bus)
  {
    var i := |p| - 1;
    PathSplit(cfg, a, p, b, i);
    assert p[i..][1..] == [];
  }

  /** Bus b is below bridge x. */
  ghost predicate Below(cfg: Config, x: Slot, b: nat) {
    Bridge(cfg, x) && Reaches(cfg, SecondaryBus(cfg, x), b)
  }

  /** What can be reached from a bus is the bus and what is below its bridges. */
  lemma ReachesBelow(cfg: Config, a: nat, b: nat)
    ensures Reaches(cfg, a, b) <==> a == b || exists x: Slot :: x.bus == a && Below(cfg, x, b)
  {
    if p: seq<Slot> :| Path(cfg, a, p, b) {
      if p != [] {
        assert Path(cfg, SecondaryBus(cfg, p[0]), p[1..], b);
        assert p[0].bus == a && Below(cfg, p[0], b);
      }
    }
    if a == b {
      assert Path(cfg, a, [], b);
    }
    if x: Slot :| x.bus == a && Below(cfg, x, b) {
      var _ := BelowPath(cfg, x, b);
    }
  }

  lemma BelowPath(cfg: Config, x: Slot, b: nat) returns (p: seq<Slot>)
    requires Below(cfg, x, b)
    ensures Path(cfg, x.bus, [x] + p, b)
    ensures Reaches(cfg, x.bus, b)
  {
    p :| Path(cfg, SecondaryBus(cfg, x), p, b);
    PathStep(cfg, x, p, b);
  }

  lemma PathStep(cfg: Config, x: Slot, p: seq<Slot>, b: nat)
    requires Bridge(cfg, x) && Path(cfg, SecondaryBus(cfg, x), p, b)
    ensures Path(cfg, x.bus, [x] + p, b)
  {
    assert ([x] + p)[0] == x && ([x] + p)[1..] == p;
  }

  /** No bus is below two bridges of one bus, and none below a bridge that it is on. */
  lemma BelowOne(cfg: Config, x: Slot, y: Slot, b: nat, k: nat)
    requires Distinct(cfg) && Finishes(cfg, x.bus, k) && x.bus == y.bus && Below(cfg, x, b) && Below(cfg, y, b)
    ensures x == y
  {
    var p := BelowPath(cfg, x, b);
    var q := BelowPath(cfg, y, b);
    PathUnique(cfg, x.bus, k, [x] + p, [y] + q, b);
    assert ([x] + p)[0] == ([y] + q)[0];
  }

  lemma NotBelowItself(cfg: Config, x: Slot, k: nat)
    requires Finishes(cfg, x.bus, k)
    ensures !Below(cfg, x, x.bus)
  {
    if Below(cfg, x, x.bus) {
      var p := BelowPath(cfg, x, x.bus);
      var q := [x] + p;
      assert |q| > 0;
      NoLoop(cfg, x.bus, k, q);
    }
  }

  /** Of slot z, checking x accounts for z itself and for what is below x. */
  ghost predicate Owns(cfg: Config, x: Slot, z: Slot) {
    x == z || (Below(cfg, x, z.bus) && Present(cfg, z))
  }

  ghost function Once(b: bool): nat {
    if b then 1 else 0
  }

  lemma {:induction false} FunctionTimes(cfg: Config, x: Slot, z: Slot, k: nat)
    requires Distinct(cfg) && Present(cfg, x) && Finishes(cfg, x.bus, k)
    ensures Times(FunctionScan(cfg, x, k), z) == Once(Owns(cfg, x, z))
    decreases k, 1, 0
  {
    if IsBridge(cfg, x) {
      FinishesStep(cfg, x, k);
      BusTimes(cfg, SecondaryBus(cfg, x), z, k - 1);
      NotBelowItself(cfg, x, k);
    }
  }

  /** A present function of the device, from f on, accounts for z. */
  ghost predicate OthersOwn(cfg: Config, bus: nat, d: nat, f: nat, z: Slot) {
    exists g: nat :: f <= g && OwnedBy(cfg, Slot(bus, d, g), z)
  }

  ghost predicate OwnedBy(cfg: Config, x: Slot, z: Slot) {
    Present(cfg, x) && Owns(cfg, x, z)
  }

  /** A present function of the bus, from device d on, accounts for z. */
  ghost predicate DevicesOwn(cfg: Config, bus: nat, d: nat, z: Slot) {
    exists e: nat :: d <= e && OthersOwn(cfg, bus, e, 0, z)
  }

  lemma OwnerUnique(cfg: Config, x: Slot, y: Slot, z: Slot, k: nat)
    requires Distinct(cfg) && Finishes(cfg, x.bus, k) && x.bus == y.bus && Owns(cfg, x, z) && Owns(cfg, y, z)
    ensures x == y
  {
    NotBelowItself(cfg, x, k);
    NotBelowItself(cfg, y, k);
    if x != z && y != z {
      BelowOne(cfg, x, y, z.bus, k);
    }
  }

  lemma OthersStep(cfg: Config, bus: nat, d: nat, f: nat, z: Slot, k: nat)
    requires Distinct(cfg) && Finishes(cfg, bus, k)
    ensures Once(OthersOwn(cfg, bus, d, f, z)) ==
      Once(OwnedBy(cfg, Slot(bus, d, f), z)) + Once(OthersOwn(cfg, bus, d, f + 1, z))
  {
    if OthersOwn(cfg, bus, d, f + 1, z) {
      var g: nat :| f + 1 <= g && OwnedBy(cfg, Slot(bus, d, g), z);
      if OwnedBy(cfg, Slot(bus, d, f), z) {
        OwnerUnique(cfg, Slot(bus, d, g), Slot(bus, d, f), z, k);
      }
    }
  }

  lemma DevicesStep(cfg: Config, bus: nat, d: nat, z: Slot, k: nat)
    requires Distinct(cfg) && Finishes(cfg, bus, k)
    ensures Once(DevicesOwn(cfg, bus, d, z)) ==
      Once(OthersOwn(cfg, bus, d, 0, z)) + Once(DevicesOwn(cfg, bus, d + 1, z))
  {
    if DevicesOwn(cfg, bus, d + 1, z) {
      var e: nat :| d + 1 <= e && OthersOwn(cfg, bus, e, 0, z);
      if OthersOwn(cfg, bus, d, 0, z) {
        var g: nat :| 0 <= g && OwnedBy(cfg, Slot(bus, e, g), z);
        var h: nat :| 0 <= h && OwnedBy(cfg, Slot(bus, d, h), z);
        OwnerUnique(cfg, Slot(bus, e, g), Slot(bus, d, h), z, k);
      }
    }
  }

  lemma {:induction false} OtherTimes(cfg: Config, bus: nat, d: nat, f: nat, z: Slot, k: nat)
    requires Distinct(cfg) && Finishes(cfg, bus, k) && bus < 256 && d < 32 && 1 <= f <= 8
    requires VendorID(cfg, Slot(bus, d, 0)) != ABSENT && MultiFunction(cfg, Slot(bus, d, 0))
    ensures Times(OtherScan(cfg, bus, d, f, k), z) == Once(OthersOwn(cfg, bus, d, f, z))
    decreases k, 2, 8 - f
  {
    if f < 8 {
      var x := Slot(bus, d, f);
      OtherTimes(cfg, bus, d, f + 1, z, k);
      OthersStep(cfg, bus, d, f, z, k);
      if VendorID(cfg, x) != ABSENT {
        FunctionTimes(cfg, x, z, k);
      }
    }
  }

  lemma {:induction false} DeviceTimes(cfg: Config, bus: nat, d: nat, z: Slot, k: nat)
    requires Distinct(cfg) && Finishes(cfg, bus, k) && bus < 256 && d < 32
    ensures Times(DeviceScan(cfg, bus, d, k), z) == Once(OthersOwn(cfg, bus, d, 0, z))
    decreases k, 3, 0
  {
    var x := Slot(bus, d, 0);
    OthersStep(cfg, bus, d, 0, z, k);
    if VendorID(cfg, x) != ABSENT {
      FunctionTimes(cfg, x, z, k);
      if MultiFunction(cfg, x) {
        OtherTimes(cfg, bus, d, 1, z, k);
      }
    }
  }

  lemma {:induction false} DevicesTimes(cfg: Config, bus: nat, d: nat, z: Slot, k: nat)
    requires Distinct(cfg) && Finishes(cfg, bus, k) && bus < 256 && d <= 32
    ensures Times(BusScan(cfg, bus, d, k), z) == Once(DevicesOwn(cfg, bus, d, z))
    decreases k, 4, 32 - d
  {
    if d < 32 {
      DeviceTimes(cfg, bus, d, z, k);
      DevicesTimes(cfg, bus, d + 1, z, k);
      DevicesStep(cfg, bus, d, z, k);
    }
  }

  /** checkBus checks every present function reachable from the bus exactly once, and nothing else. */
  lemma {:induction false} BusTimes(cfg: Config, bus: nat, z: Slot, k: nat)
    requires Distinct(cfg) && Finishes(cfg, bus, k) && bus < 256
    ensures Times(BusScan(cfg, bus, 0, k), z) == Once(Present(cfg, z) && Reaches(cfg, bus, z.bus))
    decreases k, 5, 0
  {
    DevicesTimes(cfg, bus, 0, z, k);
    ReachesBelow(cfg, bus, z.bus);
    if e: nat :| 0 <= e && OthersOwn(cfg, bus, e, 0, z) {
      var g: nat :| 0 <= g && OwnedBy(cfg, Slot(bus, e, g), z);
    }
    if Present(cfg, z) && z.bus == bus {
      assert OwnedBy(cfg, Slot(bus, z.device, z.func), z);
      assert OthersOwn(cfg, bus, z.device, 0, z);
    } else if Present(cfg, z) && Reaches(cfg, bus, z.bus) {
      var x: Slot :| x.bus == bus && Below(cfg, x, z.bus);
      assert OwnedBy(cfg, Slot(bus, x.device, x.func), z);
      assert OthersOwn(cfg, bus, x.device, 0, z);
    }
  }

  /** In terms of the registers: of the 256 buses' 32 devices of eight functions, checkBus checks once
      every one that answers on a bus it can reach, the functions after the first only where the first
      has the multi-function bit, and it checks nothing else. */
  lemma EveryFunctionOnce(cfg: Config, bus: nat, z: Slot, k: nat)
    requires Distinct(cfg) && Finishes(cfg, bus, k) && bus < 256
    ensures
      Times(BusScan(cfg, bus, 0, k), z) ==
        if z.bus < 256 && z.device < 32 && z.func < 8 && Reaches(cfg, bus, z.bus)
           && cfg(z.bus, z.device, 0, 0) != 0xFFFF
           && (z.func == 0 || (cfg(z.bus, z.device, 0, 0x0E) % 256 >= 128 && cfg(z.bus, z.device, z.func, 0) != 0xFFFF))
        then 1 else 0
  {
    BusTimes(cfg, bus, z, k);
  }

  /** A bus is reached through bridges: functions that answer, of class 0x06 and sub-class 0x04. */
  lemma BridgeWord(cfg: Config, x: Slot)
    ensures Bridge(cfg, x) <==> Present(cfg, x) && cfg(x.bus, x.device, x.func, 0x0A) == 0x0604
  {
    var w := cfg(x.bus, x.device, x.func, 0x0A);
    assert w == w % 256 + 256 * (w / 256);
  }

  // ----- in which order

  predicate Earlier(x: Slot, y: Slot) {
    x.device < y.device || (x.device == y.device && x.func < y.func)
  }

  /** Of two checks one after the other, for x and y on one bus or something below them: x comes before
      y on the bus, or it is the same function and this was not yet its own check. */
  predicate InOrder(x: Slot, y: Slot, first: Slot) {
    Earlier(x, y) || (x == y && first != x)
  }

  ghost predicate OwnersOnBus(cfg: Config, bus: nat, x: Slot, z: Slot, y: Slot, w: Slot) {
    x.bus == bus && y.bus == bus && OwnedBy(cfg, x, z) && OwnedBy(cfg, y, w)
  }

  lemma FunctionOrder(cfg: Config, o: Slot, k: nat, i: nat, j: nat, x: Slot, y: Slot)
    requires Distinct(cfg) && Present(cfg, o) && Finishes(cfg, o.bus, k)
    requires i < j < |FunctionScan(cfg, o, k)|
    requires OwnersOnBus(cfg, o.bus, x, FunctionScan(cfg, o, k)[i], y, FunctionScan(cfg, o, k)[j])
    ensures InOrder(x, y, FunctionScan(cfg, o, k)[i])
  {
    var l, sub := FunctionScan(cfg, o, k), SubScan(cfg, o, k);
    FunctionOwner(cfg, o, k, i, x);
    FunctionOwner(cfg, o, k, j, y);
    FunctionTimes(cfg, o, o, k);
    assert l == sub + [o] && l[i] == sub[i];
    assert multiset(l) == multiset(sub) + multiset{o};
    assert sub[i] in multiset(sub);
  }

  lemma FunctionOwner(cfg: Config, o: Slot, k: nat, i: nat, x: Slot)
    requires Distinct(cfg) && Present(cfg, o) && Finishes(cfg, o.bus, k) && i < |FunctionScan(cfg, o, k)|
    requires x.bus == o.bus && OwnedBy(cfg, x, FunctionScan(cfg, o, k)[i])
    ensures x == o
  {
    var z := FunctionScan(cfg, o, k)[i];
    FunctionTimes(cfg, o, z, k);
    assert z in multiset(FunctionScan(cfg, o, k));
    OwnerUnique(cfg, x, o, z, k);
  }

  lemma OtherOwner(cfg: Config, bus: nat, d: nat, f: nat, k: nat, i: nat, x: Slot)
    requires Distinct(cfg) && Finishes(cfg, bus, k) && bus < 256 && d < 32 && 1 <= f <= 8
    requires VendorID(cfg, Slot(bus, d, 0)) != ABSENT && MultiFunction(cfg, Slot(bus, d, 0))
    requires i < |OtherScan(cfg, bus, d, f, k)| && x.bus == bus && OwnedBy(cfg, x, OtherScan(cfg, bus, d, f, k)[i])
    ensures x.device == d && x.func >= f
  {
    var z := OtherScan(cfg, bus, d, f, k)[i];
    OtherTimes(cfg, bus, d, f, z, k);
    assert z in multiset(OtherScan(cfg, bus, d, f, k));
    var g: nat :| f <= g && OwnedBy(cfg, Slot(bus, d, g), z);
    OwnerUnique(cfg, x, Slot(bus, d, g), z, k);
  }

  lemma DeviceOwner(cfg: Config, bus: nat, d: nat, k: nat, i: nat, x: Slot)
    requires Distinct(cfg) && Finishes(cfg, bus, k) && bus < 256 && d < 32
    requires i < |DeviceScan(cfg, bus, d, k)| && x.bus == bus && OwnedBy(cfg, x, DeviceScan(cfg, bus, d, k)[i])
    ensures x.device == d
  {
    var z := DeviceScan(cfg, bus, d, k)[i];
    DeviceTimes(cfg, bus, d, z, k);
    assert z in multiset(DeviceScan(cfg, bus, d, k));
    var g: nat :| 0 <= g && OwnedBy(cfg, Slot(bus, d, g), z);
    OwnerUnique(cfg, x, Slot(bus, d, g), z, k);
  }

  lemma BusOwner(cfg: Config, bus: nat, d: nat, k: nat, i: nat, x: Slot)
    requires Distinct(cfg) && Finishes(cfg, bus, k) && bus < 256 && d <= 32
    requires i < |BusScan(cfg, bus, d, k)| && x.bus == bus && OwnedBy(cfg, x, BusScan(cfg, bus, d, k)[i])
    ensures x.device >= d
  {
    var z := BusScan(cfg, bus, d, k)[i];
    DevicesTimes(cfg, bus, d, z, k);
    assert z in multiset(BusScan(cfg, bus, d, k));
    var e: nat :| d <= e && OthersOwn(cfg, bus, e, 0, z);
    var g: nat :| 0 <= g && OwnedBy(cfg, Slot(bus, e, g), z);
    OwnerUnique(cfg, x, Slot(bus, e, g), z, k);
  }

  lemma {:induction false} OtherOrder(cfg: Config, bus: nat, d: nat, f: nat, k: nat, i: nat, j: nat, x: Slot, y: Slot)
    requires Distinct(cfg) && Finishes(cfg, bus, k) && bus < 256 && d < 32 && 1 <= f <= 8
    requires VendorID(cfg, Slot(bus, d, 0)) != ABSENT && MultiFunction(cfg, Slot(bus, d, 0))
    requires i < j < |OtherScan(cfg, bus, d, f, k)|
    requires OwnersOnBus(cfg, bus, x, OtherScan(cfg, bus, d, f, k)[i], y, OtherScan(cfg, bus, d, f, k)[j])
    ensures InOrder(x, y, OtherScan(cfg, bus, d, f, k)[i])
    decreases 8 - f
  {
    var o := Slot(bus, d, f);
    var rest := OtherScan(cfg, bus, d, f + 1, k);
    if VendorID(cfg, o) == ABSENT {
      OtherOrder(cfg, bus, d, f + 1, k, i, j, x, y);
    } else {
      var n := |FunctionScan(cfg, o, k)|;
      assert OtherScan(cfg, bus, d, f, k) == FunctionScan(cfg, o, k) + rest;
      if j < n {
        FunctionOrder(cfg, o, k, i, j, x, y);
      } else if i >= n {
        OtherOrder(cfg, bus, d, f + 1, k, i - n, j - n, x, y);
      } else {
        FunctionOwner(cfg, o, k, i, x);
        OtherOwner(cfg, bus, d, f + 1, k, j - n, y);
      }
    }
  }

  lemma DeviceOrder(cfg: Config, bus: nat, d: nat, k: nat, i: nat, j: nat, x: Slot, y: Slot)
    requires Distinct(cfg) && Finishes(cfg, bus, k) && bus < 256 && d < 32
    requires i < j < |DeviceScan(cfg, bus, d, k)|
    requires OwnersOnBus(cfg, bus, x, DeviceScan(cfg, bus, d, k)[i], y, DeviceScan(cfg, bus, d, k)[j])
    ensures InOrder(x, y, DeviceScan(cfg, bus, d, k)[i])
  {
    var o := Slot(bus, d, 0);
    var n := |FunctionScan(cfg, o, k)|;
    if j < n {
      FunctionOrder(cfg, o, k, i, j, x, y);
    } else if i >= n {
      OtherOrder(cfg, bus, d, 1, k, i - n, j - n, x, y);
    } else {
      FunctionOwner(cfg, o, k, i, x);
      OtherOwner(cfg, bus, d, 1, k, j - n, y);
    }
  }

  /** The scan goes through a bus by device and function, and through what is behind a bridge before the
      bridge itself. */
  lemma {:induction false} ScanOrder(cfg: Config, bus: nat, d: nat, k: nat, i: nat, j: nat, x: Slot, y: Slot)
    requires Distinct(cfg) && Finishes(cfg, bus, k) && bus < 256 && d <= 32
    requires i < j < |BusScan(cfg, bus, d, k)|
    requires OwnersOnBus(cfg, bus, x, BusScan(cfg, bus, d, k)[i], y, BusScan(cfg, bus, d, k)[j])
    ensures InOrder(x, y, BusScan(cfg, bus, d, k)[i])
    decreases 32 - d
  {
    var n := |DeviceScan(cfg, bus, d, k)|;
    if j < n {
      DeviceOrder(cfg, bus, d, k, i, j, x, y);
    } else if i >= n {
      ScanOrder(cfg, bus, d + 1, k, i - n, j - n, x, y);
    } else {
      DeviceOwner(cfg, bus, d, k, i, x);
      BusOwner(cfg, bus, d + 1, k, j - n, y);
    }
  }
}

/** The scan as it runs, with the network card it leaves in n8139device. */
module Pci {
  import opened PciModel

  datatype Nic = NoNic | Nic(slot: Slot, irq: int, ioaddr: int)

  predicate IsNic(cfg: Config, x: Slot) {
    DeviceID(cfg, x) == 0x8139 && VendorID(cfg, x) == 0x10EC
  }

  function NicAt(cfg: Config, x: Slot): Nic {
    Nic(x, cfg(x.bus, x.device, x.func, 0x3C) % 256, cfg(x.bus, x.device, x.func, 0x10))
  }

  /** The last card among the functions checked. */
  function LastNic(cfg: Config, l: seq<Slot>): (n: Nic)
    decreases l
  {
    if l == [] then NoNic
    else if IsNic(cfg, l[|l| - 1]) then NicAt(cfg, l[|l| - 1])
    else LastNic(cfg, l[..|l| - 1])
  }

  /** The card recorded is the last RTL8139 checked, with its interrupt line and the low half of its first
      base address; there is none exactly when none was checked. */
  lemma {:induction false} LastNicIs(cfg: Config, l: seq<Slot>)
    ensures match LastNic(cfg, l)
      case NoNic => forall x :: x in l ==> !(cfg(x.bus, x.device, x.func, 0) == 0x10EC
                                             && cfg(x.bus, x.device, x.func, 2) == 0x8139)
      case Nic(x, irq, ioaddr) =>
        && cfg(x.bus, x.device, x.func, 0) == 0x10EC && cfg(x.bus, x.device, x.func, 2) == 0x8139
        && irq == cfg(x.bus, x.device, x.func, 0x3C) % 256 && ioaddr == cfg(x.bus, x.device, x.func, 0x10)
        && exists i :: 0 <= i < |l| && l[i] == x && forall j :: i < j < |l| ==> !IsNic(cfg, l[j])
    decreases l
  {
    if l != [] && !IsNic(cfg, l[|l| - 1]) {
      LastNicIs(cfg, l[..|l| - 1]);
    }
  }

  lemma LastNicStep(cfg: Config, l: seq<Slot>, x: Slot)
    ensures LastNic(cfg, l + [x]) == if IsNic(cfg, x) then NicAt(cfg, x) else LastNic(cfg, l)
  {
    assert (l + [x])[..|l|] == l;
  }

  lemma DeviceScanStep(cfg: Config, bus: nat, d: nat, k: nat, done: seq<Slot>)
    requires Finishes(cfg, bus, k) && bus < 256 && d < 32 && VendorID(cfg, Slot(bus, d, 0)) != ABSENT
    ensures done + DeviceScan(cfg, bus, d, k) ==
      if MultiFunction(cfg, Slot(bus, d, 0))
      then done + FunctionScan(cfg, Slot(bus, d, 0), k) + OtherScan(cfg, bus, d, 1, k)
      else done + FunctionScan(cfg, Slot(bus, d, 0), k)
  {
    var x := Slot(bus, d, 0);
    Regroup(done, FunctionScan(cfg, x, k), if MultiFunction(cfg, x) then OtherScan(cfg, bus, d, 1, k) else []);
  }

  lemma Regroup(done: seq<Slot>, piece: seq<Slot>, rest: seq<Slot>)
    ensures done + (piece + rest) == done + piece + rest
    ensures done + piece + [] == done + piece
  {
  }

  lemma OtherScanStep(cfg: Config, bus: nat, d: nat, f: nat, k: nat, done: seq<Slot>)
    requires Finishes(cfg, bus, k) && bus < 256 && d < 32 && 1 <= f < 8
    requires VendorID(cfg, Slot(bus, d, 0)) != ABSENT && MultiFunction(cfg, Slot(bus, d, 0))
    ensures done + OtherScan(cfg, bus, d, f, k) ==
      if VendorID(cfg, Slot(bus, d, f)) != ABSENT
      then done + FunctionScan(cfg, Slot(bus, d, f), k) + OtherScan(cfg, bus, d, f + 1, k)
      else done + OtherScan(cfg, bus, d, f + 1, k)
  {
  }

  lemma BusScanStep(cfg: Config, bus: nat, d: nat, k: nat, done: seq<Slot>)
    requires Finishes(cfg, bus, k) && bus < 256 && d < 32
    ensures done + BusScan(cfg, bus, d, k) == done + DeviceScan(cfg, bus, d, k) + BusScan(cfg, bus, d + 1, k)
  {
  }

  class Scanner {
    const cfg: Config
    var nic: Nic
    /** Every call of checkFunction, in the order they finish. */
    ghost var checked: seq<Slot>

    constructor (c: Config)
      ensures cfg == c && Valid() && checked == []
    {
      cfg, nic, checked := c, NoNic, [];
    }

    ghost predicate Valid()
      reads this
    {
      nic == LastNic(cfg, checked)
    }

    method CheckFunction(bus: nat, device: nat, func: nat, ghost k: nat)
      requires Valid() && Present(cfg, Slot(bus, device, func)) && Finishes(cfg, bus, k)
      modifies this
      ensures Valid() && checked == old(checked) + FunctionScan(cfg, Slot(bus, device, func), k)
      decreases k, 1, 0
    {
      var x := Slot(bus, device, func);
      if BaseClass(cfg, x) == 0x06 && SubClass(cfg, x) == 0x04 {
        FinishesStep(cfg, x, k);
        var secondaryBus := SecondaryBus(cfg, x);
        CheckBus(secondaryBus, k - 1);
      }
      LastNicStep(cfg, checked, x);
      Regroup(old(checked), SubScan(cfg, x, k), [x]);
      if DeviceID(cfg, x) == 0x8139 && VendorID(cfg, x) == 0x10EC {
        nic := Nic(x, cfg(bus, device, func, 0x3C) % 256, cfg(bus, device, func, 0x10));
      }
      checked := checked + [x];
    }

    method CheckDevice(bus: nat, device: nat, ghost k: nat)
      requires Valid() && Finishes(cfg, bus, k) && bus < 256 && device < 32
      modifies this
      ensures Valid() && checked == old(checked) + DeviceScan(cfg, bus, device, k)
      decreases k, 3, 0
    {
      var x := Slot(bus, device, 0);
      if VendorID(cfg, x) == ABSENT {
        return;
      }
      DeviceScanStep(cfg, bus, device, k, checked);
      CheckFunction(bus, device, 0, k);
      if HeaderType(cfg, x) / 128 % 2 != 0 {
        CheckOthers(bus, device, k);
      }
    }

    /** The loop of checkDevice. */
    method CheckOthers(bus: nat, device: nat, ghost k: nat)
      requires Valid() && Finishes(cfg, bus, k) && bus < 256 && device < 32
      requires VendorID(cfg, Slot(bus, device, 0)) != ABSENT && MultiFunction(cfg, Slot(bus, device, 0))
      modifies this
      ensures Valid() && checked == old(checked) + OtherScan(cfg, bus, device, 1, k)
      decreases k, 2, 0
    {
      ghost var all := checked + OtherScan(cfg, bus, device, 1, k);
      var func := 1;
      while func < 8
        invariant 1 <= func <= 8
        invariant Valid() && checked + OtherScan(cfg, bus, device, func, k) == all
      {
        OtherScanStep(cfg, bus, device, func, k, checked);
        if VendorID(cfg, Slot(bus, device, func)) != ABSENT {
          CheckFunction(bus, device, func, k);
        }
        func := func + 1;
      }
    }

    method CheckBus(bus: nat, ghost k: nat)
      requires Valid() && Finishes(cfg, bus, k) && bus < 256
      modifies this
      ensures Valid() && checked == old(checked) + BusScan(cfg, bus, 0, k)
      decreases k, 4, 0
    {
      ghost var all := checked + BusScan(cfg, bus, 0, k);
      var device := 0;
      while device < 32
        invariant 0 <= device <= 32
        invariant Valid() && checked + BusScan(cfg, bus, device, k) == all
      {
        BusScanStep(cfg, bus, device, k, checked);
        CheckDevice(bus, device, k);
        device := device + 1;
      }
    }

    /** checkAllBuses. With one host controller, every function reachable from bus 0 is checked exactly
        once. With several, the loop stops at the first function of device 0 that is present, so when
        function 0 is, as the header read from it says, nothing is checked at all. */
    method CheckAllBuses()
      requires Valid() && Distinct(cfg) && checked == []
      requires forall bus :: 0 <= bus < 8 ==> !Loops(cfg, bus)
      modifies this
      ensures Valid()
      ensures !MultiFunction(cfg, Slot(0, 0, 0)) ==>
        forall z :: Times(checked, z) == Once(Present(cfg, z) && Reaches(cfg, 0, z.bus))
      ensures MultiFunction(cfg, Slot(0, 0, 0)) && VendorID(cfg, Slot(0, 0, 0)) != ABSENT ==> checked == []
    {
      if HeaderType(cfg, Slot(0, 0, 0)) / 128 % 2 == 0 {
        CheckHost();
      } else {
        var func := 0;
        while func < 8
          invariant 0 <= func <= 8 && Valid()
          invariant func == 0 || VendorID(cfg, Slot(0, 0, 0)) == ABSENT
          invariant func == 0 ==> checked == []
        {
          if VendorID(cfg, Slot(0, 0, func)) != ABSENT {
            break;
          }
          FinishesIff(cfg, func);
          ghost var k :| Finishes(cfg, func, k);
          CheckBus(func, k);
          func := func + 1;
        }
      }
    }

    /** The branch for one host controller. */
    method CheckHost()
      requires Valid() && Distinct(cfg) && checked == [] && !Loops(cfg, 0)
      modifies this
      ensures Valid()
      ensures forall z :: Times(checked, z) == Once(Present(cfg, z) && Reaches(cfg, 0, z.bus))
    {
      FinishesIff(cfg, 0);
      ghost var k :| Finishes(cfg, 0, k);
      CheckBus(0, k);
      assert checked == BusScan(cfg, 0, 0, k);
      forall z
        ensures Times(checked, z) == Once(Present(cfg, z) && Reaches(cfg, 0, z.bus))
      {
        BusTimes(cfg, 0, z, k);
      }
    }
  }
}

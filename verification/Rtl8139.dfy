/** src/rtl8139.c: draining the receive ring. */
module ReceiveRingModel {
  const RING := 0x2000
  const AREA := 0x8000
  const LONGEST := 3000

  type Byte = b: int | 0 <= b < 256
  type Word16 = w: int | 0 <= w < 0x10000
  type Memory = m: seq<Byte> | |m| == AREA witness seq(AREA, _ => 0)

  datatype Packet = Packet(status: Word16, bytes: seq<Byte>)

  predicate Small(p: Packet) {
    |p.bytes| <= LONGEST
  }

  function Word(m: Memory, o: nat): (w: Word16)
    requires o + 1 < AREA
  {
    Two(m[o], m[o + 1])
  }

  /** A little-endian 16-bit load. */
  function Two(low: Byte, high: Byte): Word16 {
    var w: int := low + 256 * high;
    w
  }

  /** Header, bytes and padding to a multiple of four. */
  function Size(p: Packet): (s: nat)
    ensures s % 4 == 0 && |p.bytes| + 4 <= s < |p.bytes| + 8
  {
    (|p.bytes| + 4 + 3) / 4 * 4
  }

  function Total(l: seq<Packet>): (t: nat)
    ensures t % 4 == 0
    decreases l
  {
    if l == [] then 0 else Size(l[0]) + Total(l[1..])
  }

  // ----- the card's side. Offsets count on past the end of the ring; a packet that starts before
  // the end is written on beyond it, and the next one starts that far into the ring.

  function Physical(u: nat): (o: nat)
    ensures u < 0x4000 ==> o < 0x2000 && (o == u || o + 0x2000 == u)
  {
    if u < RING then u else u - RING
  }

  function Encode(p: Packet): (e: seq<Byte>)
    requires Small(p)
    ensures |e| == |p.bytes| + 4
  {
    [p.status % 256, p.status / 256, |p.bytes| % 256, |p.bytes| / 256] + p.bytes
  }

  function WriteOne(m: Memory, o: nat, p: Packet): (r: Memory)
    requires o < RING && Small(p)
  {
    m[..o] + Encode(p) + m[o + |Encode(p)|..]
  }

  predicate Fits(u: nat, l: seq<Packet>) {
    (forall p :: p in l ==> Small(p)) && u + Total(l) < 2 * RING
  }

  function WriteAll(m: Memory, u: nat, l: seq<Packet>): (r: Memory)
    requires Fits(u, l)
    decreases l
  {
    if l == [] then m else WriteAll(WriteOne(m, Physical(u), l[0]), u + Size(l[0]), l[1..])
  }

  /** The packet is in memory at o. */
  predicate Stored(m: Memory, o: nat, p: Packet)
    requires o < RING && Small(p)
  {
    Word(m, o) == p.status && Word(m, o + 2) == |p.bytes| && m[o + 4..o + 4 + |p.bytes|] == p.bytes
  }

  predicate AllStored(m: Memory, u: nat, l: seq<Packet>)
    requires Fits(u, l)
    decreases l
  {
    l == [] || (Stored(m, Physical(u), l[0]) && AllStored(m, u + Size(l[0]), l[1..]))
  }

  /** Bytes that hold earlier packets are not written. */
  lemma {:induction false} WriteAllKeeps(m: Memory, u: nat, l: seq<Packet>, i: nat)
    requires Fits(u, l) && i < AREA
    requires if u < RING then u + Total(l) - RING <= i < u else i < u - RING || i >= u + Total(l) - RING
    ensures WriteAll(m, u, l)[i] == m[i]
    decreases l
  {
    if l != [] {
      WriteAllKeeps(WriteOne(m, Physical(u), l[0]), u + Size(l[0]), l[1..], i);
    }
  }

  lemma StoredAfter(m: Memory, o: nat, p: Packet, r: Memory)
    requires o < RING && Small(p)
    requires forall i :: o <= i < o + 4 + |p.bytes| ==> r[i] == WriteOne(m, o, p)[i]
    ensures Stored(r, o, p)
  {
    var w := WriteOne(m, o, p);
    assert w[o..o + |Encode(p)|] == Encode(p);
    forall i | 0 <= i < |Encode(p)|
      ensures r[o + i] == Encode(p)[i]
    {
      assert w[o..o + |Encode(p)|][i] == w[o + i];
    }
    assert r[o] == Encode(p)[0] && r[o + 1] == Encode(p)[1] && r[o + 2] == Encode(p)[2] && r[o + 3] == Encode(p)[3];
    forall i | 0 <= i < |p.bytes|
      ensures r[o + 4 + i] == p.bytes[i]
    {
      assert r[o + (4 + i)] == Encode(p)[4 + i];
    }
  }

  /** Packets of less than one ring in all are in memory together once all are written. */
  lemma {:induction false} WrittenIsStored(m: Memory, u: nat, l: seq<Packet>, start: nat)
    requires Fits(u, l) && start <= u && start < RING && u + Total(l) <= start + RING
    ensures AllStored(WriteAll(m, u, l), u, l)
    decreases l
  {
    if l != [] {
      var o, w, next := Physical(u), WriteOne(m, Physical(u), l[0]), u + Size(l[0]);
      WrittenIsStored(w, next, l[1..], start);
      FirstKept(w, u, l, start);
      StoredAfter(m, o, l[0], WriteAll(w, next, l[1..]));
    }
  }

  lemma FirstKept(w: Memory, u: nat, l: seq<Packet>, start: nat)
    requires l != [] && Fits(u, l) && start <= u && start < RING && u + Total(l) <= start + RING
    ensures var o := Physical(u);
      forall i :: o <= i < o + 4 + |l[0].bytes| ==> WriteAll(w, u + Size(l[0]), l[1..])[i] == w[i]
  {
    var o := Physical(u);
    forall i | o <= i < o + 4 + |l[0].bytes|
      ensures WriteAll(w, u + Size(l[0]), l[1..])[i] == w[i]
    {
      WriteAllKeeps(w, u + Size(l[0]), l[1..], i);
    }
  }

  /** Past the end of the ring is the same as that far into it. */
  lemma {:induction false} StoredWraps(m: Memory, u: nat, l: seq<Packet>)
    requires Fits(u, l) && u >= RING && AllStored(m, u, l)
    ensures Fits(u - RING, l) && AllStored(m, u - RING, l)
    decreases l
  {
    if l != [] {
      StoredWraps(m, u + Size(l[0]), l[1..]);
    }
  }

  /** The packets l are in memory from o on, for the driver to take. */
  predicate Pending(m: Memory, o: int, l: seq<Packet>) {
    0 <= o && o % 4 == 0 && Fits(o, l) && AllStored(m, o, l)
  }

  lemma PendingWraps(m: Memory, u: nat, l: seq<Packet>)
    requires u >= RING && Pending(m, u, l)
    ensures Pending(m, u - RING, l)
  {
    StoredWraps(m, u, l);
  }

  // ----- the driver's side

  /** What recv_packet makes of read_ofs, in 16-bit arithmetic. */
  function NextOffset(m: Memory, o: nat): nat
    requires o < RING
  {
    var len := Word(m, o + 2);
    if len > LONGEST then o
    else (((o + len + 4) % 0x10000 + 3) % 0x10000) / 4 * 4
  }

  /** The packet the header at o announces. */
  function PacketAt(m: Memory, o: nat): Packet
    requires o < RING && Word(m, o + 2) <= LONGEST
  {
    Packet(Word(m, o), m[o + 4..o + 4 + Word(m, o + 2)])
  }

  lemma StoredIsPacket(m: Memory, o: nat, p: Packet)
    requires o < RING && Small(p) && Stored(m, o, p)
    ensures Word(m, o + 2) <= LONGEST && PacketAt(m, o) == p
  {
  }

  lemma TakeFirst(done: seq<Packet>, l: seq<Packet>)
    requires l != []
    ensures done + [l[0]] + l[1..] == done + l
  {
  }

  /** It stays where it is exactly on a length over 3000. */
  lemma StuckIff(m: Memory, o: nat)
    requires o < RING
    ensures NextOffset(m, o) == o <==> Word(m, o + 2) > 3000
  {
    var n: nat := o + Word(m, o + 2) + 7;
    assert n / 4 * 4 > n - 4;
  }

  lemma Aligned(q: nat, k: nat)
    ensures (4 * q + k) / 4 * 4 == 4 * q + k / 4 * 4
  {
  }

  /** Else it comes to where the card put the next packet. */
  lemma NextIsNext(m: Memory, o: nat, p: Packet)
    requires o < RING && o % 4 == 0 && Small(p) && Stored(m, o, p)
    ensures NextOffset(m, o) == o + Size(p)
  {
    var n := |p.bytes|;
    assert (o + n + 4) % 0x10000 == o + n + 4 && (o + n + 4 + 3) % 0x10000 == o + n + 7;
    Aligned(o / 4, n + 7);
  }
}

module Rtl8139 {
  import opened ReceiveRingModel

  class Card {
    const rxbuf: array<Byte>
    var bufferPtr: nat
    /** The packets recv_packet has gone over. */
    ghost var taken: seq<Packet>

    constructor ()
      ensures rxbuf.Length == AREA && bufferPtr == 0 && taken == [] && fresh(rxbuf)
    {
      rxbuf := new Byte[AREA](_ => 0);
      bufferPtr, taken := 0, [];
    }

    /** recv_packet. */
    method RecvPacket(readOfs: nat) returns (next: nat)
      requires rxbuf.Length == AREA && readOfs < RING
      modifies this`taken
      ensures next == NextOffset(rxbuf[..], readOfs)
      ensures taken == if Word(rxbuf[..], readOfs + 2) > LONGEST then old(taken)
                       else old(taken) + [PacketAt(rxbuf[..], readOfs)]
    {
      var status, len := ReadHeader(readOfs);
      if len > LONGEST {
        return readOfs;
      }
      taken := taken + [PacketAt(rxbuf[..], readOfs)];
      next := (readOfs + len + 4) % 0x10000;
      next := (next + 3) % 0x10000 / 4 * 4;
    }

    /** The loads of status and length. */
    method ReadHeader(readOfs: nat) returns (status: Word16, len: Word16)
      requires rxbuf.Length == AREA && readOfs < RING
      ensures status == Word(rxbuf[..], readOfs) && len == Word(rxbuf[..], readOfs + 2)
    {
      status := Two(rxbuf[readOfs], rxbuf[readOfs + 1]);
      len := Two(rxbuf[readOfs + 2], rxbuf[readOfs + 3]);
    }

    /** The receive part of rtl_irq_handler; endOfs is the card's current buffer address. The packets
        in `l` are what the card wrote since bufferPtr. */
    method Drain(endOfs: nat, ghost l: seq<Packet>)
      requires rxbuf.Length == AREA && bufferPtr < RING && Total(l) < RING && Pending(rxbuf[..], bufferPtr, l)
      requires endOfs == Physical(bufferPtr + Total(l))
      modifies this
      ensures taken == old(taken) + l && bufferPtr == endOfs
    {
      ghost var rest := l;
      var readOfs := bufferPtr;
      if readOfs > endOfs {
        readOfs, rest := CatchUp(readOfs, endOfs, rest);
      }
      while readOfs < endOfs
        invariant Pending(rxbuf[..], readOfs, rest) && readOfs + Total(rest) == endOfs
        invariant taken + rest == old(taken) + l
        decreases |rest|
      {
        readOfs, rest := TakeNext(readOfs, rest);
      }
      bufferPtr := readOfs;
    }

    /** The first loop, which goes round the end of the ring. */
    method CatchUp(from: nat, ghost endOfs: nat, ghost l: seq<Packet>) returns (readOfs: nat, ghost rest: seq<Packet>)
      requires rxbuf.Length == AREA && endOfs < from < RING
      requires Pending(rxbuf[..], from, l) && from + Total(l) == endOfs + RING
      modifies this`taken
      ensures Pending(rxbuf[..], readOfs, rest) && readOfs + Total(rest) == endOfs
      ensures taken + rest == old(taken) + l
    {
      readOfs, rest := from, l;
      while readOfs < RING
        invariant Pending(rxbuf[..], readOfs, rest) && readOfs + Total(rest) == endOfs + RING
        invariant taken + rest == old(taken) + l
        decreases |rest|
      {
        readOfs, rest := TakeNext(readOfs, rest);
      }
      PendingWraps(rxbuf[..], readOfs, rest);
      readOfs := readOfs - RING;
    }

    /** One turn of either loop. */
    method TakeNext(readOfs: nat, ghost l: seq<Packet>) returns (next: nat, ghost rest: seq<Packet>)
      requires rxbuf.Length == AREA && readOfs < RING && l != [] && Pending(rxbuf[..], readOfs, l)
      modifies this`taken
      ensures rest == l[1..] && next == readOfs + Size(l[0]) && Pending(rxbuf[..], next, rest)
      ensures taken + rest == old(taken) + l && next + Total(rest) == readOfs + Total(l)
    {
      assert Small(l[0]) && Stored(rxbuf[..], readOfs, l[0]);
      NextIsNext(rxbuf[..], readOfs, l[0]);
      StoredIsPacket(rxbuf[..], readOfs, l[0]);
      TakeFirst(taken, l);
      next := RecvPacket(readOfs);
      rest := l[1..];
    }
  }

  /** From the card's writes to the driver's reads: the requires of Drain hold after the card has
      written packets of less than one ring in all. */
  lemma CardThenDriver(m: Memory, start: nat, l: seq<Packet>)
    requires start < RING && start % 4 == 0 && Total(l) < RING && forall p :: p in l ==> Small(p)
    ensures Fits(start, l) && Pending(WriteAll(m, start, l), start, l)
  {
    WrittenIsStored(m, start, l, start);
  }
}

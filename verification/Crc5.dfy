/** src/usb.c: the CRC5 shift register, against division of polynomials over GF(2). Bit strings are
    polynomials, highest coefficient first. */
module Crc5 {

  // ----- polynomials

  /** x^5 + x^2 + 1, the generator of section 8.3.5.1 of USB 2.0. */
  const GENERATOR: seq<bool> := [true, false, false, true, false, true]

  predicate At(p: seq<bool>, k: int) {
    0 <= k < |p| && p[k]
  }

  /** Coefficient k of the product p * q: the exclusive or of p[i] and q[k - i] over all i. */
  function ProductAt(p: seq<bool>, q: seq<bool>, k: int): bool
    decreases p
  {
    if p == [] then false else (p[0] && At(q, k)) != ProductAt(p[1..], q, k - 1)
  }

  /** m * x^5 == q * g + r with r of degree below 5. */
  ghost predicate Division(m: seq<bool>, q: seq<bool>, r: seq<bool>) {
    && |q| == |m| && |r| == 5
    && forall k :: 0 <= k < |m| + 5 ==> (At(m, k) == (ProductAt(GENERATOR, q, k) != At(r, k - |m|)))
  }

  lemma ProductG(q: seq<bool>, k: int)
    ensures ProductAt(GENERATOR, q, k) == ((At(q, k) != At(q, k - 3)) != At(q, k - 5))
  {
    var g := GENERATOR;
    assert g[1..] == [false, false, true, false, true];
    assert g[1..][1..] == [false, true, false, true];
    assert g[1..][1..][1..] == [true, false, true];
    assert g[1..][1..][1..][1..] == [false, true];
    assert g[1..][1..][1..][1..][1..] == [true];
    assert g[1..][1..][1..][1..][1..][1..] == [];
  }

  /** There is at most one quotient and remainder. */
  lemma DivisionUnique(m: seq<bool>, q: seq<bool>, r: seq<bool>, q': seq<bool>, r': seq<bool>)
    requires Division(m, q, r) && Division(m, q', r')
    ensures q == q' && r == r'
  {
    QuotientUnique(m, q, r, q', r', |m|);
    forall j | 0 <= j < 5
      ensures r[j] == r'[j]
    {
      var k := |m| + j;
      assert At(m, k) == (ProductAt(GENERATOR, q, k) != At(r, k - |m|));
      assert At(m, k) == (ProductAt(GENERATOR, q', k) != At(r', k - |m|));
    }
  }

  lemma {:induction false} QuotientUnique(m: seq<bool>, q: seq<bool>, r: seq<bool>, q': seq<bool>, r': seq<bool>,
                                          n: nat)
    requires Division(m, q, r) && Division(m, q', r') && n <= |m|
    ensures q[..n] == q'[..n]
  {
    if n > 0 {
      var k := n - 1;
      QuotientUnique(m, q, r, q', r', k);
      ProductG(q, k);
      ProductG(q', k);
      assert At(m, k) == (ProductAt(GENERATOR, q, k) != At(r, k - |m|));
      assert At(m, k) == (ProductAt(GENERATOR, q', k) != At(r', k - |m|));
      assert At(q, k - 3) == At(q[..k], k - 3) == At(q', k - 3);
      assert At(q, k - 5) == At(q[..k], k - 5) == At(q', k - 5);
      assert q[..n] == q[..k] + [q[k]] && q'[..n] == q'[..k] + [q'[k]];
    }
  }

  // ----- the register

  /** CRC[0] to CRC[4]. */
  datatype Register = Register(c0: bool, c1: bool, c2: bool, c3: bool, c4: bool)

  const ZERO := Register(false, false, false, false, false)

  function Step(c: Register, bit: bool): Register {
    var invert := bit != c.c4;
    Register(invert, c.c0, c.c1 != invert, c.c2, c.c3)
  }

  /** The register after shifting all the bits in. */
  function Crc(c: Register, bits: seq<bool>): Register
    decreases bits
  {
    if bits == [] then c else Step(Crc(c, bits[..|bits| - 1]), bits[|bits| - 1])
  }

  /** The register's bits as the source prints them, CRC[4] first. */
  function Bits(c: Register): seq<bool> {
    [c.c4, c.c3, c.c2, c.c1, c.c0]
  }

  /** The values of DoInvert, one a bit: the quotient. */
  function Quotient(m: seq<bool>): (q: seq<bool>)
    ensures |q| == |m|
    decreases m
  {
    if m == [] then []
    else
      var n := |m| - 1;
      Quotient(m[..n]) + [m[n] != Crc(ZERO, m[..n]).c4]
  }

  /** The register holds m(x) * x^5 mod x^5 + x^2 + 1. */
  lemma {:induction false} CrcIsRemainder(m: seq<bool>)
    ensures Division(m, Quotient(m), Bits(Crc(ZERO, m)))
    decreases m
  {
    if m == [] {
      forall k | 0 <= k < 5
        ensures At(m, k) == (ProductAt(GENERATOR, [], k) != At(Bits(ZERO), k))
      {
        ProductG([], k);
      }
    } else {
      var n := |m| - 1;
      CrcIsRemainder(m[..n]);
      DivisionStep(m[..n], Quotient(m[..n]), Crc(ZERO, m[..n]), m[n]);
      assert m == m[..n] + [m[n]];
    }
  }

  lemma DivisionStep(m: seq<bool>, q: seq<bool>, c: Register, bit: bool)
    requires Division(m, q, Bits(c))
    ensures Division(m + [bit], q + [bit != c.c4], Bits(Step(c, bit)))
  {
    forall k | 0 <= k < |m| + 6
      ensures At(m + [bit], k) ==
        (ProductAt(GENERATOR, q + [bit != c.c4], k) != At(Bits(Step(c, bit)), k - |m + [bit]|))
    {
      DivisionStepAt(m, q, c, bit, k);
    }
  }

  lemma DivisionStepAt(m: seq<bool>, q: seq<bool>, c: Register, bit: bool, k: nat)
    requires |q| == |m| && k < |m| + 6
    requires k < |m| + 5 ==> At(m, k) == (ProductAt(GENERATOR, q, k) != At(Bits(c), k - |m|))
    ensures At(m + [bit], k) == (ProductAt(GENERATOR, q + [bit != c.c4], k) != At(Bits(Step(c, bit)), k - |m + [bit]|))
  {
    ProductAppend(q, bit != c.c4, k);
    AtAppend(m, bit, k);
    StepAt(c, bit, k - |m|);
    if k == |m| + 5 {
      ProductG(q, k);
    }
  }

  /** One more coefficient of q adds the generator at its place. */
  lemma ProductAppend(q: seq<bool>, bit: bool, k: int)
    ensures ProductAt(GENERATOR, q + [bit], k) == (ProductAt(GENERATOR, q, k) != (bit && At(GENERATOR, k - |q|)))
  {
    ProductG(q, k);
    ProductG(q + [bit], k);
    AtAppend(q, bit, k);
    AtAppend(q, bit, k - 3);
    AtAppend(q, bit, k - 5);
  }

  /** A step moves the register up by one place and takes the generator off, for a DoInvert of 1. */
  lemma StepAt(c: Register, bit: bool, j: int)
    ensures At(Bits(Step(c, bit)), j - 1) ==
      if j == 0 then false
      else (j < 5 && At(Bits(c), j)) != ((bit != c.c4) && At(GENERATOR, j))
  {
  }

  lemma AtAppend(p: seq<bool>, bit: bool, k: int)
    ensures At(p + [bit], k) == if k == |p| then bit else At(p, k)
  {
  }

  /** Any division with a remainder of degree below 5 gives the register's bits. */
  lemma CrcIffRemainder(m: seq<bool>, r: seq<bool>)
    ensures (exists q :: Division(m, q, r)) <==> r == Bits(Crc(ZERO, m))
  {
    CrcIsRemainder(m);
    if q :| Division(m, q, r) {
      DivisionUnique(m, q, r, Quotient(m), Bits(Crc(ZERO, m)));
    }
  }

  // ----- the loop of the source

  function IsOne(s: string): (bits: seq<bool>)
    ensures |bits| == |s|
  {
    seq(|s|, i requires 0 <= i < |s| => '1' == s[i])
  }

  function Text(bits: seq<bool>): (s: string)
    ensures |s| == |bits|
  {
    seq(|bits|, i requires 0 <= i < |bits| => if bits[i] then '1' else '0')
  }

  class Generator {
    /** The static result buffer, shared by all calls. */
    const res: array<char>

    constructor ()
      ensures res.Length == 6
    {
      res := new char[6](_ => '\0');
    }

    method MakeCRC5(bitString: string)
      requires res.Length == 6
      modifies res
      ensures res[..] == Result(bitString) + ['\0']
    {
      var crc := new bool[5](_ => false);
      ghost var bits := IsOne(bitString);
      var i := 0;
      while i < |bitString|
        invariant 0 <= i <= |bitString|
        invariant Holds(crc[..], Crc(ZERO, bits[..i]))
      {
        CrcStep(ZERO, bits, i);
        ShiftIn(crc, '1' == bitString[i], Crc(ZERO, bits[..i]));
        i := i + 1;
      }
      assert bits[..i] == bits;
      Print(crc);
    }

    /** The loop that shifts, for one bit. */
    method ShiftIn(crc: array<bool>, bit: bool, ghost c: Register)
      requires Holds(crc[..], c)
      modifies crc
      ensures Holds(crc[..], Step(c, bit))
    {
      assert crc.Length == |crc[..]| == 5;
      var doInvert := bit != crc[4];
      crc[4] := crc[3];
      crc[3] := crc[2];
      crc[2] := crc[1] != doInvert;
      crc[1] := crc[0];
      crc[0] := doInvert;
    }

    /** The loop that converts to text. */
    method Print(crc: array<bool>)
      requires res.Length == 6 && crc.Length == 5
      modifies res
      ensures res[..] == Text([crc[4], crc[3], crc[2], crc[1], crc[0]]) + ['\0']
    {
      var i := 0;
      while i < 5
        invariant 0 <= i <= 5
        invariant forall j :: 0 <= j < i ==> res[4 - j] == if crc[j] then '1' else '0'
      {
        res[4 - i] := if crc[i] then '1' else '0';
        i := i + 1;
      }
      res[5] := '\0';
      assert forall j :: 0 <= j < 5 ==> res[4 - j] == if crc[j] then '1' else '0';
      assert res[..] == [res[4 - 4], res[4 - 3], res[4 - 2], res[4 - 1], res[4 - 0], res[5]];
    }
  }

  lemma CrcStep(c: Register, bits: seq<bool>, i: nat)
    requires i < |bits|
    ensures Crc(c, bits[..i + 1]) == Step(Crc(c, bits[..i]), bits[i])
  {
    assert bits[..i + 1][..i] == bits[..i];
  }

  predicate Holds(crc: seq<bool>, c: Register) {
    crc == [c.c0, c.c1, c.c2, c.c3, c.c4]
  }

  // ----- linearity and error detection

  function Xor(a: seq<bool>, b: seq<bool>): (x: seq<bool>)
    requires |a| == |b|
    ensures |x| == |a|
  {
    seq(|a|, i requires 0 <= i < |a| => a[i] != b[i])
  }

  function Plus(c: Register, d: Register): Register {
    Register(c.c0 != d.c0, c.c1 != d.c1, c.c2 != d.c2, c.c3 != d.c3, c.c4 != d.c4)
  }

  lemma {:induction false} CrcLinear(c: Register, d: Register, a: seq<bool>, b: seq<bool>)
    requires |a| == |b|
    ensures Crc(Plus(c, d), Xor(a, b)) == Plus(Crc(c, a), Crc(d, b))
    decreases a
  {
    if a != [] {
      var n := |a| - 1;
      CrcLinear(c, d, a[..n], b[..n]);
      assert Xor(a, b)[..n] == Xor(a[..n], b[..n]);
      StepLinear(Crc(c, a[..n]), Crc(d, b[..n]), a[n], b[n]);
    }
  }

  lemma StepLinear(c: Register, d: Register, x: bool, y: bool)
    ensures Step(Plus(c, d), x != y) == Plus(Step(c, x), Step(d, y))
  {
  }

  lemma {:induction false} CrcAppend(c: Register, a: seq<bool>, b: seq<bool>)
    ensures Crc(c, a + b) == Crc(Crc(c, a), b)
    decreases b
  {
    if b == [] {
      assert a + b == a;
    } else {
      var n := |b| - 1;
      CrcAppend(c, a, b[..n]);
      assert (a + b)[..|a + b| - 1] == a + b[..n];
    }
  }

  function Zeros(n: nat): (z: seq<bool>)
    ensures |z| == n
  {
    seq(n, _ => false)
  }

  lemma {:induction false} CrcZeros(c: Register, n: nat)
    ensures Crc(c, Zeros(n)) == ZERO <==> c == ZERO
  {
    if n > 0 {
      CrcZeros(c, n - 1);
      assert Zeros(n)[..n - 1] == Zeros(n - 1);
    }
  }

  lemma CrcFive(c: Register, w: seq<bool>)
    requires |w| == 5
    ensures Crc(c, w) == Step(Step(Step(Step(Step(c, w[0]), w[1]), w[2]), w[3]), w[4])
  {
    CrcStep(c, w, 0);
    CrcStep(c, w, 1);
    CrcStep(c, w, 2);
    CrcStep(c, w, 3);
    assert w[..5] == w;
  }

  /** Of all five bits after a message, its CRC and nothing else makes the CRC of the whole zero. */
  lemma AppendedIffZero(m: seq<bool>, r: seq<bool>)
    requires |r| == 5
    ensures Crc(ZERO, m + r) == ZERO <==> r == Bits(Crc(ZERO, m))
  {
    CrcAppend(ZERO, m, r);
    CrcFive(Crc(ZERO, m), r);
  }

  /** The CRCs of two strings differ exactly when the CRC of their difference is not zero. */
  lemma DiffersIff(a: seq<bool>, b: seq<bool>)
    requires |a| == |b|
    ensures Crc(ZERO, a) != Crc(ZERO, b) <==> Crc(ZERO, Xor(a, b)) != ZERO
  {
    CrcLinear(ZERO, ZERO, a, b);
    assert Plus(ZERO, ZERO) == ZERO;
  }

  /** Up to five bits, not all zero, leave the register not zero. */
  lemma ShortNotZero(w: seq<bool>)
    requires |w| <= 5 && true in w
    ensures Crc(ZERO, w) != ZERO
  {
    var z := Zeros(5 - |w|);
    var v := z + w;
    CrcZeros(ZERO, |z|);
    CrcAppend(ZERO, z, w);
    CrcFive(ZERO, v);
    assert v[0] || v[1] || v[2] || v[3] || v[4] by {
      var i :| 0 <= i < |w| && w[i];
      assert v[i + |z|];
    }
  }

  /** Zeros before a difference do not matter, and zeros after it do not hide it. */
  lemma Surrounded(before: nat, w: seq<bool>, after: nat)
    ensures Crc(ZERO, Zeros(before) + w + Zeros(after)) == ZERO <==> Crc(ZERO, w) == ZERO
  {
    CrcAppend(ZERO, Zeros(before) + w, Zeros(after));
    CrcAppend(ZERO, Zeros(before), w);
    CrcZeros(ZERO, before);
    CrcZeros(Crc(ZERO, w), after);
  }

  /** Different strings that agree outside a window of at most five bits have different CRCs. */
  lemma BurstDetected(a: seq<bool>, b: seq<bool>, start: nat, end: nat)
    requires |a| == |b| && start <= end <= |a| && end - start <= 5
    requires a[..start] == b[..start] && a[end..] == b[end..] && a != b
    ensures Crc(ZERO, a) != Crc(ZERO, b)
  {
    var w := Xor(a, b)[start..end];
    SplitDifference(a, b, start, end);
    DifferenceInside(a, b, start, end);
    Surrounded(start, w, |a| - end);
    ShortNotZero(w);
    DiffersIff(a, b);
  }

  lemma Rejoined<T>(a: seq<T>, b: seq<T>, start: nat, end: nat)
    requires |a| == |b| && start <= end <= |a|
    requires a[..start] == b[..start] && a[start..end] == b[start..end] && a[end..] == b[end..]
    ensures a == b
  {
    assert a == a[..start] + a[start..end] + a[end..];
    assert b == b[..start] + b[start..end] + b[end..];
  }

  lemma DifferenceInside(a: seq<bool>, b: seq<bool>, start: nat, end: nat)
    requires |a| == |b| && start <= end <= |a|
    requires a[..start] == b[..start] && a[end..] == b[end..] && a != b
    ensures true in Xor(a, b)[start..end]
  {
    if a[start..end] == b[start..end] {
      Rejoined(a, b, start, end);
      assert false;
    }
    var i :| 0 <= i < end - start && a[start..end][i] != b[start..end][i];
    assert Xor(a, b)[start..end][i];
  }

  lemma SplitDifference(a: seq<bool>, b: seq<bool>, start: nat, end: nat)
    requires |a| == |b| && start <= end <= |a|
    requires a[..start] == b[..start] && a[end..] == b[end..]
    ensures Xor(a, b) == Zeros(start) + Xor(a, b)[start..end] + Zeros(|a| - end)
  {
    var e := Xor(a, b);
    forall i | 0 <= i < |a| && !(start <= i < end)
      ensures !e[i]
    {
      if i < start {
        assert a[i] == a[..start][i] && b[i] == b[..start][i];
      } else {
        assert a[i] == a[end..][i - end] && b[i] == b[end..][i - end];
      }
    }
  }

  /** Any single wrong bit changes the CRC. */
  lemma SingleBitDetected(a: seq<bool>, i: nat)
    requires i < |a|
    ensures Crc(ZERO, a) != Crc(ZERO, a[i := !a[i]])
  {
    BurstDetected(a, a[i := !a[i]], i, i + 1);
  }

  // ----- two wrong bits

  function ZeroSteps(c: Register, n: nat): (r: Register)
  {
    if n == 0 then c else Step(ZeroSteps(c, n - 1), false)
  }

  lemma {:induction false} ZerosAreSteps(c: Register, n: nat)
    ensures Crc(c, Zeros(n)) == ZeroSteps(c, n)
  {
    if n > 0 {
      ZerosAreSteps(c, n - 1);
      assert Zeros(n)[..n - 1] == Zeros(n - 1);
    }
  }

  const ONE := Step(ZERO, true)

  /** The register that one more 1 bit clears. */
  const TOP := Register(false, false, false, false, true)

  /** The first 31 registers after a single 1 bit come back to the start and pass TOP last. */
  lemma Cycle()
    ensures ZeroSteps(ONE, 31) == ONE
    ensures forall n :: 0 <= n < 31 ==> (ZeroSteps(ONE, n) == TOP <==> n == 30)
  {
    assert ZeroSteps(ONE, 5) == Register(true, false, false, false, true);
    assert ZeroSteps(ONE, 10) == Register(true, true, true, true, true);
    assert ZeroSteps(ONE, 15) == Register(false, false, true, true, false);
    assert ZeroSteps(ONE, 20) == Register(true, false, false, true, true);
    assert ZeroSteps(ONE, 25) == Register(false, true, false, false, true);
    assert ZeroSteps(ONE, 30) == TOP;
  }

  lemma {:induction false} Period(c: Register, p: nat, r: nat, k: nat)
    requires ZeroSteps(c, p) == c
    ensures ZeroSteps(c, r + k * p) == ZeroSteps(c, r)
  {
    if k > 0 {
      Period(c, p, r, k - 1);
      Compose(c, p, r + (k - 1) * p);
      assert r + k * p == r + (k - 1) * p + p;
    }
  }

  lemma {:induction false} Compose(c: Register, k: nat, n: nat)
    ensures ZeroSteps(c, n + k) == ZeroSteps(ZeroSteps(c, k), n)
  {
    if n > 0 {
      Compose(c, k, n - 1);
    }
  }

  /** Two wrong bits escape exactly when they are a multiple of 31 apart. */
  lemma TwoBitsDetectedIff(a: seq<bool>, i: nat, j: nat)
    requires i < j < |a|
    ensures Crc(ZERO, a) != Crc(ZERO, a[i := !a[i]][j := !a[j]]) <==> (j - i) % 31 != 0
  {
    var d := j - i - 1;
    TwoFlips(a, i, j);
    Surrounded(i, [true] + Zeros(d) + [true], |a| - j - 1);
    DiffersIff(a, a[i := !a[i]][j := !a[j]]);
    TwoOnes(d);
    assert d % 31 == 30 <==> (d + 1) % 31 == 0;
  }

  lemma TwoFlips(a: seq<bool>, i: nat, j: nat)
    requires i < j < |a|
    ensures Xor(a, a[i := !a[i]][j := !a[j]]) == Zeros(i) + ([true] + Zeros(j - i - 1) + [true]) + Zeros(|a| - j - 1)
  {
  }

  lemma TwoOnes(d: nat)
    ensures Crc(ZERO, [true] + Zeros(d) + [true]) == ZERO <==> d % 31 == 30
  {
    CrcAppend(ZERO, [true] + Zeros(d), [true]);
    CrcAppend(ZERO, [true], Zeros(d));
    CrcStep(ZERO, [true], 0);
    CrcStep(Crc(ONE, Zeros(d)), [true], 0);
    assert [true][..1] == [true];
    ZerosAreSteps(ONE, d);
    Cycle();
    Period(ONE, 31, d % 31, d / 31);
  }

  // ----- the text

  lemma TextIsOne(bits: seq<bool>)
    ensures IsOne(Text(bits)) == bits
  {
  }

  /** What MakeCRC5 leaves for a string, without the NUL. */
  function Result(s: string): string {
    Text(Bits(Crc(ZERO, IsOne(s))))
  }

  /** Of all five characters 0 or 1 after a string, its own result and no other makes the result of the
      whole 00000. */
  lemma ResultOfWhole(s: string, t: string)
    requires |t| == 5 && forall i :: 0 <= i < 5 ==> t[i] == '0' || t[i] == '1'
    ensures Result(s + t) == "00000" <==> t == Result(s)
  {
    assert IsOne(s + t) == IsOne(s) + IsOne(t);
    AppendedIffZero(IsOne(s), IsOne(t));
    TextIsOne(Bits(Crc(ZERO, IsOne(s))));
    TextIsOne(Bits(Crc(ZERO, IsOne(s + t))));
    assert Text(IsOne(t)) == t;
    assert Text(Bits(ZERO)) == "00000";
    assert IsOne("00000") == Bits(ZERO);
  }
}

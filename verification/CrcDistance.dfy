/**
 What the CRC detects: any error of odd weight, any burst of at most 16 bits, and
 any two wrong bits in a buffer of at most 266 bytes. Two buffers with the same
 CRC therefore differ in at least four bits, and that bound is attained.
 */
module CrcDistance {
  import opened BitStrings
  import opened Crc
  import opened CrcAlgebra
  import opened CrcPolynomial

  // Odd weight: x + 1 divides the generator.

  /** Whether an odd number of bits is set. */
  predicate Odd(s: seq<bool>) {
    Weight(s) % 2 == 1
  }

  lemma {:induction false} OddAppend(s: seq<bool>, t: seq<bool>)
    ensures Odd(s + t) == (Odd(s) != Odd(t))
    decreases |t|
  {
    if t == [] {
      assert s + t == s;
    } else {
      var n := |t| - 1;
      assert (s + t)[..|s + t| - 1] == s + t[..n];
      OddAppend(s, t[..n]);
    }
  }

  lemma {:induction false} OddXor(s: seq<bool>, t: seq<bool>)
    requires |s| == |t|
    ensures Odd(Xor(s, t)) == (Odd(s) != Odd(t))
    decreases |s|
  {
    if s == [] {
    } else {
      var n := |s| - 1;
      assert Xor(s, t)[..n] == Xor(s[..n], t[..n]);
      OddXor(s[..n], t[..n]);
    }
  }

  /** The taps that the top bit feeds back into. */
  const TAPS: Reg := seq(16, i => Tap(i))

  lemma OddOne(b: bool)
    ensures Odd([b]) == b
  {
    assert [b][..0] == [];
    assert Weight([]) == 0;
    assert Weight([b]) == if b then 1 else 0;
  }

  lemma OddTaps()
    ensures Odd(TAPS)
  {
    var z2, z3, z4, z6 := Zeros(2), Zeros(3), Zeros(4), Zeros(6);
    WeightZero(z3);
    WeightZero(z4);
    WeightZero(z6);
    OddOne(true);
    OddAppend(z3, [true]);
    OddAppend(z3 + [true], z6);
    OddAppend(z3 + [true] + z6, [true]);
    OddAppend(z3 + [true] + z6 + [true], z4);
    OddAppend(z3 + [true] + z6 + [true] + z4, [true]);
    assert TAPS == z3 + [true] + z6 + [true] + z4 + [true];
  }

  /** A register step keeps the parity of the register. */
  lemma StepParity(s: Reg)
    ensures Odd(Step(s)) == Odd(s)
  {
    var moved := s[1..] + [false];
    assert s == [s[0]] + s[1..];
    OddAppend([s[0]], s[1..]);
    OddAppend(s[1..], [false]);
    OddOne(s[0]);
    OddOne(false);
    if s[0] {
      assert Step(s) == Xor(moved, TAPS);
      OddXor(moved, TAPS);
      OddTaps();
    } else {
      assert Step(s) == moved;
    }
  }

  lemma FeedParity(s: Reg, b: bool)
    ensures Odd(Feed(s, b)) == (Odd(s) != b)
  {
    var t := s[0 := s[0] != b];
    assert s == [s[0]] + s[1..] && t == [t[0]] + s[1..];
    OddAppend([s[0]], s[1..]);
    OddAppend([t[0]], s[1..]);
    OddOne(s[0]);
    OddOne(t[0]);
    StepParity(t);
  }

  lemma {:induction false} FeedAllParity(s: Reg, bits: seq<bool>)
    ensures Odd(FeedAll(s, bits)) == (Odd(s) != Odd(bits))
    decreases |bits|
  {
    hide Feed;
    if bits == [] {
      WeightZero([]);
    } else {
      var n := |bits| - 1;
      FeedAllParity(s, bits[..n]);
      FeedParity(FeedAll(s, bits[..n]), bits[n]);
    }
  }

  /** Buffers of any length with the same CRC differ in an even number of bits. */
  lemma OddErrorsDetected(a: seq<bv8>, b: seq<bv8>)
    requires |a| == |b| && Crc16(a) == Crc16(b)
    ensures Distance(a, b) % 2 == 0
  {
    var e := Xor(BitString(a), BitString(b));
    SameCrcIff(a, b);
    FeedAllParity(NULL_REG, e);
    WeightZero(NULL_REG);
  }

  // Bursts: the first and last terms of a multiple are 16 powers apart.

  lemma TimesGZero(n: nat)
    ensures TimesG(Zeros(n)) == Zeros(n + 16)
  {
  }

  /** An error pattern that leaves an empty register empty spans more than 16 bits. */
  lemma UndetectedSpan(e: seq<bool>) returns (f: nat, l: nat)
    requires FeedAll(NULL_REG, e) == NULL_REG && e != Zeros(|e|)
    ensures f + 16 <= l < |e| && e[f] && e[l]
  {
    var p := Dividend(NULL_REG, e);
    FeedAllIsRemainder(NULL_REG, e);
    var q: seq<bool> :| |q| + 16 == |p| && TimesG(q) == Xor(p, Zeros(|p| - 16) + NULL_REG);
    forall i | 0 <= i < |p| ensures TimesG(q)[i] == Coef(e, i) {
      assert !(Zeros(|p| - 16) + NULL_REG)[i];
    }
    var j := FirstSet(e);
    assert TimesG(q)[j];
    TimesGZero(|e|);
    f, l := MultipleSpan(q);
  }

  /** All differences lie within `span` consecutive bits, from `start` on. */
  ghost predicate Within(a: seq<bv8>, b: seq<bv8>, start: int, span: nat)
    requires |a| == |b|
  {
    forall k | 0 <= k < 8 * |a| :: BitString(a)[k] != BitString(b)[k] ==> start <= k < start + span
  }

  /** Buffers that differ only within 16 consecutive bits have different CRCs. */
  lemma BurstsDetected(a: seq<bv8>, b: seq<bv8>, start: int)
    requires |a| == |b| && a != b && Within(a, b, start, 16)
    ensures Crc16(a) != Crc16(b)
  {
    var e := Xor(BitString(a), BitString(b));
    SameCrcIff(a, b);
    DistanceZero(a, b);
    WeightZero(e);
    if FeedAll(NULL_REG, e) == NULL_REG {
      var f, l := UndetectedSpan(e);
    }
  }

  // Two wrong bits: the powers of x do not repeat within a buffer.

  // Doubling the register step, so that the powers can be computed in large jumps.

  function Shift2(r: bv16): bv16 {
    ShiftBit(ShiftBit(r))
  }

  function Shift4(r: bv16): bv16 {
    Shift2(Shift2(r))
  }

  function Shift8(r: bv16): bv16 {
    Shift4(Shift4(r))
  }

  function Shift16(r: bv16): bv16 {
    Shift8(Shift8(r))
  }

  lemma Shift16Shifts(r: bv16)
    ensures Shift16(r) == ShiftN(r, 16)
  {
    hide ShiftBit;
    Shift8Shifts(r);
    Shift8Shifts(Shift8(r));
    ShiftAdd(r, 8, 8);
  }

  lemma Shift8Shifts(r: bv16)
    ensures Shift8(r) == ShiftN(r, 8)
  {
    hide ShiftBit;
    Shift4Shifts(r);
    Shift4Shifts(Shift4(r));
    ShiftAdd(r, 4, 4);
  }

  lemma Shift4Shifts(r: bv16)
    ensures Shift4(r) == ShiftN(r, 4)
  {
    hide ShiftBit;
    assert ShiftN(r, 1) == ShiftBit(r);
    assert ShiftN(r, 2) == ShiftBit(ShiftN(r, 1));
    assert ShiftN(r, 3) == ShiftBit(ShiftN(r, 2));
  }

  /** More than one bit of the register is set. */
  predicate Mixed(r: bv16) {
    r & (r - 1) != 0
  }

  /** Jumps 64 powers at a time, giving 0 if a single bit turns up at a multiple of 16. */
  function Scan(r: bv16, n: nat): bv16
    decreases n
  {
    if n == 0 then r else
    var r1 := Shift16(r);
    var r2 := Shift16(r1);
    var r3 := Shift16(r2);
    if Mixed(r) && Mixed(r1) && Mixed(r2) && Mixed(r3) then Scan(Shift16(r3), n - 1) else 0
  }

  // The orbit of the start value 0x1b98 == ShiftN(0x8000, 16), in six stretches.

  lemma OrbitStart()
    ensures Shift16(0x8000) == 0x1b98
  {
  }

  lemma {:induction false} ScanJoins(r: bv16, m: nat, n: nat)
    requires Scan(r, m) != 0
    ensures Scan(r, m + n) == Scan(Scan(r, m), n)
    decreases m
  {
    hide Mixed, Shift16;
    if m == 0 {
    } else {
      ScanJoins(Shift16(Shift16(Shift16(Shift16(r)))), m - 1, n);
    }
  }

  lemma Orbit0a()
    ensures Scan(0x1b98, 3) == 0x0ab3
  {
  }

  lemma Orbit0b()
    ensures Scan(0x0ab3, 3) == 0xaa29
  {
  }

  lemma Orbit0()
    ensures Scan(0x1b98, 6) == 0xaa29
  {
    hide Scan;
    Orbit0a();
    Orbit0b();
    ScanJoins(0x1b98, 3, 3);
  }

  lemma Orbit1a()
    ensures Scan(0xaa29, 3) == 0x799f
  {
  }

  lemma Orbit1b()
    ensures Scan(0x799f, 3) == 0xde6e
  {
  }

  lemma Orbit1()
    ensures Scan(0xaa29, 6) == 0xde6e
  {
    hide Scan;
    Orbit1a();
    Orbit1b();
    ScanJoins(0xaa29, 3, 3);
  }

  lemma Orbit2a()
    ensures Scan(0xde6e, 3) == 0x9ec3
  {
  }

  lemma Orbit2b()
    ensures Scan(0x9ec3, 3) == 0x85ee
  {
  }

  lemma Orbit2()
    ensures Scan(0xde6e, 6) == 0x85ee
  {
    hide Scan;
    Orbit2a();
    Orbit2b();
    ScanJoins(0xde6e, 3, 3);
  }

  lemma Orbit3a()
    ensures Scan(0x85ee, 3) == 0xad50
  {
  }

  lemma Orbit3b()
    ensures Scan(0xad50, 3) == 0x10e4
  {
  }

  lemma Orbit3()
    ensures Scan(0x85ee, 6) == 0x10e4
  {
    hide Scan;
    Orbit3a();
    Orbit3b();
    ScanJoins(0x85ee, 3, 3);
  }

  lemma Orbit4a()
    ensures Scan(0x10e4, 3) == 0xf6fb
  {
  }

  lemma Orbit4b()
    ensures Scan(0xf6fb, 3) == 0xf4bd
  {
  }

  lemma Orbit4()
    ensures Scan(0x10e4, 6) == 0xf4bd
  {
    hide Scan;
    Orbit4a();
    Orbit4b();
    ScanJoins(0x10e4, 3, 3);
  }

  lemma Orbit5()
    ensures Scan(0xf4bd, 3) == 0x1578
  {
  }

  lemma FourJumps(r: bv16)
    ensures ShiftN(r, 0) == r && ShiftN(r, 16) == Shift16(r)
    ensures ShiftN(r, 32) == Shift16(Shift16(r))
    ensures ShiftN(r, 48) == Shift16(Shift16(Shift16(r)))
    ensures ShiftN(r, 64) == Shift16(Shift16(Shift16(Shift16(r))))
  {
    hide Shift16, ShiftBit;
    var r1 := Shift16(r);
    var r2 := Shift16(r1);
    Shift16Shifts(r);
    Shift16Shifts(r1);
    Shift16Shifts(r2);
    Shift16Shifts(Shift16(r2));
    ShiftAdd(r, 16, 16);
    ShiftAdd(r, 32, 16);
    ShiftAdd(r, 48, 16);
  }

  lemma {:induction false} ScanMeans(r: bv16, n: nat, k: nat)
    requires Scan(r, n) != 0 && k < 4 * n
    ensures Mixed(ShiftN(r, 16 * k))
    decreases n
  {
    hide Mixed, Shift16, ShiftN;
    FourJumps(r);
    if k < 4 {
    } else {
      var next := ShiftN(r, 64);
      ScanMeans(next, n - 1, k - 4);
      ShiftAdd(r, 64, 16 * (k - 4));
      assert 64 + 16 * (k - 4) == 16 * k;
    }
  }

  lemma {:induction false} ScanEnd(r: bv16, n: nat)
    requires Scan(r, n) != 0
    ensures Scan(r, n) == ShiftN(r, 64 * n)
    decreases n
  {
    hide Mixed, Shift16, ShiftN;
    FourJumps(r);
    if n == 0 {
    } else {
      var next := ShiftN(r, 64);
      ScanEnd(next, n - 1);
      ShiftAdd(r, 64, 64 * (n - 1));
      assert 64 + 64 * (n - 1) == 64 * n;
    }
  }

  lemma OrbitFrom(r: bv16, u: nat, v: nat, k: nat)
    requires Scan(r, v) != 0 && r == ShiftN(0x8000, 16 * u) && u <= k < u + 4 * v
    ensures Mixed(ShiftN(0x8000, 16 * k))
  {
    hide Mixed, Scan, ShiftN;
    ScanMeans(r, v, k - u);
    ShiftAdd(0x8000, 16 * u, 16 * (k - u));
    assert 16 * u + 16 * (k - u) == 16 * k;
  }

  lemma OrbitNext(r: bv16, u: nat, v: nat)
    requires Scan(r, v) != 0 && r == ShiftN(0x8000, 16 * u)
    ensures Scan(r, v) == ShiftN(0x8000, 16 * (u + 4 * v))
  {
    hide Mixed, Scan, ShiftN;
    ScanEnd(r, v);
    ShiftAdd(0x8000, 16 * u, 64 * v);
    assert 16 * u + 64 * v == 16 * (u + 4 * v);
  }

  /** No power whose exponent is a multiple of 16 is a single bit. */
  lemma MixedPowers(k: nat)
    requires 1 <= k <= 132
    ensures Mixed(ShiftN(0x8000, 16 * k))
  {
    hide Mixed, Scan, ShiftN;
    OrbitStart();
    Shift16Shifts(0x8000);
    Orbit0();
    OrbitNext(0x1b98, 1, 6);
    Orbit1();
    OrbitNext(0xaa29, 25, 6);
    Orbit2();
    OrbitNext(0xde6e, 49, 6);
    Orbit3();
    OrbitNext(0x85ee, 73, 6);
    Orbit4();
    OrbitNext(0x10e4, 97, 6);
    Orbit5();
    if k < 25 {
      OrbitFrom(0x1b98, 1, 6, k);
    } else if k < 49 {
      OrbitFrom(0xaa29, 25, 6, k);
    } else if k < 73 {
      OrbitFrom(0xde6e, 49, 6, k);
    } else if k < 97 {
      OrbitFrom(0x85ee, 73, 6, k);
    } else if k < 121 {
      OrbitFrom(0x10e4, 97, 6, k);
    } else {
      OrbitFrom(0xf4bd, 121, 3, k);
    }
  }

  /** The register value from which `v` plain shifts reach 0x8000. */
  function Single(v: nat): bv16
    requires v < 16
  {
    if v == 0 then 0x8000 else Single(v - 1) >> 1
  }

  lemma SingleValues()
    ensures Single(0) == 0x8000 && Single(1) == 0x4000 && Single(2) == 0x2000 && Single(3) == 0x1000
    ensures Single(4) == 0x0800 && Single(5) == 0x0400 && Single(6) == 0x0200 && Single(7) == 0x0100
    ensures Single(8) == 0x0080 && Single(9) == 0x0040 && Single(10) == 0x0020 && Single(11) == 0x0010
    ensures Single(12) == 0x0008 && Single(13) == 0x0004 && Single(14) == 0x0002 && Single(15) == 0x0001
  {
  }

  lemma SingleNotMixed(v: nat)
    requires v < 16
    ensures !Mixed(Single(v))
  {
    SingleValues();
  }

  lemma SingleStep(v: nat)
    requires 0 < v < 16
    ensures ShiftBit(Single(v)) == Single(v - 1)
  {
    SingleValues();
  }

  lemma {:induction false} SingleShifts(v: nat)
    requires v < 16
    ensures ShiftN(Single(v), v) == 0x8000
    decreases v
  {
    hide ShiftBit;
    if v == 0 {
    } else {
      SingleStep(v);
      SingleShifts(v - 1);
      ShiftAdd(Single(v), 1, v - 1);
      assert ShiftN(Single(v), 1) == ShiftBit(ShiftN(Single(v), 0)) == Single(v - 1);
    }
  }

  /** x has order above 2127 modulo the generator: no shorter run of register
      steps brings 0x8000 back. */
  lemma NoReturn(m: nat)
    requires 1 <= m <= 2127
    ensures ShiftN(0x8000, m) != 0x8000
  {
    hide ShiftN, Mixed, Single;
    if ShiftN(0x8000, m) == 0x8000 {
      var k, v := m / 16, m % 16;
      var y := ShiftN(0x8000, 16 * k);
      ShiftAdd(0x8000, 16 * k, v);
      SingleShifts(v);
      ShiftInjective(y, Single(v), v);
      SingleNotMixed(v);
      if k == 0 {
        StartIsSingle(v);
      } else {
        MixedPowers(k);
      }
      assert false;
    }
  }

  lemma StartIsSingle(v: nat)
    requires v < 16 && ShiftN(0x8000, 0) == Single(v)
    ensures v == 0
  {
    SingleValues();
  }

  /** The register with only its top bit set. */
  const UNIT: Reg := seq(16, i => i == 0)

  lemma UnitBits()
    ensures RegBits(0x8000) == UNIT
  {
    hide Top;
    forall i: nat | i < 16 ensures BitOf(0x8000, i) == (i == 0) {
      if i > 0 {
        NoBitSet(i - 1);
        assert (0x8000 as bv16) << 1 == 0;
      }
    }
  }

  lemma StepNull(s: Reg)
    ensures Step(s) == NULL_REG <==> s == NULL_REG
  {
    assert Step(NULL_REG) == NULL_REG;
    if Step(s) == NULL_REG {
      StepInjective(s, NULL_REG);
    }
  }

  lemma FeedCases(s: Reg)
    ensures Feed(s, false) == Step(s)
    ensures s == NULL_REG ==> Feed(s, true) == Step(UNIT)
    ensures Feed(s, true) == NULL_REG ==> s == UNIT
  {
    assert s[0 := s[0] != false] == s;
    var t := s[0 := !s[0]];
    StepNull(t);
    if s == NULL_REG {
      assert t == UNIT;
    }
    if t == NULL_REG {
      forall i | 0 <= i < 16 ensures s[i] == UNIT[i] {
        assert !t[i];
      }
    }
  }

  /** The register after at most two set bits, anywhere among at most 2128. */
  ghost predicate FewBitsState(p: seq<bool>) {
    var s := FeedAll(NULL_REG, p);
    && (Weight(p) == 0 ==> s == NULL_REG)
    && (Weight(p) == 1 ==> exists m: nat :: 1 <= m <= |p| && s == RegBits(ShiftN(0x8000, m)))
    && (Weight(p) == 2 ==> s != NULL_REG)
  }

  lemma PowerNotNull(m: nat)
    ensures RegBits(ShiftN(0x8000, m)) != NULL_REG
    ensures 1 <= m <= 2127 ==> RegBits(ShiftN(0x8000, m)) != UNIT
  {
    hide RegBits, ShiftN;
    UnitBits();
    if RegBits(ShiftN(0x8000, m)) == UNIT {
      RegBitsInjective(ShiftN(0x8000, m), 0x8000);
      if 1 <= m <= 2127 {
        NoReturn(m);
      }
    }
    StepsAreShifts(0x8000, m);
    assert UNIT[0] && !NULL_REG[0];
    StepNNull(UNIT, m);
  }

  lemma {:induction false} StepNNull(s: Reg, n: nat)
    requires s != NULL_REG
    ensures StepN(s, n) != NULL_REG
    decreases n
  {
    if n == 0 {
    } else {
      StepNNull(s, n - 1);
      StepNull(StepN(s, n - 1));
    }
  }

  lemma {:induction false} FewBits(p: seq<bool>)
    requires |p| <= 2128
    ensures FewBitsState(p)
    decreases |p|
  {
    hide RegBits, Feed, Step, ShiftN;
    if p == [] {
    } else {
      var n := |p| - 1;
      var front := p[..n];
      var s := FeedAll(NULL_REG, front);
      FewBits(front);
      FeedCases(s);
      StepNull(s);
      if Weight(front) == 1 {
        var m: nat :| 1 <= m <= n && s == RegBits(ShiftN(0x8000, m));
        PowerNotNull(m);
        PowerStep(m);
      }
      PowerStep(0);
      UnitBits();
    }
  }

  lemma PowerStep(m: nat)
    ensures Step(RegBits(ShiftN(0x8000, m))) == RegBits(ShiftN(0x8000, m + 1))
    ensures ShiftN(0x8000, 0) == 0x8000
  {
    hide RegBits, Step, ShiftBit;
    StepIsShift(ShiftN(0x8000, m));
  }

  /** Two different buffers of at most 266 bytes with the same CRC differ in at
      least four bits. */
  lemma MinimumDistance(a: seq<bv8>, b: seq<bv8>)
    requires |a| == |b| <= 266 && a != b && Crc16(a) == Crc16(b)
    ensures Distance(a, b) >= 4
  {
    hide FeedAll, BitString, Register;
    var e := Xor(BitString(a), BitString(b));
    SameCrcIff(a, b);
    DistanceZero(a, b);
    OddErrorsDetected(a, b);
    FewBits(e);
  }

  /** The distance is the number of bits that differ. */
  lemma DistanceCounts(a: seq<bv8>, b: seq<bv8>)
    requires |a| == |b|
    ensures Distance(a, b) == |set k | 0 <= k < 8 * |a| && BitString(a)[k] != BitString(b)[k]|
  {
    hide BitString, Weight;
    var e := Xor(BitString(a), BitString(b));
    WeightCounts(e);
    assert (set k | 0 <= k < |e| && e[k]) == set k | 0 <= k < 8 * |a| && BitString(a)[k] != BitString(b)[k];
  }

  // The bounds are attained: the generator itself is an undetected error.

  /** The generator as three bytes: four set bits spanning seventeen positions. */
  const GENERATOR: seq<bv8> := [0x88, 0x10, 0x80]

  /** The generator at byte `at` of an otherwise empty message. */
  function ErrorAt(at: nat, length: nat): (e: seq<bv8>)
    requires at + 3 <= length
    ensures |e| == length
  {
    seq(at, _ => 0) + GENERATOR + seq(length - at - 3, _ => 0)
  }

  lemma {:induction false} ZeroMessage(n: nat)
    ensures BitString(seq(n, _ => 0)) == Zeros(8 * n)
    decreases n
  {
    hide BitOf;
    if n == 0 {
    } else {
      var zeros: seq<bv8> := seq(n, _ => 0);
      assert zeros[..n - 1] == seq(n - 1, _ => 0);
      ZeroMessage(n - 1);
      assert Top(0) == 0;
      forall i: nat | i < 8 ensures !ByteBits(0)[i] {
        NoBitSet(i);
      }
    }
  }

  lemma {:induction false} BitStringAppend(a: seq<bv8>, b: seq<bv8>)
    ensures BitString(a + b) == BitString(a) + BitString(b)
    decreases |b|
  {
    if b == [] {
      assert a + b == a;
    } else {
      var n := |b| - 1;
      assert (a + b)[..|a + b| - 1] == a + b[..n];
      BitStringAppend(a, b[..n]);
    }
  }

  lemma {:induction false} FeedZeros(n: nat)
    ensures FeedAll(NULL_REG, Zeros(n)) == NULL_REG
    decreases n
  {
    if n == 0 {
    } else {
      assert Zeros(n)[..n - 1] == Zeros(n - 1);
      FeedZeros(n - 1);
      FeedCases(NULL_REG);
      StepNull(NULL_REG);
    }
  }

  lemma GeneratorBytes()
    ensures FeedByte(0, 0x88) == 0x1080 && FeedByte(0x1080, 0x10) == 0x8000
    ensures FeedByte(0x8000, 0x80) == 0
  {
  }

  lemma GeneratorUndetected()
    ensures FeedAll(NULL_REG, BitString(GENERATOR)) == NULL_REG
  {
    hide FeedByte, ByteBits, RegBits, FeedAll, BitOf;
    GeneratorBytes();
    RegisterFeeds(0, GENERATOR);
    assert GENERATOR[..2] == [0x88, 0x10];
    assert [0x88, 0x10][..1] == [0x88];
    assert [0x88][..0] == [];
    assert Register(0, []) == 0;
    assert Register(0, [0x88]) == FeedByte(0, 0x88);
    assert Register(0, [0x88, 0x10]) == FeedByte(0x1080, 0x10);
    assert Register(0, GENERATOR) == FeedByte(0x8000, 0x80);
    ZeroRegister();
  }

  lemma ZeroRegister()
    ensures RegBits(0) == NULL_REG
  {
    forall i: nat | i < 16 ensures !BitOf(0, i) {
      NoBitSet(i);
    }
  }

  /** Adding the generator to a message, at any byte, goes undetected. It flips
      four bits within 17 consecutive ones, so both detection bounds are sharp. */
  lemma BoundAttained(a: seq<bv8>, at: nat)
    requires at + 3 <= |a|
    ensures Crc16(XorBytes(a, ErrorAt(at, |a|))) == Crc16(a)
  {
    hide FeedAll, BitString, Register, XorBytes;
    var e := ErrorAt(at, |a|);
    var front: seq<bv8> := seq(at, _ => 0);
    var rest: seq<bv8> := seq(|a| - at - 3, _ => 0);
    BitStringAppend(front + GENERATOR, rest);
    BitStringAppend(front, GENERATOR);
    ZeroMessage(at);
    ZeroMessage(|a| - at - 3);
    FeedAppend(NULL_REG, BitString(front) + BitString(GENERATOR), BitString(rest));
    FeedAppend(NULL_REG, BitString(front), BitString(GENERATOR));
    FeedZeros(8 * at);
    FeedZeros(8 * (|a| - at - 3));
    GeneratorUndetected();
    BitStringXor(a, e);
    XorCancel(BitString(a), BitString(e));
    SameCrcIff(XorBytes(a, e), a);
  }

  lemma XorCancel(a: seq<bool>, e: seq<bool>)
    requires |a| == |e|
    ensures Xor(Xor(a, e), a) == e
  {
  }

  lemma {:induction false} WeightAppend(a: seq<bool>, b: seq<bool>)
    ensures Weight(a + b) == Weight(a) + Weight(b)
    decreases |b|
  {
    if b == [] {
      assert a + b == a;
    } else {
      var n := |b| - 1;
      assert (a + b)[..|a + b| - 1] == a + b[..n];
      WeightAppend(a, b[..n]);
    }
  }

  lemma GeneratorPattern()
    ensures ByteBits(0x88) == [true] + Zeros(3) + [true] + Zeros(3)
    ensures ByteBits(0x10) == Zeros(3) + [true] + Zeros(4)
    ensures ByteBits(0x80) == [true] + Zeros(7)
  {
    assert Top(0x88) == 0x8800 && Top(0x10) == 0x1000 && Top(0x80) == 0x8000;
    assert BitOf(0x8800, 0) && !BitOf(0x8800, 1) && !BitOf(0x8800, 2) && !BitOf(0x8800, 3);
    assert BitOf(0x8800, 4) && !BitOf(0x8800, 5) && !BitOf(0x8800, 6) && !BitOf(0x8800, 7);
    assert !BitOf(0x1000, 0) && !BitOf(0x1000, 1) && !BitOf(0x1000, 2) && BitOf(0x1000, 3);
    assert !BitOf(0x1000, 4) && !BitOf(0x1000, 5) && !BitOf(0x1000, 6) && !BitOf(0x1000, 7);
    assert BitOf(0x8000, 0) && !BitOf(0x8000, 1) && !BitOf(0x8000, 2) && !BitOf(0x8000, 3);
    assert !BitOf(0x8000, 4) && !BitOf(0x8000, 5) && !BitOf(0x8000, 6) && !BitOf(0x8000, 7);
  }

  lemma GeneratorBits()
    ensures Weight(ByteBits(0x88)) == 2 && Weight(ByteBits(0x10)) == 1 && Weight(ByteBits(0x80)) == 1
  {
    hide ByteBits;
    GeneratorPattern();
    WeightOne();
    WeightZero(Zeros(3));
    WeightZero(Zeros(4));
    WeightZero(Zeros(7));
    WeightAppend([true] + Zeros(3) + [true], Zeros(3));
    WeightAppend([true] + Zeros(3), [true]);
    WeightAppend([true], Zeros(3));
    WeightAppend(Zeros(3) + [true], Zeros(4));
    WeightAppend(Zeros(3), [true]);
    WeightAppend([true], Zeros(7));
  }

  lemma WeightOne()
    ensures Weight([true]) == 1
  {
    assert [true][..0] == [];
    assert Weight([]) == 0;
  }

  lemma BoundAttainedDistance(a: seq<bv8>, at: nat)
    requires at + 3 <= |a|
    ensures Distance(a, XorBytes(a, ErrorAt(at, |a|))) == 4
  {
    hide BitString, Weight, XorBytes;
    var e := ErrorAt(at, |a|);
    var front: seq<bv8> := seq(at, _ => 0);
    var rest: seq<bv8> := seq(|a| - at - 3, _ => 0);
    BitStringAppend(front + GENERATOR, rest);
    BitStringAppend(front, GENERATOR);
    ZeroMessage(at);
    ZeroMessage(|a| - at - 3);
    WeightZero(Zeros(8 * at));
    WeightZero(Zeros(8 * (|a| - at - 3)));
    WeightAppend(BitString(front) + BitString(GENERATOR), BitString(rest));
    WeightAppend(BitString(front), BitString(GENERATOR));
    GeneratorWeight();
    BitStringXor(a, e);
    XorCancelLeft(BitString(a), BitString(e));
  }

  lemma XorCancelLeft(a: seq<bool>, e: seq<bool>)
    requires |a| == |e|
    ensures Xor(a, Xor(a, e)) == e
  {
  }

  /** It is confined to 17 consecutive bits. */
  lemma BoundAttainedBurst(a: seq<bv8>, at: nat)
    requires at + 3 <= |a|
    ensures Within(a, XorBytes(a, ErrorAt(at, |a|)), 8 * at, 17)
  {
    hide BitString, XorBytes, ByteBits;
    var e := ErrorAt(at, |a|);
    var front: seq<bv8> := seq(at, _ => 0);
    var rest: seq<bv8> := seq(|a| - at - 3, _ => 0);
    BitStringAppend(front + GENERATOR, rest);
    BitStringAppend(front, GENERATOR);
    ZeroMessage(at);
    ZeroMessage(|a| - at - 3);
    GeneratorSpan();
    BitStringXor(a, e);
    forall k | 0 <= k < 8 * |a| && !(8 * at <= k < 8 * at + 17) ensures !BitString(e)[k] {
    }
  }

  lemma GeneratorSpan()
    ensures forall k | 17 <= k < 24 :: !BitString(GENERATOR)[k]
  {
    hide ByteBits;
    GeneratorBitString();
    GeneratorPattern();
  }

  lemma GeneratorBitString()
    ensures BitString(GENERATOR) == (ByteBits(0x88) + ByteBits(0x10)) + ByteBits(0x80)
  {
    hide ByteBits;
    assert GENERATOR[..2] == [0x88, 0x10];
    assert [0x88, 0x10][..1] == [0x88];
    assert [0x88][..0] == [];
  }

  lemma GeneratorWeight()
    ensures Weight(BitString(GENERATOR)) == 4
  {
    hide ByteBits, Weight;
    GeneratorBitString();
    GeneratorBits();
    WeightAppend(ByteBits(0x88) + ByteBits(0x10), ByteBits(0x80));
    WeightAppend(ByteBits(0x88), ByteBits(0x10));
  }
}

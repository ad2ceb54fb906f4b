/**
 Bit strings, most significant bit first: the order in which the CRC register
 consumes a message, and the coefficients of a polynomial over GF(2) from the
 highest power down.
 */
module BitStrings {

  /** A 16-bit register as bits. */
  type Reg = s: seq<bool> | |s| == 16 witness seq(16, _ => false)

  function Zeros(n: nat): seq<bool> {
    seq(n, _ => false)
  }

  function Xor(a: seq<bool>, b: seq<bool>): (c: seq<bool>)
    requires |a| == |b|
    ensures |c| == |a|
  {
    seq(|a|, i requires 0 <= i < |a| => a[i] != b[i])
  }

  /** How many bits are set. */
  function Weight(s: seq<bool>): nat
    decreases |s|
  {
    if s == [] then 0 else Weight(s[..|s| - 1]) + if s[|s| - 1] then 1 else 0
  }

  /** The i-th bit of a register from the top. */
  predicate BitOf(r: bv16, i: nat)
    decreases i
  {
    if i == 0 then r & 0x8000 != 0 else BitOf(r << 1, i - 1)
  }

  function RegBits(r: bv16): Reg {
    seq(16, i requires 0 <= i < 16 => BitOf(r, i))
  }

  /** A byte as the upper half of a register. */
  function Top(b: bv8): bv16 {
    (b as bv16) << 8
  }

  function ByteBits(b: bv8): (s: seq<bool>)
    ensures |s| == 8
  {
    seq(8, i requires 0 <= i < 8 => BitOf(Top(b), i))
  }

  /** The bits of a message. */
  function BitString(data: seq<bv8>): (s: seq<bool>)
    ensures |s| == 8 * |data|
    decreases |data|
  {
    if data == [] then [] else BitString(data[..|data| - 1]) + ByteBits(data[|data| - 1])
  }

  /** Number of bits in which two equally long messages differ. */
  function Distance(a: seq<bv8>, b: seq<bv8>): nat
    requires |a| == |b|
  {
    Weight(Xor(BitString(a), BitString(b)))
  }

  // Single bits.

  predicate IsXor(a: bv16, b: bv16, c: bv16) {
    c == a ^ b
  }

  lemma XorShift(a: bv16, b: bv16, c: bv16)
    requires IsXor(a, b, c)
    ensures IsXor(a << 1, b << 1, c << 1)
  {
  }

  lemma XorTop(a: bv16, b: bv16, c: bv16)
    requires IsXor(a, b, c)
    ensures BitOf(c, 0) == (BitOf(a, 0) != BitOf(b, 0))
  {
  }

  lemma {:induction false} XorBits(a: bv16, b: bv16, c: bv16, i: nat)
    requires IsXor(a, b, c)
    ensures BitOf(c, i) == (BitOf(a, i) != BitOf(b, i))
    decreases i
  {
    hide IsXor;
    if i == 0 {
      XorTop(a, b, c);
    } else {
      XorShift(a, b, c);
      XorBits(a << 1, b << 1, c << 1, i - 1);
    }
  }

  lemma BitXor(a: bv16, b: bv16, i: nat)
    ensures BitOf(a ^ b, i) == (BitOf(a, i) != BitOf(b, i))
  {
    XorBits(a, b, a ^ b, i);
  }

  /** `n` shifts to the left. */
  function Left(r: bv16, n: nat): bv16
    decreases n
  {
    if n == 0 then r else Left(r << 1, n - 1)
  }

  lemma {:induction false} BitLeft(r: bv16, n: nat, i: nat)
    ensures BitOf(r, n + i) == BitOf(Left(r, n), i)
    decreases n
  {
    if n == 0 {
    } else {
      BitLeft(r << 1, n - 1, i);
    }
  }

  lemma {:induction false} LeftAdd(r: bv16, m: nat, n: nat)
    ensures Left(r, m + n) == Left(Left(r, m), n)
    decreases m
  {
    if m == 0 {
    } else {
      LeftAdd(r << 1, m - 1, n);
    }
  }

  lemma FourShifts(r: bv16)
    ensures r << 1 << 1 << 1 << 1 == r << 4
  {
  }

  lemma LeftFour(r: bv16)
    ensures Left(r, 4) == r << 4
  {
    FourShifts(r);
    assert Left(r, 4) == Left(r << 1, 3) == Left(r << 1 << 1, 2) == Left(r << 1 << 1 << 1, 1);
  }

  lemma ShiftedOut(r: bv16, b: bv8)
    ensures r << 4 << 4 << 4 << 4 == 0
    ensures ((b as bv16) << 8) << 4 << 4 == 0
  {
  }

  /** Sixteen shifts empty a register. */
  lemma LeftSixteen(r: bv16)
    ensures Left(r, 16) == 0
  {
    var r1 := r << 4;
    var r2 := r1 << 4;
    var r3 := r2 << 4;
    LeftAdd(r, 4, 12);
    LeftAdd(r1, 4, 8);
    LeftAdd(r2, 4, 4);
    LeftFour(r);
    LeftFour(r1);
    LeftFour(r2);
    LeftFour(r3);
    ShiftedOut(r, 0);
  }

  /** Eight shifts empty a register that holds a byte in its upper half. */
  lemma LeftEight(b: bv8)
    ensures Left(Top(b), 8) == 0
  {
    LeftAdd(Top(b), 4, 4);
    LeftFour(Top(b));
    LeftFour(Top(b) << 4);
    ShiftedOut(0, b);
  }

  lemma {:induction false} NoBitSet(i: nat)
    ensures !BitOf(0, i)
    decreases i
  {
    if i == 0 {
    } else {
      assert (0 as bv16) << 1 == 0;
      NoBitSet(i - 1);
    }
  }

  lemma BeyondLast(r: bv16)
    ensures !BitOf(r, 16)
  {
    BitLeft(r, 16, 0);
    LeftSixteen(r);
  }

  lemma TopBits(b: bv8, i: nat)
    requires 8 <= i
    ensures !BitOf(Top(b), i)
  {
    BitLeft(Top(b), 8, i - 8);
    LeftEight(b);
    NoBitSet(i - 8);
  }

  lemma ShiftZero(r: bv16)
    requires r & 0x8000 == 0 && r << 1 == 0
    ensures r == 0
  {
  }

  lemma {:induction false} NoBits(r: bv16, n: nat)
    requires forall i: nat | i < n :: !BitOf(r, i)
    requires Left(r, n) == 0
    ensures r == 0
    decreases n
  {
    if n == 0 {
    } else {
      assert !BitOf(r, 0);
      var next := r << 1;
      forall i: nat | i < n - 1 ensures !BitOf(next, i) {
        assert !BitOf(r, i + 1);
      }
      NoBits(next, n - 1);
      ShiftZero(r);
    }
  }

  lemma XorZero(a: bv16, b: bv16)
    requires a ^ b == 0
    ensures a == b
  {
  }

  lemma RegBitsInjective(a: bv16, b: bv16)
    requires RegBits(a) == RegBits(b)
    ensures a == b
  {
    var c := a ^ b;
    forall i: nat | i < 16 ensures !BitOf(c, i) {
      assert RegBits(a)[i] == RegBits(b)[i];
      BitXor(a, b, i);
    }
    LeftSixteen(c);
    NoBits(c, 16);
    XorZero(a, b);
  }

  lemma TopInjective(a: bv8, b: bv8)
    requires Top(a) == Top(b)
    ensures a == b
  {
  }

  lemma ByteBitsInjective(a: bv8, b: bv8)
    requires ByteBits(a) == ByteBits(b)
    ensures a == b
  {
    forall i: nat | i < 16 ensures RegBits(Top(a))[i] == RegBits(Top(b))[i] {
      if i < 8 {
        assert ByteBits(a)[i] == ByteBits(b)[i];
      } else {
        TopBits(a, i);
        TopBits(b, i);
      }
    }
    RegBitsInjective(Top(a), Top(b));
    TopInjective(a, b);
  }

  lemma {:induction false} BitStringInjective(a: seq<bv8>, b: seq<bv8>)
    requires |a| == |b| && BitString(a) == BitString(b)
    ensures a == b
    decreases |a|
  {
    if a == [] {
    } else {
      var n := |a| - 1;
      assert BitString(a)[..8 * n] == BitString(a[..n]);
      assert BitString(b)[..8 * n] == BitString(b[..n]);
      assert BitString(a)[8 * n..] == ByteBits(a[n]);
      assert BitString(b)[8 * n..] == ByteBits(b[n]);
      BitStringInjective(a[..n], b[..n]);
      ByteBitsInjective(a[n], b[n]);
    }
  }

  lemma {:induction false} WeightZero(s: seq<bool>)
    ensures Weight(s) == 0 <==> s == Zeros(|s|)
    decreases |s|
  {
    if s == [] {
    } else {
      var n := |s| - 1;
      WeightZero(s[..n]);
      if s[..n] == Zeros(n) && !s[n] {
        assert s == Zeros(n) + [false] == Zeros(|s|);
      }
      if s == Zeros(|s|) {
        assert s[..n] == Zeros(n);
      }
    }
  }

  /** Different messages are at a positive distance. */
  lemma DistanceZero(a: seq<bv8>, b: seq<bv8>)
    requires |a| == |b|
    ensures Distance(a, b) == 0 <==> a == b
  {
    var x, y := BitString(a), BitString(b);
    WeightZero(Xor(x, y));
    if Xor(x, y) == Zeros(|x|) {
      forall i | 0 <= i < |x| ensures x[i] == y[i] {
        assert !Zeros(|x|)[i] && Xor(x, y)[i] == (x[i] != y[i]);
      }
      BitStringInjective(a, b);
    }
  }

  // The bits of a message, byte by byte, and how many are set.

  /** The j-th bit of a byte, from the most significant down. */
  predicate BitOfByte(b: bv8, j: nat)
    requires j < 8
  {
    if j == 0 then b & 0x80 != 0
    else if j == 1 then b & 0x40 != 0
    else if j == 2 then b & 0x20 != 0
    else if j == 3 then b & 0x10 != 0
    else if j == 4 then b & 0x08 != 0
    else if j == 5 then b & 0x04 != 0
    else if j == 6 then b & 0x02 != 0
    else b & 0x01 != 0
  }

  lemma ByteBitsAre(b: bv8)
    ensures BitOf(Top(b), 0) == (b & 0x80 != 0) && BitOf(Top(b), 1) == (b & 0x40 != 0)
    ensures BitOf(Top(b), 2) == (b & 0x20 != 0) && BitOf(Top(b), 3) == (b & 0x10 != 0)
    ensures BitOf(Top(b), 4) == (b & 0x08 != 0) && BitOf(Top(b), 5) == (b & 0x04 != 0)
    ensures BitOf(Top(b), 6) == (b & 0x02 != 0) && BitOf(Top(b), 7) == (b & 0x01 != 0)
  {
  }

  lemma ByteBitIs(b: bv8, j: nat)
    requires j < 8
    ensures ByteBits(b)[j] == BitOfByte(b, j)
  {
    hide BitOf, Top;
    ByteBitsAre(b);
  }

  /** Bit 8i + j of a message is the j-th bit of its byte i. */
  lemma {:induction false} BitStringAt(data: seq<bv8>, i: nat, j: nat)
    requires i < |data| && j < 8
    ensures BitString(data)[8 * i + j] == BitOfByte(data[i], j)
    decreases |data|
  {
    hide ByteBits, BitOfByte;
    var n := |data| - 1;
    if i == n {
      ByteBitIs(data[n], j);
    } else {
      BitStringAt(data[..n], i, j);
    }
  }

  /** The weight is the number of positions that are set. */
  lemma {:induction false} WeightCounts(s: seq<bool>)
    ensures Weight(s) == |set i | 0 <= i < |s| && s[i]|
    decreases |s|
  {
    if s == [] {
    } else {
      var n := |s| - 1;
      var front := s[..n];
      WeightCounts(front);
      var before := set i | 0 <= i < |front| && front[i];
      var after := set i | 0 <= i < |s| && s[i];
      assert after == if s[n] then before + {n} else before;
    }
  }
}

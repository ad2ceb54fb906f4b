/**
 The CRC register as a linear machine over bit strings: feeding a message bit by
 bit, linearity, injectivity, and the link to the byte loop.
 */
module CrcAlgebra {
  import opened BitStrings
  import opened Crc

  /** Positions, from the top, at which 0x1021 has a bit. */
  predicate Tap(i: int) {
    i == 3 || i == 10 || i == 15
  }

  /** One register step on bits. */
  function Step(s: Reg): Reg {
    seq(16, i requires 0 <= i < 16 => (i < 15 && s[i + 1]) != (s[0] && Tap(i)))
  }

  function StepN(s: Reg, n: nat): Reg
    decreases n
  {
    if n == 0 then s else Step(StepN(s, n - 1))
  }

  /** Feeding one message bit. */
  function Feed(s: Reg, b: bool): Reg {
    Step(s[0 := s[0] != b])
  }

  /** Feeding a bit string. */
  function FeedAll(s: Reg, bits: seq<bool>): Reg
    decreases |bits|
  {
    if bits == [] then s else Feed(FeedAll(s, bits[..|bits| - 1]), bits[|bits| - 1])
  }

  lemma {:induction false} FeedAppend(s: Reg, a: seq<bool>, b: seq<bool>)
    ensures FeedAll(s, a + b) == FeedAll(FeedAll(s, a), b)
    decreases |b|
  {
    if b == [] {
      assert a + b == a;
    } else {
      var n := |b| - 1;
      assert (a + b)[..|a + b| - 1] == a + b[..n];
      FeedAppend(s, a, b[..n]);
    }
  }

  // The bit machine is the register of the C code.

  lemma TapBits(i: nat)
    requires i < 16
    ensures BitOf(0x1021, i) == Tap(i)
  {
    assert BitOf(0x1021, 0) == false;
    assert !BitOf(0x1021, 1) && !BitOf(0x1021, 2) && BitOf(0x1021, 3);
    assert !BitOf(0x1021, 4) && !BitOf(0x1021, 5) && !BitOf(0x1021, 6);
    assert !BitOf(0x1021, 7) && !BitOf(0x1021, 8) && !BitOf(0x1021, 9);
    assert BitOf(0x1021, 10) && !BitOf(0x1021, 11) && !BitOf(0x1021, 12);
    assert !BitOf(0x1021, 13) && !BitOf(0x1021, 14) && BitOf(0x1021, 15);
  }

  lemma ShiftBitCases(r: bv16)
    ensures if BitOf(r, 0) then IsXor(r << 1, 0x1021, ShiftBit(r)) else ShiftBit(r) == r << 1
  {
  }

  lemma BitNext(r: bv16, i: nat)
    ensures BitOf(r << 1, i) == BitOf(r, i + 1)
  {
  }

  lemma StepBit(r: bv16, i: nat)
    requires i < 16
    ensures BitOf(ShiftBit(r), i) == ((i < 15 && BitOf(r, i + 1)) != (BitOf(r, 0) && Tap(i)))
  {
    hide BitOf, ShiftBit, IsXor;
    ShiftBitCases(r);
    BitNext(r, i);
    BeyondLast(r);
    if BitOf(r, 0) {
      XorBits(r << 1, 0x1021, ShiftBit(r), i);
      TapBits(i);
    }
  }

  lemma StepIsShift(r: bv16)
    ensures Step(RegBits(r)) == RegBits(ShiftBit(r))
  {
    hide BitOf, ShiftBit;
    forall i: nat | i < 16 ensures Step(RegBits(r))[i] == RegBits(ShiftBit(r))[i] {
      StepBit(r, i);
    }
  }

  lemma {:induction false} StepsAreShifts(r: bv16, n: nat)
    ensures StepN(RegBits(r), n) == RegBits(ShiftN(r, n))
    decreases n
  {
    hide BitOf, ShiftBit, RegBits, Step;
    if n == 0 {
    } else {
      StepsAreShifts(r, n - 1);
      StepIsShift(ShiftN(r, n - 1));
    }
  }

  /** A register with the bits `w` added at its top. */
  function AddTop(s: Reg, w: seq<bool>): Reg
    requires |w| <= 16
  {
    seq(16, i requires 0 <= i < 16 => if i < |w| then s[i] != w[i] else s[i])
  }

  /** Adding message bits in advance, as the byte loop does, or one at a time. */
  lemma StepAddTop(s: Reg, w: seq<bool>)
    requires 0 < |w| <= 16
    ensures Step(AddTop(s, w)) == AddTop(Feed(s, w[0]), w[1..])
  {
    var t := s[0 := s[0] != w[0]];
    forall i | 0 <= i < 16 ensures Step(AddTop(s, w))[i] == AddTop(Feed(s, w[0]), w[1..])[i] {
      assert i < 15 ==> t[i + 1] == s[i + 1];
    }
  }

  lemma {:induction false} StepsFeed(s: Reg, w: seq<bool>, k: nat)
    requires k <= |w| <= 16
    ensures StepN(AddTop(s, w), k) == AddTop(FeedAll(s, w[..k]), w[k..])
    decreases k
  {
    hide Step, Feed, AddTop;
    if k == 0 {
      assert w[0..] == w;
    } else {
      StepsFeed(s, w, k - 1);
      assert w[..k][..k - 1] == w[..k - 1];
      StepAddTop(FeedAll(s, w[..k - 1]), w[k - 1..]);
      assert w[k - 1..][1..] == w[k..];
    }
  }

  lemma TopAdds(r: bv16, b: bv8, c: bv16)
    requires IsXor(r, Top(b), c)
    ensures RegBits(c) == AddTop(RegBits(r), ByteBits(b))
  {
    hide BitOf, Top, IsXor;
    forall i: nat | i < 16 ensures RegBits(c)[i] == AddTop(RegBits(r), ByteBits(b))[i] {
      XorBits(r, Top(b), c, i);
      if i >= 8 {
        TopBits(b, i);
      }
    }
  }

  /** One pass of the byte loop feeds the eight bits of the byte. */
  lemma FeedByteFeeds(r: bv16, b: bv8)
    ensures RegBits(FeedByte(r, b)) == FeedAll(RegBits(r), ByteBits(b))
  {
    hide RegBits, ByteBits, Step;
    TopAdds(r, b, r ^ Top(b));
    StepsAreShifts(r ^ Top(b), 8);
    StepsFeed(RegBits(r), ByteBits(b), 8);
    assert ByteBits(b)[..8] == ByteBits(b);
    var fed := FeedAll(RegBits(r), ByteBits(b));
    assert AddTop(fed, []) == fed;
  }

  /** The byte loop over a message feeds the message's bits in order. */
  lemma {:induction false} RegisterFeeds(r: bv16, data: seq<bv8>)
    ensures RegBits(Register(r, data)) == FeedAll(RegBits(r), BitString(data))
    decreases |data|
  {
    hide RegBits, ByteBits, FeedByte;
    if data == [] {
    } else {
      var n := |data| - 1;
      RegisterFeeds(r, data[..n]);
      FeedByteFeeds(Register(r, data[..n]), data[n]);
      FeedAppend(RegBits(r), BitString(data[..n]), ByteBits(data[n]));
    }
  }

  // Linearity and injectivity.

  lemma StepLinear(a: Reg, b: Reg)
    ensures Step(Xor(a, b)) == Xor(Step(a), Step(b))
  {
  }

  lemma FeedLinear(a: Reg, b: Reg, x: bool, y: bool)
    ensures Feed(Xor(a, b), x != y) == Xor(Feed(a, x), Feed(b, y))
  {
    var c := Xor(a, b);
    assert c[0 := c[0] != (x != y)] == Xor(a[0 := a[0] != x], b[0 := b[0] != y]);
    StepLinear(a[0 := a[0] != x], b[0 := b[0] != y]);
  }

  /** The register is linear over GF(2) in its start value and the message. */
  lemma {:induction false} FeedAllLinear(s: Reg, t: Reg, a: seq<bool>, b: seq<bool>)
    requires |a| == |b|
    ensures FeedAll(Xor(s, t), Xor(a, b)) == Xor(FeedAll(s, a), FeedAll(t, b))
    decreases |a|
  {
    hide Feed;
    if a == [] {
    } else {
      var n := |a| - 1;
      assert Xor(a, b)[..n] == Xor(a[..n], b[..n]);
      FeedAllLinear(s, t, a[..n], b[..n]);
      FeedLinear(FeedAll(s, a[..n]), FeedAll(t, b[..n]), a[n], b[n]);
    }
  }

  lemma StepInjective(a: Reg, b: Reg)
    requires Step(a) == Step(b)
    ensures a == b
  {
    assert Step(a)[15] == a[0] && Step(b)[15] == b[0];
    forall i | 1 <= i < 16 ensures a[i] == b[i] {
      assert Step(a)[i - 1] == Step(b)[i - 1];
    }
  }

  /** No two register values lead to the same one. */
  lemma {:induction false} ShiftInjective(a: bv16, b: bv16, n: nat)
    requires ShiftN(a, n) == ShiftN(b, n)
    ensures a == b
    decreases n
  {
    hide ShiftBit, RegBits, Step;
    if n == 0 {
    } else {
      var x, y := ShiftN(a, n - 1), ShiftN(b, n - 1);
      StepIsShift(x);
      StepIsShift(y);
      StepInjective(RegBits(x), RegBits(y));
      RegBitsInjective(x, y);
      ShiftInjective(a, b, n - 1);
    }
  }

  const NULL_REG: Reg := Zeros(16)

  lemma XorSelf(s: seq<bool>)
    ensures Xor(s, s) == Zeros(|s|)
  {
  }

  /** Two messages have the same CRC exactly when their difference, fed into an
      empty register, leaves it empty. */
  lemma SameCrcIff(a: seq<bv8>, b: seq<bv8>)
    requires |a| == |b|
    ensures Crc16(a) == Crc16(b) <==> FeedAll(NULL_REG, Xor(BitString(a), BitString(b))) == NULL_REG
  {
    hide RegBits, Register, BitString;
    var x, y := RegBits(Crc16(a)), RegBits(Crc16(b));
    RegisterFeeds(PRESET, a);
    RegisterFeeds(PRESET, b);
    XorSelf(RegBits(PRESET));
    FeedAllLinear(RegBits(PRESET), RegBits(PRESET), BitString(a), BitString(b));
    assert FeedAll(NULL_REG, Xor(BitString(a), BitString(b))) == Xor(x, y);
    if Xor(x, y) == NULL_REG {
      forall i | 0 <= i < 16 ensures x[i] == y[i] {
        assert !Xor(x, y)[i];
      }
      RegBitsInjective(Crc16(a), Crc16(b));
    } else if Crc16(a) == Crc16(b) {
      XorSelf(x);
    }
  }

  // CRC-16 is affine.

  /** Bytewise exclusive or of two equally long messages. */
  function XorBytes(a: seq<bv8>, b: seq<bv8>): (c: seq<bv8>)
    requires |a| == |b|
    ensures |c| == |a|
  {
    seq(|a|, i requires 0 <= i < |a| => a[i] ^ b[i])
  }

  predicate IsXor8(x: bv8, y: bv8, z: bv8) {
    z == x ^ y
  }

  lemma TopXor(x: bv8, y: bv8, z: bv8)
    requires IsXor8(x, y, z)
    ensures IsXor(Top(x), Top(y), Top(z))
  {
  }

  lemma ByteBitsXor(x: bv8, y: bv8, z: bv8)
    requires IsXor8(x, y, z)
    ensures ByteBits(z) == Xor(ByteBits(x), ByteBits(y))
  {
    hide BitOf, Top, IsXor, IsXor8;
    TopXor(x, y, z);
    forall i: nat | i < 8 ensures ByteBits(z)[i] == Xor(ByteBits(x), ByteBits(y))[i] {
      XorBits(Top(x), Top(y), Top(z), i);
    }
  }

  lemma XorConcat(a: seq<bool>, a': seq<bool>, b: seq<bool>, b': seq<bool>)
    requires |a| == |b| && |a'| == |b'|
    ensures Xor(a + a', b + b') == Xor(a, b) + Xor(a', b')
  {
  }

  lemma XorBytesSplits(a: seq<bv8>, b: seq<bv8>, n: nat)
    requires n < |a| == |b|
    ensures XorBytes(a, b)[..n] == XorBytes(a[..n], b[..n])
    ensures IsXor8(a[n], b[n], XorBytes(a, b)[n])
  {
  }

  lemma {:induction false} BitStringXor(a: seq<bv8>, b: seq<bv8>)
    requires |a| == |b|
    ensures BitString(XorBytes(a, b)) == Xor(BitString(a), BitString(b))
    decreases |a|
  {
    hide ByteBits, XorBytes, IsXor8, Xor;
    if a == [] {
    } else {
      var n := |a| - 1;
      var c := XorBytes(a, b);
      XorBytesSplits(a, b, n);
      BitStringXor(a[..n], b[..n]);
      ByteBitsXor(a[n], b[n], c[n]);
      XorConcat(BitString(a[..n]), ByteBits(a[n]), BitString(b[..n]), ByteBits(b[n]));
    }
  }

  lemma RegBitsXor(x: bv16, y: bv16, z: bv16)
    requires IsXor(x, y, z)
    ensures RegBits(z) == Xor(RegBits(x), RegBits(y))
  {
    hide BitOf, IsXor;
    forall i: nat | i < 16 ensures RegBits(z)[i] == Xor(RegBits(x), RegBits(y))[i] {
      XorBits(x, y, z, i);
    }
  }

  /** The CRCs of two messages differ from the CRC of their exclusive or by the
      CRC of the all-zero message of that length. */
  lemma CrcAffine(a: seq<bv8>, b: seq<bv8>)
    requires |a| == |b|
    ensures Crc16(XorBytes(a, b)) ^ Crc16(seq(|a|, _ => 0)) == Crc16(a) ^ Crc16(b)
  {
    hide BitOf, RegBits, Register, BitString, XorBytes, IsXor;
    var zeros: seq<bv8> := seq(|a|, _ => 0);
    var c := XorBytes(a, b);
    var p := RegBits(PRESET);
    assert XorBytes(c, zeros) == c by { XorWithZeros(c, zeros); }
    BitStringXor(a, b);
    BitStringXor(c, zeros);
    RegisterFeeds(PRESET, a);
    RegisterFeeds(PRESET, b);
    RegisterFeeds(PRESET, c);
    RegisterFeeds(PRESET, zeros);
    FeedAllLinear(p, p, BitString(a), BitString(b));
    FeedAllLinear(p, p, BitString(c), BitString(zeros));
    XorRegisters(Crc16(a), Crc16(b), Crc16(c), Crc16(zeros));
  }

  lemma XorWithZeros(c: seq<bv8>, zeros: seq<bv8>)
    requires |zeros| == |c| && forall i | 0 <= i < |zeros| :: zeros[i] == 0
    ensures XorBytes(c, zeros) == c
  {
  }

  lemma XorRegisters(a: bv16, b: bv16, c: bv16, d: bv16)
    requires Xor(RegBits(a), RegBits(b)) == Xor(RegBits(c), RegBits(d))
    ensures c ^ d == a ^ b
  {
    hide RegBits;
    RegBitsXor(a, b, a ^ b);
    RegBitsXor(c, d, c ^ d);
    RegBitsInjective(a ^ b, c ^ d);
  }
}

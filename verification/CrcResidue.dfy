/**
 The residue: a buffer has CRC 0 exactly when its last two bytes are the
 big-endian CRC of the bytes before them.
 */
module CrcResidue {
  import opened Words
  import opened BitStrings
  import opened Crc
  import opened CrcAlgebra
  import opened CrcDistance

  lemma LowByteShifts(b: bv8)
    ensures var x := b as bv16;
            && x & 0x8000 == 0 && (x << 1) & 0x8000 == 0 && (x << 1 << 1) & 0x8000 == 0
            && (x << 1 << 1 << 1) & 0x8000 == 0 && (x << 4) & 0x8000 == 0
            && (x << 4 << 1) & 0x8000 == 0 && (x << 4 << 1 << 1) & 0x8000 == 0
            && (x << 4 << 1 << 1 << 1) & 0x8000 == 0
  {
  }

  lemma LowByteBits(b: bv8, i: nat)
    requires i < 8
    ensures !BitOf(b as bv16, i)
  {
    LowByteShifts(b);
    var x := b as bv16;
    if i < 4 {
      FirstFour(x, i);
    } else {
      BitLeft(x, 4, i - 4);
      LeftFour(x);
      FirstFour(x << 4, i - 4);
    }
  }

  lemma FirstFour(x: bv16, i: nat)
    requires i < 4
    requires x & 0x8000 == 0 && (x << 1) & 0x8000 == 0
    requires (x << 1 << 1) & 0x8000 == 0 && (x << 1 << 1 << 1) & 0x8000 == 0
    ensures !BitOf(x, i)
  {
    BitNext(x, 0);
    BitNext(x, 1);
    BitNext(x, 2);
    BitNext(x << 1, 0);
    BitNext(x << 1, 1);
    BitNext(x << 1 << 1, 0);
  }

  lemma Halves(w: bv16)
    ensures IsXor(Top(Hi(w)), Lo(w) as bv16, w)
    ensures w << 4 << 4 == Top(Lo(w))
  {
  }

  /** A word is the bits of its high byte followed by those of its low byte. */
  lemma RegBitsOfParts(w: bv16)
    ensures RegBits(w) == ByteBits(Hi(w)) + ByteBits(Lo(w))
  {
    hide BitOf, Top, Hi, Lo, IsXor;
    Halves(w);
    LeftAdd(w, 4, 4);
    LeftFour(w);
    LeftFour(w << 4);
    forall i: nat | i < 8
      ensures RegBits(w)[i] == ByteBits(Hi(w))[i]
    {
      XorBits(Top(Hi(w)), Lo(w) as bv16, w, i);
      LowByteBits(Lo(w), i);
    }
    forall i: nat | 8 <= i < 16
      ensures RegBits(w)[i] == ByteBits(Lo(w))[i - 8]
    {
      BitLeft(w, 8, i - 8);
    }
  }

  /** Feeding a register its own bits empties it. */
  lemma FeedSelf(s: Reg)
    ensures FeedAll(s, s) == NULL_REG
  {
    hide Step, Feed;
    assert AddTop(s, s) == NULL_REG;
    StepsFeed(s, s, 16);
    assert s[..16] == s;
    StepsFromNull(16);
    assert AddTop(FeedAll(s, s), []) == FeedAll(s, s);
  }

  lemma {:induction false} StepsFromNull(n: nat)
    ensures StepN(NULL_REG, n) == NULL_REG
    decreases n
  {
    hide Step;
    if n == 0 {
    } else {
      StepsFromNull(n - 1);
      StepNull(NULL_REG);
    }
  }

  lemma PairBits(h: bv8, l: bv8)
    ensures BitString([h, l]) == ByteBits(h) + ByteBits(l)
  {
    hide ByteBits;
    assert [h, l][..1] == [h];
    assert [h][..0] == [];
  }

  /** A message followed by its CRC leaves the register empty. */
  lemma OwnCrcClears(message: seq<bv8>)
    ensures Crc16(message + Be16(Crc16(message))) == 0
  {
    hide RegBits, ByteBits, FeedAll, Register, Hi, Lo, BitString;
    var r := Crc16(message);
    var tail := Be16(r);
    RegisterAppend(PRESET, message, tail);
    RegisterFeeds(r, tail);
    PairBits(Hi(r), Lo(r));
    RegBitsOfParts(r);
    FeedSelf(RegBits(r));
    ZeroRegister();
    RegBitsInjective(Register(r, tail), 0);
  }

  /** CRC 0 characterises a message followed by its own CRC. */
  lemma ResidueZero(message: seq<bv8>, h: bv8, l: bv8)
    ensures Crc16(message + [h, l]) == 0 <==> [h, l] == Be16(Crc16(message))
  {
    hide Register, Hi, Lo, BitString;
    OwnCrcClears(message);
    var own := message + Be16(Crc16(message));
    var other := message + [h, l];
    if Crc16(other) == 0 && own != other {
      var n := 8 * |message|;
      BitStringAppend(message, Be16(Crc16(message)));
      BitStringAppend(message, [h, l]);
      assert forall k | 0 <= k < n :: BitString(own)[k] == BitString(message)[k] == BitString(other)[k];
      BurstsDetected(own, other, n);
    }
    assert own[|message|..] == Be16(Crc16(message)) && other[|message|..] == [h, l];
  }

  /** The same, for a buffer of at least two bytes. */
  lemma ResidueOfBuffer(w: seq<bv8>)
    requires |w| >= 2
    ensures Crc16(w) == 0 <==> Join(w[|w| - 2], w[|w| - 1]) == Crc16(w[..|w| - 2])
  {
    hide Register;
    var n := |w| - 2;
    var crc := Crc16(w[..n]);
    assert w == w[..n] + [w[n], w[n + 1]];
    ResidueZero(w[..n], w[n], w[n + 1]);
    JoinSplits(w[n], w[n + 1]);
    SplitJoins(crc);
  }
}

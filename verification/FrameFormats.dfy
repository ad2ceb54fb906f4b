/**
 The four wire formats byte by byte, with the limits, markers and offsets of the interface
 description written out: what an encoder writes, and exactly which buffers a decoder
 accepts or refuses, and why.
 */
module FrameFormats {
  import opened Words
  import opened Crc
  import opened CrcResidue
  import opened Frames

  /** High and low byte are quotient and remainder by 256. */
  lemma BytesOfWord(w: bv16)
    ensures Hi(w) as bv16 == w / 0x100 && Lo(w) as bv16 == w % 0x100
  {
  }

  lemma WordOfBytes(hi: bv8, lo: bv8)
    ensures Join(hi, lo) == (hi as bv16) * 0x100 + (lo as bv16)
  {
  }

  lemma BytesOfLongWord(w: bv32)
    ensures var b := Be32(w);
      w == (b[0] as bv32) * 0x100_0000 + (b[1] as bv32) * 0x1_0000 + (b[2] as bv32) * 0x100 + (b[3] as bv32)
  {
  }

  /** The bytes of a valid frame. */
  lemma WireLayout(frame: Frame)
    requires Encodable(frame)
    ensures var w, t, n := Wire(frame), frame.interfaceType, Length(frame);
      var start := if t == 3 then 5 else 8;
      && |w| == start + n + 2
      && (t == 1 ==> w[0] == 0xa5 && w[1] == 0x01)
      && (t == 2 ==> w[0] == 0x5a && w[1] == 0x02)
      && (t == 4 ==> w[0] == 0x45 && w[1] == 0x53)
      && (t == 3 ==> && w[0] == Hi(frame.messageId) && w[1] == Lo(frame.messageId)
                     && w[2] == Hi(frame.sequence) && w[3] == Lo(frame.sequence)
                     && IntOf(w[4]) == n)
      && (t != 3 ==> && w[2] == Hi(frame.messageId) && w[3] == Lo(frame.messageId)
                     && w[4] == Hi(frame.sequence) && w[5] == Lo(frame.sequence)
                     && w[6] == Hi(frame.payloadLength) && w[7] == Lo(frame.payloadLength))
      && w[start..start + n] == frame.payload[..n]
      && w[start + n] == Hi(Crc16(w[..start + n])) && w[start + n + 1] == Lo(Crc16(w[..start + n]))
  {
    hide Hi, Lo, Register, Value, IntOf;
    var w, n := Wire(frame), Length(frame);
    assert w[..|Body(frame)|] == Body(frame);
    assert w[HeaderLength(frame.interfaceType)..|Body(frame)|] == frame.payload[..n];
    assert w[..HeaderLength(frame.interfaceType)] == Header(frame);
    if frame.interfaceType == CAN {
      ShortLength(frame.payloadLength);
    }
  }

  lemma ShortLength(w: bv16)
    requires Value(w) <= 8
    ensures IntOf(Lo(w)) == Value(w)
  {
  }

  /** The bytes before the payload say so. */
  predicate Marked(interfaceType: int, first: bv8, second: bv8) {
    if interfaceType == 1 then first == 0xa5 && second == 0x01
    else if interfaceType == 2 then first == 0x5a && second == 0x02
    else first == 0x45 && second == 0x53
  }

  /** The longest payload the interface description allows. */
  function Limit(interfaceType: int): nat {
    if interfaceType == 1 then 64 else if interfaceType == 2 then 32
    else if interfaceType == 3 then 8 else if interfaceType == 4 then 256 else 0
  }

  /** The status of decoding a buffer. */
  function DecodeAnswer(t: int, w: seq<bv8>): Status {
    if t < 1 || t > 4 then ErrRange
    else if t == 3 then
      if |w| < 7 then ErrLength
      else if w[0] > 0x07 || w[4] > 8 then ErrRange
      else if |w| != 7 + IntOf(w[4]) then ErrLength
      else if Crc16(w) != 0 then ErrChecksum
      else Ok
    else
      if |w| < 10 then ErrLength
      else if !Marked(t, w[0], w[1]) then ErrRange
      else if IntOf(w[6]) * 0x100 + IntOf(w[7]) > Limit(t) then ErrLength
      else if |w| != 10 + IntOf(w[6]) * 0x100 + IntOf(w[7]) then ErrLength
      else if Crc16(w) != 0 then ErrChecksum
      else Ok
  }

  lemma JoinValue(hi: bv8, lo: bv8)
    ensures Value(Join(hi, lo)) == IntOf(hi) * 0x100 + IntOf(lo)
  {
    JoinSplits(hi, lo);
  }

  lemma Identifier(hi: bv8, lo: bv8)
    ensures Join(hi, lo) > 0x07ff <==> hi > 0x07
  {
  }

  lemma ZeroByte()
    ensures IntOf(0) == 0
  {
  }

  /** Every buffer under every interface value: accepted exactly in the documented form, or
      refused with the documented status. */
  lemma DecodeAnswers(t: int, w: seq<bv8>)
    ensures match Decode(t, w)
            case Accepted(_) => DecodeAnswer(t, w) == Ok
            case Rejected(status) => DecodeAnswer(t, w) == status && status != Ok
  {
    hide Join, Value, IntOf, Register, Padded, Crc16;
    if Known(t) && |w| >= 7 {
      ResidueOfBuffer(w);
      Identifier(w[0], w[1]);
      ZeroByte();
      JoinValue(0, w[4]);
      if t != CAN && |w| >= 10 {
        JoinValue(w[6], w[7]);
        assert w[..2] == [w[0], w[1]];
      }
    }
  }

  /** The frame an accepted buffer stands for: fields at their offsets, the payload, and
      zeros behind it. */
  lemma DecodedFields(t: int, w: seq<bv8>)
    requires Decode(t, w).Accepted?
    ensures var f := Decode(t, w).frame;
      var start := if t == 3 then 5 else 8;
      && f.interfaceType == t && |w| == start + Length(f) + 2
      && f.messageId == (if t == 3 then Join(w[0], w[1]) else Join(w[2], w[3]))
      && f.sequence == (if t == 3 then Join(w[2], w[3]) else Join(w[4], w[5]))
      && f.payloadLength == (if t == 3 then Join(0, w[4]) else Join(w[6], w[7]))
      && (forall i | 0 <= i < Length(f) :: f.payload[i] == w[start + i])
      && (forall i | Length(f) <= i < 256 :: f.payload[i] == 0)
  {
    hide Join, Value, Crc16;
  }

  /** The size a caller must provide: 0 for an oversized frame. */
  lemma WireSizeIs(frame: Frame)
    ensures var t, n := frame.interfaceType, Length(frame);
      WireSize(frame) == if n > Limit(t) then 0 else n + if t == 3 then 7 else 10
  {
  }

  /** The status of encoding a frame into a buffer. */
  lemma EncodeAnswers(frame: Frame, capacity: nat)
    ensures var t, n := frame.interfaceType, Length(frame);
      EncodeStatus(frame, capacity)
      == if n > Limit(t) then ErrLength
         else if t == 3 && frame.messageId > 0x07ff then ErrRange
         else if capacity < n + (if t == 3 then 7 else 10) then ErrLength
         else if t < 1 || t > 4 then ErrRange
         else Ok
  {
  }
}

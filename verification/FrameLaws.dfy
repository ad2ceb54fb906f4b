/**
 Laws of the codec: decoding is exactly the inverse of encoding, the four formats
 do not overlap, and which corruptions of a buffer cannot be accepted.
 */
module FrameLaws {
  import opened Words
  import opened BitStrings
  import opened Crc
  import opened CrcAlgebra
  import opened CrcDistance
  import opened CrcResidue
  import opened Frames

  // The bijection between wire buffers and frames with a zeroed payload tail.

  /** The frame with the unused part of its payload field cleared. */
  function ZeroTail(frame: Frame): Frame
    requires Length(frame) <= MAX_PAYLOAD
  {
    frame.(payload := Padded(frame.payload[..Length(frame)]))
  }

  lemma ByteLength(w: bv16)
    requires Value(w) <= 8
    ensures Join(0, Lo(w)) == w && Lo(w) <= 8
  {
  }

  lemma ByteLengthBack(b: bv8)
    requires b <= 8
    ensures Lo(Join(0, b)) == b && Value(Join(0, b)) <= 8
  {
  }

  /** A wire buffer opens with the fields of its frame. */
  lemma HeaderReads(frame: Frame, rest: seq<bv8>)
    requires Encodable(frame) && |rest| >= 2
    ensures ReadHeader(frame.interfaceType, Header(frame) + rest)
         == Opens(frame.messageId, frame.sequence, frame.payloadLength)
  {
    hide Join, Hi, Lo, Value;
    var w := Header(frame) + rest;
    SplitJoins(frame.messageId);
    SplitJoins(frame.sequence);
    SplitJoins(frame.payloadLength);
    if frame.interfaceType == CAN {
      ByteLength(frame.payloadLength);
    } else {
      assert w[..2] == Marker(frame.interfaceType);
    }
  }

  /** The header bytes are determined by the fields read from them. */
  lemma HeaderWrites(interfaceType: int, w: seq<bv8>, frame: Frame)
    requires ReadHeader(interfaceType, w) == Opens(frame.messageId, frame.sequence, frame.payloadLength)
    requires frame.interfaceType == interfaceType
    ensures HeaderLength(interfaceType) <= |w|
    ensures w[..HeaderLength(interfaceType)] == Header(frame)
    ensures Encodable(frame)
  {
    hide Join, Hi, Lo, Value;
    JoinSplits(w[0], w[1]);
    JoinSplits(w[2], w[3]);
    if interfaceType == CAN {
      ByteLengthBack(w[4]);
    } else {
      JoinSplits(w[4], w[5]);
      JoinSplits(w[6], w[7]);
      assert w[..8] == w[..2] + [w[2], w[3], w[4], w[5], w[6], w[7]];
    }
  }

  /** Decoding what was encoded gives the frame back, payload tail cleared. */
  lemma DecodeWire(frame: Frame)
    requires Encodable(frame)
    ensures Decode(frame.interfaceType, Wire(frame)) == Accepted(ZeroTail(frame))
  {
    hide Join, Hi, Lo, Value, Header, ReadHeader, Crc16, Padded;
    var body := Body(frame);
    var w := Wire(frame);
    var start := HeaderLength(frame.interfaceType);
    var payload := frame.payload[..Length(frame)];
    var crc := Be16(Crc16(body));
    assert w == Header(frame) + (payload + crc);
    HeaderReads(frame, payload + crc);
    SplitJoins(Crc16(body));
    assert w[..|body|] == body;
    assert w[start..|body|] == payload;
  }

  /** Encoding what was decoded gives the buffer back. */
  lemma WireDecode(interfaceType: int, w: seq<bv8>, frame: Frame)
    requires Decode(interfaceType, w) == Accepted(frame)
    ensures frame.interfaceType == interfaceType && Encodable(frame)
    ensures ZeroTail(frame) == frame
    ensures Wire(frame) == w
  {
    hide Join, Hi, Lo, Value, Header, ReadHeader, Crc16;
    HeaderWrites(interfaceType, w, frame);
    var start := HeaderLength(interfaceType);
    var end := start + Length(frame);
    assert w[..end] == w[..start] + w[start..end];
    assert frame.payload[..Length(frame)] == w[start..end];
    assert Body(frame) == w[..end];
    JoinSplits(w[end], w[end + 1]);
    assert w == w[..end] + [w[end], w[end + 1]];
  }

  /** The decoder accepts exactly the wire forms of valid frames, and returns the frame. */
  lemma DecodeIffWire(interfaceType: int, w: seq<bv8>, frame: Frame)
    ensures Decode(interfaceType, w) == Accepted(frame)
       <==> (&& frame.interfaceType == interfaceType
             && Encodable(frame) && ZeroTail(frame) == frame && Wire(frame) == w)
  {
    if Decode(interfaceType, w) == Accepted(frame) {
      WireDecode(interfaceType, w, frame);
    } else if frame.interfaceType == interfaceType && Encodable(frame) && ZeroTail(frame) == frame && Wire(frame) == w {
      DecodeWire(frame);
    }
  }

  /** An accepted buffer starts with its marker, or with a CAN identifier. */
  lemma AcceptedStart(t: int, w: seq<bv8>)
    requires Decode(t, w).Accepted?
    ensures Known(t) && |w| >= 7
    ensures if t == CAN then Join(w[0], w[1]) <= 0x07ff else w[..2] == Marker(t)
  {
    hide Value, Crc16, Padded;
  }

  /** No buffer is accepted under two interface types. */
  lemma OneInterface(t: int, t': int, w: seq<bv8>)
    requires Decode(t, w).Accepted? && Decode(t', w).Accepted?
    ensures t == t'
  {
    hide Decode;
    AcceptedStart(t, w);
    AcceptedStart(t', w);
    CanStart(w[0], w[1]);
    assert w[0] == w[..2][0] && w[1] == w[..2][1];
  }

  lemma CanStart(hi: bv8, lo: bv8)
    ensures Join(hi, lo) <= 0x07ff ==> hi != 0xa5 && hi != 0x5a && hi != 0x45
  {
  }

  /** The buffer size an encoder asks for is the size of the wire form, and encoding
      succeeds exactly for valid frames and large enough buffers. */
  lemma EncodeOkIff(frame: Frame, capacity: nat)
    ensures EncodeStatus(frame, capacity) == Ok <==> Encodable(frame) && capacity >= |Wire(frame)|
  {
  }

  // What is accepted has residue 0, so corruptions are caught.

  /** Every accepted buffer has CRC 0 over its whole length, and at most 266 bytes. */
  lemma AcceptedResidue(interfaceType: int, w: seq<bv8>)
    requires Decode(interfaceType, w).Accepted?
    ensures 7 <= |w| <= 266 && Crc16(w) == 0
  {
    hide Join, Value, Register, Padded;
    var end := |w| - 2;
    ResidueOfBuffer(w);
  }

  /** Two different accepted buffers of one length differ in at least four bits,
      whatever their interface types. */
  lemma AcceptedDistance(t: int, w: seq<bv8>, t': int, w': seq<bv8>)
    requires Decode(t, w).Accepted? && Decode(t', w').Accepted?
    requires |w| == |w'| && w != w'
    ensures Distance(w, w') >= 4 && Distance(w, w') % 2 == 0
  {
    hide Decode;
    AcceptedResidue(t, w);
    AcceptedResidue(t', w');
    MinimumDistance(w, w');
    OddErrorsDetected(w, w');
  }

  ghost predicate IsBurst(w: seq<bv8>, w': seq<bv8>, span: nat)
    requires |w| == |w'|
  {
    exists start: int :: Within(w, w', start, span)
  }

  /** A frame hit by one, two or three wrong bits, by any odd number of them, or by a
      burst of at most 16 bits is never accepted, under any interface type, wherever
      the errors fall: header, length field, payload or CRC. */
  lemma CorruptionRejected(frame: Frame, w': seq<bv8>, t': int)
    requires Encodable(frame) && |w'| == |Wire(frame)| && w' != Wire(frame)
    requires Distance(Wire(frame), w') <= 3 || Distance(Wire(frame), w') % 2 == 1 || IsBurst(Wire(frame), w', 16)
    ensures Decode(t', w').Rejected?
  {
    hide Decode, Wire, Distance;
    DecodeWire(frame);
    CorruptionOf(frame.interfaceType, Wire(frame), t', w');
  }

  lemma CorruptionOf(t: int, w: seq<bv8>, t': int, w': seq<bv8>)
    requires Decode(t, w).Accepted? && |w'| == |w| && w' != w
    requires Distance(w, w') <= 3 || Distance(w, w') % 2 == 1 || IsBurst(w, w', 16)
    ensures Decode(t', w').Rejected?
  {
    hide Decode, Distance, BitString, Register;
    if Decode(t', w').Accepted? {
      AcceptedDistance(t, w, t', w');
      AcceptedResidue(t, w);
      AcceptedResidue(t', w');
      var start: int :| Within(w, w', start, 16);
      BurstsDetected(w, w', start);
    }
  }

  /** Four wrong bits, or a burst of 17, can pass: the generator added anywhere
      inside a payload gives another accepted buffer. */
  lemma FourErrorsAccepted(frame: Frame, at: nat)
    requires Encodable(frame)
    requires HeaderLength(frame.interfaceType) <= at
    requires at + 3 <= HeaderLength(frame.interfaceType) + Length(frame)
    ensures var w := Wire(frame);
            var w' := XorBytes(w, ErrorAt(at, |w|));
            Distance(w, w') == 4 && IsBurst(w, w', 17) && Decode(frame.interfaceType, w').Accepted?
  {
    hide Join, Hi, Lo, Value, Header, ReadHeader, Register, Padded, Distance;
    var t := frame.interfaceType;
    var w := Wire(frame);
    var w' := XorBytes(w, ErrorAt(at, |w|));
    var start := HeaderLength(t);
    var n := |w| - 2;
    BoundAttained(w, at);
    BoundAttainedDistance(w, at);
    BoundAttainedBurst(w, at);
    DecodeWire(frame);
    AcceptedResidue(t, w);
    ResidueOfBuffer(w');
    SamePrefix(w, at);
    assert w'[..start] == w[..start] == Header(frame);
    assert w' == Header(frame) + w'[start..];
    HeaderReads(frame, w'[start..]);
  }

  lemma SamePrefix(w: seq<bv8>, at: nat)
    requires at + 3 <= |w|
    ensures forall i | 0 <= i < at :: XorBytes(w, ErrorAt(at, |w|))[i] == w[i]
  {
  }
}

/**
 The frame codec of `src/frame.c`: four wire formats over the CRC, written and
 read back in place.
 */
module Frames {
  import opened Words
  import opened Crc

  datatype Status =
    | Ok | ErrArgument | ErrLength | ErrChecksum | ErrRange
    | ErrFull | ErrEmpty | ErrSequence | ErrState

  const UART: int := 1
  const SPI: int := 2
  const CAN: int := 3
  const ETHERNET: int := 4

  const MAX_PAYLOAD: nat := 256

  type Payload = p: seq<bv8> | |p| == MAX_PAYLOAD witness seq(MAX_PAYLOAD, _ => 0)

  /** `esqh_frame_t`. The interface is an integer because the code tests for
      values outside its enumeration. */
  datatype Frame = Frame(
    interfaceType: int,
    messageId: bv16,
    sequence: bv16,
    payloadLength: bv16,
    payload: Payload)

  /** A variable of the caller that an operation may overwrite. */
  class Cell<T> {
    var value: T

    constructor (v: T)
      ensures value == v
    {
      value := v;
    }
  }

  predicate Known(interfaceType: int) {
    UART <= interfaceType <= ETHERNET
  }

  /** `esqh_internal_payload_limit`. */
  function PayloadLimit(interfaceType: int): (limit: nat)
    ensures limit <= MAX_PAYLOAD
  {
    if interfaceType == UART then 64
    else if interfaceType == SPI then 32
    else if interfaceType == CAN then 8
    else if interfaceType == ETHERNET then MAX_PAYLOAD
    else 0
  }

  function Length(frame: Frame): nat {
    Value(frame.payloadLength)
  }

  function HeaderLength(interfaceType: int): nat {
    if interfaceType == CAN then 5 else 8
  }

  /** `esqh_wire_size`; 0 for an oversized frame. */
  function WireSize(frame: Frame): nat {
    if Length(frame) > PayloadLimit(frame.interfaceType) then 0
    else HeaderLength(frame.interfaceType) + Length(frame) + 2
  }

  // What the interface control description calls a valid frame, and its bytes.

  /** The frames that have a wire form. */
  predicate Encodable(frame: Frame) {
    && Known(frame.interfaceType)
    && Length(frame) <= PayloadLimit(frame.interfaceType)
    && (frame.interfaceType == CAN ==> frame.messageId <= 0x07ff)
  }

  function Marker(interfaceType: int): seq<bv8> {
    if interfaceType == UART then [0xa5, 0x01]
    else if interfaceType == SPI then [0x5a, 0x02]
    else [0x45, 0x53]
  }

  function Header(frame: Frame): (h: seq<bv8>)
    ensures |h| == HeaderLength(frame.interfaceType)
  {
    if frame.interfaceType == CAN then
      Be16(frame.messageId) + Be16(frame.sequence) + [Lo(frame.payloadLength)]
    else
      Marker(frame.interfaceType) + Be16(frame.messageId) + Be16(frame.sequence)
      + Be16(frame.payloadLength)
  }

  function Body(frame: Frame): seq<bv8>
    requires Length(frame) <= MAX_PAYLOAD
  {
    Header(frame) + frame.payload[..Length(frame)]
  }

  /** The bytes of a frame: header, payload, big-endian CRC of both. */
  function Wire(frame: Frame): seq<bv8>
    requires Length(frame) <= MAX_PAYLOAD
  {
    Body(frame) + Be16(Crc16(Body(frame)))
  }

  /** Why an encode call fails, if it does. */
  function EncodeStatus(frame: Frame, capacity: nat): Status {
    if Length(frame) > PayloadLimit(frame.interfaceType) then ErrLength
    else if frame.interfaceType == CAN && frame.messageId > 0x07ff then ErrRange
    else if capacity < WireSize(frame) then ErrLength
    else if !Known(frame.interfaceType) then ErrRange
    else Ok
  }

  datatype Decoded = Accepted(frame: Frame) | Rejected(status: Status)

  /** A payload field holding `bytes` and zeros behind them. */
  function Padded(bytes: seq<bv8>): Payload
    requires |bytes| <= MAX_PAYLOAD
  {
    bytes + seq(MAX_PAYLOAD - |bytes|, _ => 0)
  }

  /** The tests on the header of a buffer, in the order of the code, and the
      payload length it announces. */
  datatype Opening = Opens(messageId: bv16, sequence: bv16, payloadLength: bv16) | Refused(status: Status)

  function ReadHeader(interfaceType: int, w: seq<bv8>): (opening: Opening)
    ensures opening.Refused? ==> opening.status == ErrLength || opening.status == ErrRange
    ensures opening.Opens? ==>
      && Known(interfaceType)
      && Value(opening.payloadLength) <= PayloadLimit(interfaceType)
  {
    if !Known(interfaceType) then Refused(ErrRange)
    else if interfaceType == CAN then
      if |w| < 7 then Refused(ErrLength)
      else if Join(w[0], w[1]) > 0x07ff || w[4] > 8 then Refused(ErrRange)
      else Opens(Join(w[0], w[1]), Join(w[2], w[3]), Join(0, w[4]))
    else
      if |w| < 10 then Refused(ErrLength)
      else if w[..2] != Marker(interfaceType) then Refused(ErrRange)
      else if Value(Join(w[6], w[7])) > PayloadLimit(interfaceType) then Refused(ErrLength)
      else Opens(Join(w[2], w[3]), Join(w[4], w[5]), Join(w[6], w[7]))
  }

  /** What a decode call returns. */
  function Decode(interfaceType: int, w: seq<bv8>): Decoded {
    match ReadHeader(interfaceType, w)
    case Refused(status) => Rejected(status)
    case Opens(messageId, sequence, payloadLength) =>
      var start := HeaderLength(interfaceType);
      var end := start + Value(payloadLength);
      if |w| != end + 2 then Rejected(ErrLength)
      else if Join(w[end], w[end + 1]) != Crc16(w[..end]) then Rejected(ErrChecksum)
      else Accepted(Frame(interfaceType, messageId, sequence, payloadLength, Padded(w[start..end])))
  }

  // The imperative codec.

  /** `esqh_internal_copy_bytes`. */
  method CopyBytes(destination: array<bv8>, at: nat, source: seq<bv8>, length: nat)
    requires at + length <= destination.Length && length <= |source|
    modifies destination
    ensures destination[..at + length] == old(destination[..at]) + source[..length]
    ensures forall i | at + length <= i < destination.Length :: destination[i] == old(destination[i])
  {
    for index := 0 to length
      invariant destination[..at + index] == old(destination[..at]) + source[..index]
      invariant forall i | at + index <= i < destination.Length :: destination[i] == old(destination[i])
    {
      destination[at + index] := source[index];
      assert destination[..at + index + 1] == destination[..at + index] + [source[index]];
    }
  }

  /** `esqh_internal_write_u16`. */
  method WriteU16(output: array<bv8>, at: nat, value: bv16)
    requires at + 2 <= output.Length
    modifies output
    ensures output[..at + 2] == old(output[..at]) + Be16(value)
    ensures forall i | at + 2 <= i < output.Length :: output[i] == old(output[i])
  {
    output[at] := Hi(value);
    output[at + 1] := Lo(value);
    assert output[..at + 2] == output[..at] + [output[at], output[at + 1]];
  }

  /** `esqh_internal_write_u32`. */
  method WriteU32(output: array<bv8>, at: nat, value: bv32)
    requires at + 4 <= output.Length
    modifies output
    ensures output[..at + 4] == old(output[..at]) + Be32(value)
    ensures forall i | at + 4 <= i < output.Length :: output[i] == old(output[i])
  {
    output[at] := ((value >> 24) & 0xff) as bv8;
    output[at + 1] := ((value >> 16) & 0xff) as bv8;
    output[at + 2] := ((value >> 8) & 0xff) as bv8;
    output[at + 3] := (value & 0xff) as bv8;
    assert output[..at + 4] == output[..at] + [output[at], output[at + 1], output[at + 2], output[at + 3]];
  }

  method WriteMarker(output: array<bv8>, interfaceType: int)
    requires Known(interfaceType) && interfaceType != CAN && output.Length >= 2
    modifies output
    ensures output[..2] == Marker(interfaceType)
    ensures forall i | 2 <= i < output.Length :: output[i] == old(output[i])
  {
    if interfaceType == UART {
      output[0] := 0xa5;
      output[1] := 0x01;
    } else if interfaceType == SPI {
      output[0] := 0x5a;
      output[1] := 0x02;
    } else {
      output[0] := 0x45;
      output[1] := 0x53;
    }
  }

  /** The header bytes, field by field. */
  method WriteHeader(output: array<bv8>, frame: Frame)
    requires Known(frame.interfaceType) && output.Length >= HeaderLength(frame.interfaceType)
    modifies output
    ensures output[..HeaderLength(frame.interfaceType)] == Header(frame)
    ensures forall i | HeaderLength(frame.interfaceType) <= i < output.Length :: output[i] == old(output[i])
  {
    if frame.interfaceType == CAN {
      WriteU16(output, 0, frame.messageId);
      WriteU16(output, 2, frame.sequence);
      output[4] := Lo(frame.payloadLength);
      assert output[..5] == output[..4] + [output[4]];
    } else {
      WriteMarker(output, frame.interfaceType);
      WriteU16(output, 2, frame.messageId);
      WriteU16(output, 4, frame.sequence);
      WriteU16(output, 6, frame.payloadLength);
    }
  }

  /** Header, payload and CRC, in the order of the code. */
  method WriteWire(frame: Frame, output: array<bv8>)
    requires Encodable(frame) && WireSize(frame) <= output.Length
    modifies output
    ensures output[..WireSize(frame)] == Wire(frame)
    ensures forall i | WireSize(frame) <= i < output.Length :: output[i] == old(output[i])
  {
    hide Header, Crc16, Hi, Lo, Value, Known;
    var headerLength := HeaderLength(frame.interfaceType);
    var crcOffset := headerLength + Length(frame);
    WriteHeader(output, frame);
    CopyBytes(output, headerLength, frame.payload, Length(frame));
    assert output[..crcOffset] == Body(frame);
    var crc := ComputeCrc16(output, crcOffset);
    WriteU16(output, crcOffset, crc);
  }

  /** `esqh_frame_encode`. */
  method Encode(frame: Frame, output: array<bv8>, capacity: nat, written: Cell<nat>) returns (status: Status)
    requires capacity <= output.Length
    modifies output, written
    ensures status == EncodeStatus(frame, capacity)
    ensures status == Ok ==>
      && written.value == WireSize(frame)
      && output[..WireSize(frame)] == Wire(frame)
      && forall i | WireSize(frame) <= i < output.Length :: output[i] == old(output[i])
    ensures status != Ok ==> output[..] == old(output[..]) && written.value == old(written.value)
  {
    if Length(frame) > PayloadLimit(frame.interfaceType) {
      return ErrLength;
    }
    if frame.interfaceType == CAN && frame.messageId > 0x07ff {
      return ErrRange;
    }
    hide Wire, Value;
    var required := WireSize(frame);
    if required == 0 || capacity < required {
      return ErrLength;
    }
    if !Known(frame.interfaceType) {
      return ErrRange;
    }
    WriteWire(frame, output);
    written.value := required;
    status := Ok;
  }

  /** The header tests of `esqh_frame_decode`. */
  method OpenHeader(interfaceType: int, input: array<bv8>, inputLength: nat) returns (opening: Opening)
    requires inputLength <= input.Length
    ensures opening == ReadHeader(interfaceType, input[..inputLength])
  {
    if interfaceType < UART || interfaceType > ETHERNET {
      return Refused(ErrRange);
    }
    if interfaceType == CAN {
      if inputLength < 7 {
        return Refused(ErrLength);
      }
      var messageId := Join(input[0], input[1]);
      if messageId > 0x07ff || input[4] > 8 {
        return Refused(ErrRange);
      }
      return Opens(messageId, Join(input[2], input[3]), Join(0, input[4]));
    }
    if inputLength < 10 {
      return Refused(ErrLength);
    }
    assert input[..inputLength][..2] == [input[0], input[1]];
    if (interfaceType == UART && (input[0] != 0xa5 || input[1] != 0x01))
       || (interfaceType == SPI && (input[0] != 0x5a || input[1] != 0x02))
       || (interfaceType == ETHERNET && (input[0] != 0x45 || input[1] != 0x53))
    {
      return Refused(ErrRange);
    }
    var payloadLength := Join(input[6], input[7]);
    if Value(payloadLength) > PayloadLimit(interfaceType) {
      return Refused(ErrLength);
    }
    return Opens(Join(input[2], input[3]), Join(input[4], input[5]), payloadLength);
  }

  /** The zeroed payload field of a fresh frame, filled from the buffer. */
  method CopyPayload(input: array<bv8>, start: nat, length: nat) returns (payload: Payload)
    requires start + length <= input.Length && length <= MAX_PAYLOAD
    ensures payload == Padded(input[start..start + length])
  {
    var field := new bv8[MAX_PAYLOAD](_ => 0);
    CopyBytes(field, 0, input[start..], length);
    assert input[start..][..length] == input[start..start + length];
    assert field[..0] == [];
    payload := field[..];
    assert payload == field[..length] + field[length..];
  }

  /** `esqh_frame_decode`. */
  method DecodeInto(interfaceType: int, input: array<bv8>, inputLength: nat, frame: Cell<Frame>)
    returns (status: Status)
    requires inputLength <= input.Length
    modifies frame
    ensures match Decode(interfaceType, input[..inputLength])
            case Accepted(f) => status == Ok && frame.value == f
            case Rejected(s) => status == s && status != Ok && frame.value == old(frame.value)
  {
    hide Join, Crc16, Padded, Value, ReadHeader;
    var opening := OpenHeader(interfaceType, input, inputLength);
    if opening.Refused? {
      return opening.status;
    }
    var headerLength := HeaderLength(interfaceType);
    var length := Value(opening.payloadLength);
    var crcOffset := headerLength + length;
    if inputLength != crcOffset + 2 {
      return ErrLength;
    }
    var receivedCrc := Join(input[crcOffset], input[crcOffset + 1]);
    var expectedCrc := ComputeCrc16(input, crcOffset);
    assert input[..inputLength][..crcOffset] == input[..crcOffset];
    if receivedCrc != expectedCrc {
      return ErrChecksum;
    }
    assert input[headerLength..crcOffset] == input[..inputLength][headerLength..crcOffset];
    var payload := CopyPayload(input, headerLength, length);
    frame.value := Frame(interfaceType, opening.messageId, opening.sequence, opening.payloadLength, payload);
    status := Ok;
  }
}

/**
 The 24-byte telemetry record: its bytes, and a decoder written from the record
 layout alone, which gets every field back.
 */
module Telemetry {
  import opened Words
  import opened Crc
  import opened CrcResidue
  import opened ControllerModel

  const TELEMETRY_SIZE: nat := 24

  function ModeByte(mode: Mode): bv8 {
    match mode
    case Init => 0
    case Operational => 1
    case Degraded => 2
    case Safe => 3
  }

  /** A 16-bit number as two bytes. */
  function Number(v: u16): (b: seq<bv8>)
    ensures |b| == 2
  {
    Be16(Word(v))
  }

  /** Sequence, mode, reserved byte and fault bitmap. */
  function Status8(s: State): (b: seq<bv8>)
    ensures |b| == 8
  {
    Number(s.telemetrySequence) + [ModeByte(s.mode), 0] + Be32(s.faults)
  }

  /** Setpoint and register zero. */
  function Values4(s: State): (b: seq<bv8>)
    ensures |b| == 4
  {
    Number(FromSigned(s.setpoint)) + Be16(s.registers[0] as bv16)
  }

  /** The five interface counters, truncated to 16 bits. */
  function Counts10(c: Counters): (b: seq<bv8>)
    ensures |b| == 10
  {
    Number(Low16(c.uart)) + Number(Low16(c.spi)) + Number(Low16(c.can))
    + Number(Low16(c.ethernet)) + Number(Low16(c.rejected))
  }

  function Fields(s: State): (b: seq<bv8>)
    ensures |b| == 22
  {
    Status8(s) + Values4(s) + Counts10(s.counters)
  }

  /** The record of a state. */
  function Record(s: State): (b: seq<bv8>)
    ensures |b| == TELEMETRY_SIZE
  {
    Fields(s) + Be16(Crc16(Fields(s)))
  }

  // The reader's side.

  datatype Report = Report(
    sequence: u16,
    mode: Mode,
    faults: bv32,
    setpoint: i16,
    register0: bv8,
    uart: u16,
    spi: u16,
    can: u16,
    ethernet: u16,
    rejected: u16)

  datatype Reading = Valid(report: Report) | Corrupt

  /** The big-endian 16-bit number at an offset. */
  function NumberAt(b: seq<bv8>, at: nat): u16
    requires at + 2 <= |b|
  {
    IntOf(b[at]) * 0x100 + IntOf(b[at + 1])
  }

  function WordAt32(b: seq<bv8>, at: nat): bv32
    requires at + 4 <= |b|
  {
    ((b[at] as bv32) << 24) | ((b[at + 1] as bv32) << 16) | ((b[at + 2] as bv32) << 8) | (b[at + 3] as bv32)
  }

  /** Reads a record by the documented layout; a wrong length, CRC residue, mode or
      reserved byte makes it corrupt. */
  function Read(b: seq<bv8>): Reading {
    if |b| != TELEMETRY_SIZE || Crc16(b) != 0 || b[2] > 3 || b[3] != 0 || b[10] != 0 then Corrupt
    else
      Valid(Report(
        NumberAt(b, 0),
        if b[2] == 0 then Init else if b[2] == 1 then Operational else if b[2] == 2 then Degraded else Safe,
        WordAt32(b, 4),
        ToSigned(NumberAt(b, 8)),
        b[11],
        NumberAt(b, 12), NumberAt(b, 14), NumberAt(b, 16), NumberAt(b, 18), NumberAt(b, 20)))
  }

  lemma NumberReads(v: u16)
    ensures NumberAt(Number(v), 0) == v
  {
    WordValue(v);
  }

  lemma Be32Reads(w: bv32)
    ensures WordAt32(Be32(w), 0) == w
  {
  }

  lemma ByteAsWord(b: bv8)
    ensures Be16(b as bv16) == [0, b]
  {
  }

  /** The number at an offset depends only on its two bytes. */
  lemma NumberWithin(b: seq<bv8>, at: nat, v: u16)
    requires at + 2 <= |b| && b[at..at + 2] == Number(v)
    ensures NumberAt(b, at) == v
  {
    hide IntOf, Hi, Lo, Word;
    NumberReads(v);
    assert b[at] == b[at..at + 2][0] && b[at + 1] == b[at..at + 2][1];
  }

  lemma StatusReads(s: State)
    ensures var b := Status8(s);
      NumberAt(b, 0) == s.telemetrySequence && b[2] == ModeByte(s.mode) && b[3] == 0
      && WordAt32(b, 4) == s.faults
  {
    hide IntOf, Hi, Lo, Word;
    var b := Status8(s);
    NumberWithin(b, 0, s.telemetrySequence);
    Be32Reads(s.faults);
    assert b[4..8] == Be32(s.faults);
    WordWithin(b, 4, s.faults);
  }

  lemma WordWithin(b: seq<bv8>, at: nat, w: bv32)
    requires at + 4 <= |b| && b[at..at + 4] == Be32(w)
    ensures WordAt32(b, at) == w
  {
    hide Be32;
    var c := Be32(w);
    Be32Reads(w);
    assert b[at..at + 4][0] == b[at] && b[at..at + 4][1] == b[at + 1];
    assert b[at..at + 4][2] == b[at + 2] && b[at..at + 4][3] == b[at + 3];
  }

  lemma ValuesRead(s: State)
    ensures var b := Values4(s);
      NumberAt(b, 0) == FromSigned(s.setpoint) && b[2] == 0 && b[3] == s.registers[0]
  {
    hide IntOf, Hi, Lo, Word, NumberAt, Number, FromSigned;
    var b := Values4(s);
    ByteAsWord(s.registers[0]);
    NumberWithin(b, 0, FromSigned(s.setpoint));
  }

  lemma CountsRead(c: Counters)
    ensures var b := Counts10(c);
      && NumberAt(b, 0) == Low16(c.uart) && NumberAt(b, 2) == Low16(c.spi)
      && NumberAt(b, 4) == Low16(c.can) && NumberAt(b, 6) == Low16(c.ethernet)
      && NumberAt(b, 8) == Low16(c.rejected)
  {
    hide IntOf, Hi, Lo, Word, NumberAt, Number, Low16;
    var b := Counts10(c);
    NumberWithin(b, 0, Low16(c.uart));
    NumberWithin(b, 2, Low16(c.spi));
    NumberWithin(b, 4, Low16(c.can));
    NumberWithin(b, 6, Low16(c.ethernet));
    NumberWithin(b, 8, Low16(c.rejected));
  }

  lemma ModeReads(mode: Mode)
    ensures ModeByte(mode) <= 3
    ensures mode == if ModeByte(mode) == 0 then Init else if ModeByte(mode) == 1 then Operational
                    else if ModeByte(mode) == 2 then Degraded else Safe
  {
  }

  lemma SignedRoundTrip(v: i16)
    ensures ToSigned(FromSigned(v)) == v
  {
  }

  /** Every record reads back: all fields, counters modulo 65,536, and the CRC over
      the whole record leaves residue 0. */
  lemma RecordReads(s: State)
    ensures Crc16(Record(s)) == 0
    ensures Read(Record(s)) == Valid(Report(
      s.telemetrySequence, s.mode, s.faults, s.setpoint, s.registers[0],
      s.counters.uart % 0x1_0000, s.counters.spi % 0x1_0000, s.counters.can % 0x1_0000,
      s.counters.ethernet % 0x1_0000, s.counters.rejected % 0x1_0000))
  {
    hide IntOf, Register, Status8, Values4, Counts10, ModeByte, Hi, Lo;
    var b := Record(s);
    OwnCrcClears(Fields(s));
    StatusReads(s);
    ValuesRead(s);
    CountsRead(s.counters);
    ModeReads(s.mode);
    SignedRoundTrip(s.setpoint);
    forall i | 0 <= i < 8 ensures b[i] == Status8(s)[i] {
    }
    forall i | 8 <= i < 12 ensures b[i] == Values4(s)[i - 8] {
    }
    forall i | 12 <= i < 22 ensures b[i] == Counts10(s.counters)[i - 12] {
    }
  }
}

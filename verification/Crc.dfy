/**
 The CRC-16 loop of `src/crc.c`: one register step, the byte step made of eight
 of them, and the method with the two nested loops.
 */
module Crc {

  /** One pass of the inner loop: shift left, reduce when the top bit falls out. */
  function ShiftBit(r: bv16): bv16 {
    if r & 0x8000 != 0 then (r << 1) ^ 0x1021 else r << 1
  }

  /** `n` passes of the inner loop. */
  function ShiftN(r: bv16, n: nat): bv16
    decreases n
  {
    if n == 0 then r else ShiftBit(ShiftN(r, n - 1))
  }

  /** One pass of the outer loop. */
  function FeedByte(r: bv16, b: bv8): bv16 {
    ShiftN(r ^ ((b as bv16) << 8), 8)
  }

  /** The register after the bytes of `data`, starting from `r`. */
  function Register(r: bv16, data: seq<bv8>): bv16
    decreases |data|
  {
    if data == [] then r else FeedByte(Register(r, data[..|data| - 1]), data[|data| - 1])
  }

  const PRESET: bv16 := 0xffff

  function Crc16(data: seq<bv8>): bv16 {
    Register(PRESET, data)
  }

  /** The nested loops of `esqh_crc16`. */
  method ComputeCrc16(data: array<bv8>, length: nat) returns (crc: bv16)
    requires length <= data.Length
    ensures crc == Crc16(data[..length])
  {
    crc := 0xffff;
    for index := 0 to length
      invariant crc == Crc16(data[..index])
    {
      crc := crc ^ ((data[index] as bv16) << 8);
      ghost var start := crc;
      for bit := 0 to 8
        invariant crc == ShiftN(start, bit)
      {
        crc := ShiftBit(crc);
      }
      assert data[..index + 1][..index] == data[..index];
    }
  }

  /** The CRC of no bytes, and of a single zero byte. */
  lemma KnownAnswers()
    ensures Crc16([]) == 0xffff && Crc16([0x00]) == 0xe1f0
  {
    assert [0x00 as bv8][..0] == [];
  }

  /** Feeding two messages one after the other. */
  lemma {:induction false} RegisterAppend(r: bv16, a: seq<bv8>, b: seq<bv8>)
    ensures Register(r, a + b) == Register(Register(r, a), b)
    decreases |b|
  {
    if b == [] {
      assert a + b == a;
    } else {
      var front := b[..|b| - 1];
      assert (a + b)[..|a + b| - 1] == a + front;
      RegisterAppend(r, a, front);
    }
  }

  lemma {:induction false} ShiftAdd(r: bv16, m: nat, n: nat)
    ensures ShiftN(r, m + n) == ShiftN(ShiftN(r, m), n)
    decreases n
  {
    if n == 0 {
    } else {
      ShiftAdd(r, m, n - 1);
    }
  }
}

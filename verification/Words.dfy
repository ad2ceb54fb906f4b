/**
 Fixed-width machine integers of the C core.

 Values that the C code shifts, masks or sends over the wire are bit-vectors
 (`bv8`, `bv16`, `bv32`), so wrap-around and truncation are those of C. Counters
 and clocks are bounded integers whose wrap-around is written out.
 */
module Words {

  const TWO_TO_THE_16: int := 0x1_0000
  const TWO_TO_THE_32: int := 0x1_0000_0000

  type u8 = x: int | 0 <= x < 0x100
  type u16 = x: int | 0 <= x < TWO_TO_THE_16
  type u32 = x: int | 0 <= x < TWO_TO_THE_32
  type i16 = x: int | -0x8000 <= x < 0x8000

  // Words on the wire, most significant byte first.

  function Hi(w: bv16): bv8 {
    (w >> 8) as bv8
  }

  function Lo(w: bv16): bv8 {
    (w & 0xff) as bv8
  }

  /** The two bytes that `write_u16` stores. */
  function Be16(w: bv16): seq<bv8> {
    [Hi(w), Lo(w)]
  }

  /** The bytes that `write_u32` stores. */
  function Be32(w: bv32): seq<bv8> {
    [((w >> 24) & 0xff) as bv8, ((w >> 16) & 0xff) as bv8, ((w >> 8) & 0xff) as bv8, (w & 0xff) as bv8]
  }

  /** The word that `read_u16` assembles from two bytes. */
  function Join(hi: bv8, lo: bv8): bv16 {
    ((hi as bv16) << 8) | (lo as bv16)
  }

  /** Writing back what was read. */
  lemma JoinSplits(hi: bv8, lo: bv8)
    ensures Hi(Join(hi, lo)) == hi && Lo(Join(hi, lo)) == lo
  {
  }

  /** Reading back what was written. */
  lemma SplitJoins(w: bv16)
    ensures Join(Hi(w), Lo(w)) == w
  {
  }

  // Words and bytes as numbers.

  function IntOf(b: bv8): u8 {
    b as int
  }

  /** The byte with a given value, counted up from zero: the verifier handles
      an increment far more cheaply than a cast from an integer. */
  function ByteOf(v: u8): (b: bv8)
    ensures IntOf(b) == v
  {
    if v == 0 then 0 else ByteOf(v - 1) + 1
  }

  /** Unsigned value of a word. */
  function Value(w: bv16): u16 {
    IntOf(Hi(w)) * 0x100 + IntOf(Lo(w))
  }

  /** The word with a given unsigned value. */
  function Word(v: u16): bv16 {
    Join(ByteOf(v / 0x100), ByteOf(v % 0x100))
  }

  lemma WordValue(v: u16)
    ensures Value(Word(v)) == v
  {
    JoinSplits(ByteOf(v / 0x100), ByteOf(v % 0x100));
  }

  /** The low 16 bits of a 32-bit counter: the cast `(uint16_t)value`. */
  function Low16(v: u32): u16 {
    v % TWO_TO_THE_16
  }

  /** Two's-complement bit pattern of a signed 16-bit value: `(uint16_t)value`. */
  function FromSigned(v: i16): u16 {
    if v < 0 then v + TWO_TO_THE_16 else v
  }

  /** The signed value of a 16-bit pattern. */
  function ToSigned(v: u16): i16 {
    if v >= 0x8000 then v - TWO_TO_THE_16 else v
  }

  /** `x++` on a uint32_t. */
  function Next32(x: u32): u32 {
    (x + 1) % TWO_TO_THE_32
  }

  /** `a - b` on uint32_t. */
  function Sub32(a: u32, b: u32): u32 {
    (a - b) % TWO_TO_THE_32
  }
}

/**
 What the CRC register computes: the remainder of a polynomial division over
 GF(2) by x^16 + x^12 + x^5 + 1, the generator of ITU-T Recommendation V.41,
 section 2.

 A polynomial is the list of its coefficients from the highest power down.
 */
module CrcPolynomial {
  import opened BitStrings
  import opened Crc
  import opened CrcAlgebra

  /** The i-th coefficient, zero outside the list. */
  predicate Coef(p: seq<bool>, i: int) {
    0 <= i < |p| && p[i]
  }

  /** x^(16-k) * q, as a polynomial with |q| + 16 coefficients. */
  function Place(q: seq<bool>, k: nat): (p: seq<bool>)
    ensures |p| == |q| + 16
  {
    seq(|q| + 16, i => Coef(q, i - k))
  }

  /** (x^16 + x^12 + x^5 + 1) * q. */
  function TimesG(q: seq<bool>): (p: seq<bool>)
    ensures |p| == |q| + 16
  {
    Xor(Xor(Place(q, 0), Place(q, 4)), Xor(Place(q, 11), Place(q, 16)))
  }

  /** preset * x^|m| + m * x^16. */
  function Dividend(preset: Reg, m: seq<bool>): (p: seq<bool>)
    ensures |p| == |m| + 16
  {
    seq(|m| + 16, i => Coef(m, i) != Coef(preset, i))
  }

  /** `r` is `p` modulo the generator: they differ by a multiple of it, and `r`
      has degree below 16. */
  ghost predicate IsRemainder(p: seq<bool>, r: Reg)
    requires |p| >= 16
  {
    exists q: seq<bool> :: |q| + 16 == |p| && TimesG(q) == Xor(p, Zeros(|p| - 16) + r)
  }

  /** The quotient: the bits that fall out of the register, with the message added. */
  function Quotient(s: Reg, m: seq<bool>): (q: seq<bool>)
    ensures |q| == |m|
    decreases |m|
  {
    if m == [] then [] else
    var front := m[..|m| - 1];
    Quotient(s, front) + [FeedAll(s, front)[0] != m[|m| - 1]]
  }

  /** The division identity at one coefficient. */
  predicate DividesAt(s: Reg, m: seq<bool>, q: seq<bool>, r: Reg, i: int)
    requires |q| == |m|
    requires 0 <= i < |m| + 16
  {
    TimesG(q)[i] == (Dividend(s, m)[i] != Coef(r, i - |m|))
  }

  lemma XorSwap(a: seq<bool>, b: seq<bool>, c: seq<bool>, d: seq<bool>)
    requires |a| == |b| == |c| == |d|
    ensures Xor(Xor(a, b), Xor(c, d)) == Xor(Xor(a, c), Xor(b, d))
  {
  }

  lemma PlaceLinear(a: seq<bool>, b: seq<bool>, k: nat)
    requires |a| == |b|
    ensures Place(Xor(a, b), k) == Xor(Place(a, k), Place(b, k))
  {
    forall i | 0 <= i < |a| + 16
      ensures Place(Xor(a, b), k)[i] == Xor(Place(a, k), Place(b, k))[i]
    {
      assert Coef(Xor(a, b), i - k) == (Coef(a, i - k) != Coef(b, i - k));
    }
  }

  lemma TimesGLinear(a: seq<bool>, b: seq<bool>)
    requires |a| == |b|
    ensures TimesG(Xor(a, b)) == Xor(TimesG(a), TimesG(b))
  {
    hide Xor, Place;
    PlaceLinear(a, b, 0);
    PlaceLinear(a, b, 4);
    PlaceLinear(a, b, 11);
    PlaceLinear(a, b, 16);
    XorSwap(Place(a, 0), Place(b, 0), Place(a, 4), Place(b, 4));
    XorSwap(Place(a, 11), Place(b, 11), Place(a, 16), Place(b, 16));
    XorSwap(Xor(Place(a, 0), Place(a, 4)), Xor(Place(b, 0), Place(b, 4)),
            Xor(Place(a, 11), Place(a, 16)), Xor(Place(b, 11), Place(b, 16)));
  }

  lemma TimesGShift(q: seq<bool>)
    ensures TimesG(q + [false]) == TimesG(q) + [false]
  {
    assert forall j :: Coef(q + [false], j) == Coef(q, j);
  }

  /** The multiple whose factor is a single lowest term. */
  lemma TimesGLast(n: nat, f: bool, i: int)
    requires 0 <= i <= n + 16
    ensures TimesG(Zeros(n) + [f])[i]
         == (f && (i == n || i == n + 4 || i == n + 11 || i == n + 16))
  {
    var q := Zeros(n) + [f];
    assert forall j :: Coef(q, j) == (f && j == n);
  }

  lemma TimesGAppend(q: seq<bool>, f: bool, i: int)
    requires 0 <= i <= |q| + 16
    ensures TimesG(q + [f])[i]
         == (Coef(TimesG(q), i)
             != (f && (i == |q| || i == |q| + 4 || i == |q| + 11 || i == |q| + 16)))
  {
    hide TimesG;
    var last := Zeros(|q|) + [f];
    assert q + [f] == Xor(q + [false], last);
    TimesGLinear(q + [false], last);
    TimesGShift(q);
    TimesGLast(|q|, f, i);
  }

  lemma DividendAppend(s: Reg, m: seq<bool>, b: bool, i: int)
    requires 0 <= i <= |m| + 16
    ensures Dividend(s, m + [b])[i] == (Coef(Dividend(s, m), i) != (b && i == |m|))
  {
    assert i != |m| ==> Coef(m + [b], i) == Coef(m, i);
  }

  lemma FeedCoef(r: Reg, b: bool, k: int)
    requires k <= 16
    ensures Coef(Feed(r, b), k - 1)
         == (k != 0 && (Coef(r, k) != ((r[0] != b) && (k == 4 || k == 11 || k == 16))))
  {
    var t := r[0 := r[0] != b];
    if 1 <= k {
      assert Coef(Feed(r, b), k - 1) == ((k < 16 && t[k]) != (t[0] && Tap(k - 1)));
    }
  }

  /** One more message bit extends the division by one coefficient. */
  lemma DivideStep(s: Reg, m: seq<bool>, b: bool, q: seq<bool>, r: Reg, i: int)
    requires |q| == |m|
    requires 0 <= i <= |m| + 16
    requires i < |m| + 16 ==> DividesAt(s, m, q, r, i)
    ensures DividesAt(s, m + [b], q + [r[0] != b], Feed(r, b), i)
  {
    hide TimesG, Dividend, Feed;
    TimesGAppend(q, r[0] != b, i);
    DividendAppend(s, m, b, i);
    FeedCoef(r, b, i - |m|);
  }

  lemma DivideNothing(s: Reg, i: int)
    requires 0 <= i < 16
    ensures DividesAt(s, [], [], s, i)
  {
  }

  lemma {:induction false} Divide(s: Reg, m: seq<bool>, i: int)
    requires 0 <= i < |m| + 16
    ensures DividesAt(s, m, Quotient(s, m), FeedAll(s, m), i)
    decreases |m|
  {
    hide DividesAt, Feed;
    if m == [] {
      DivideNothing(s, i);
    } else {
      var n := |m| - 1;
      var front := m[..n];
      var q, r := Quotient(s, front), FeedAll(s, front);
      if i < n + 16 {
        Divide(s, front, i);
      }
      assert m == front + [m[n]];
      DivideStep(s, front, m[n], q, r, i);
    }
  }

  /** The register holds the remainder of the division. */
  lemma FeedAllIsRemainder(s: Reg, m: seq<bool>)
    ensures IsRemainder(Dividend(s, m), FeedAll(s, m))
  {
    var p, q, r := Dividend(s, m), Quotient(s, m), FeedAll(s, m);
    forall i | 0 <= i < |p| ensures TimesG(q)[i] == Xor(p, Zeros(|m|) + r)[i] {
      Divide(s, m, i);
    }
    assert TimesG(q) == Xor(p, Zeros(|p| - 16) + r);
  }

  // Uniqueness of the remainder.

  /** The leading coefficients of a multiple determine the factor. */
  lemma {:induction false} LeadingZeros(q: seq<bool>, i: nat)
    requires forall j | 0 <= j < |q| :: !TimesG(q)[j]
    requires i <= |q|
    ensures forall j | 0 <= j < i :: !q[j]
    decreases i
  {
    if i == 0 {
    } else {
      LeadingZeros(q, i - 1);
      assert !TimesG(q)[i - 1];
    }
  }

  lemma RemainderUnique(p: seq<bool>, r: Reg, r': Reg)
    requires |p| >= 16 && IsRemainder(p, r) && IsRemainder(p, r')
    ensures r == r'
  {
    var n := |p| - 16;
    var q: seq<bool> :| |q| + 16 == |p| && TimesG(q) == Xor(p, Zeros(n) + r);
    var q': seq<bool> :| |q'| + 16 == |p| && TimesG(q') == Xor(p, Zeros(n) + r');
    var d := Xor(q, q');
    TimesGLinear(q, q');
    forall j | 0 <= j < n ensures !TimesG(d)[j] {
      assert TimesG(q)[j] == p[j] && TimesG(q')[j] == p[j];
    }
    LeadingZeros(d, n);
    forall i | 0 <= i < 16 ensures r[i] == r'[i] {
      assert !TimesG(d)[n + i];
      assert TimesG(q)[n + i] == (p[n + i] != r[i]);
      assert TimesG(q')[n + i] == (p[n + i] != r'[i]);
    }
  }

  /** Sixteen ones: x^15 + x^14 + ... + 1. */
  const ALL_ONES: Reg := [true, true, true, true, true, true, true, true,
                          true, true, true, true, true, true, true, true]

  lemma PresetBits()
    ensures RegBits(PRESET) == ALL_ONES
  {
    hide BitOf;
    HighOnes();
    LowOnes();
  }

  lemma HighOnes()
    ensures BitOf(PRESET, 0) && BitOf(PRESET, 1) && BitOf(PRESET, 2) && BitOf(PRESET, 3)
    ensures BitOf(PRESET, 4) && BitOf(PRESET, 5) && BitOf(PRESET, 6) && BitOf(PRESET, 7)
  {
  }

  lemma LowOnes()
    ensures BitOf(PRESET, 8) && BitOf(PRESET, 9) && BitOf(PRESET, 10) && BitOf(PRESET, 11)
    ensures BitOf(PRESET, 12) && BitOf(PRESET, 13) && BitOf(PRESET, 14) && BitOf(PRESET, 15)
  {
  }

  /** `esqh_crc16` is exactly the remainder of preset * x^(8n) + message * x^16, where the
      preset has all sixteen coefficients set. */
  lemma CrcIsRemainder(data: seq<bv8>, r: bv16)
    ensures r == Crc16(data) <==> IsRemainder(Dividend(ALL_ONES, BitString(data)), RegBits(r))
  {
    hide RegBits, Register, BitString, ALL_ONES, PRESET;
    var m := BitString(data);
    PresetBits();
    RegisterFeeds(PRESET, data);
    FeedAllIsRemainder(RegBits(PRESET), m);
    if IsRemainder(Dividend(RegBits(PRESET), m), RegBits(r)) {
      RemainderUnique(Dividend(RegBits(PRESET), m), RegBits(r), RegBits(Crc16(data)));
      RegBitsInjective(r, Crc16(data));
    }
  }

  // Multiples of the generator are never short.

  lemma FirstSet(q: seq<bool>) returns (f: nat)
    requires q != Zeros(|q|)
    ensures f < |q| && q[f] && forall j | 0 <= j < f :: !q[j]
  {
    assert exists j :: 0 <= j < |q| && q[j];
    f := 0;
    while !q[f]
      invariant f < |q|
      invariant forall j | 0 <= j < f :: !q[j]
      invariant exists j :: f <= j < |q| && q[j]
      decreases |q| - f
    {
      f := f + 1;
    }
  }

  lemma LastSet(q: seq<bool>) returns (l: nat)
    requires q != Zeros(|q|)
    ensures l < |q| && q[l] && forall j | l < j < |q| :: !q[j]
  {
    var i: nat :| i < |q| && q[i];
    l := |q| - 1;
    while !q[l]
      invariant i <= l < |q|
      invariant forall j | l < j < |q| :: !q[j]
      decreases l
    {
      l := l - 1;
    }
  }

  /** The first and last terms of a non-zero multiple are at least 16 powers apart. */
  lemma MultipleSpan(q: seq<bool>) returns (f: nat, l: nat)
    requires q != Zeros(|q|)
    ensures f + 16 <= l < |q| + 16 && TimesG(q)[f] && TimesG(q)[l]
  {
    f := FirstSet(q);
    var k := LastSet(q);
    l := k + 16;
    assert TimesG(q)[f] == q[f];
    assert TimesG(q)[l] == q[k];
  }
}

/**
 The order of Python strings, and sorting by a strict order.
 */
module Ordering {

  // Strings.

  /** Lexicographic order by code point. */
  predicate Less(a: string, b: string)
    decreases |a|
  {
    if b == [] then false
    else if a == [] then true
    else a[0] < b[0] || (a[0] == b[0] && Less(a[1..], b[1..]))
  }

  lemma {:induction false} LessIrreflexive(a: string)
    ensures !Less(a, a)
    decreases |a|
  {
    if a == [] {
    } else {
      LessIrreflexive(a[1..]);
    }
  }

  lemma {:induction false} LessTransitive(a: string, b: string, c: string)
    requires Less(a, b) && Less(b, c)
    ensures Less(a, c)
    decreases |a|
  {
    if a == [] || a[0] != b[0] || b[0] != c[0] {
    } else {
      LessTransitive(a[1..], b[1..], c[1..]);
    }
  }

  lemma {:induction false} LessTotal(a: string, b: string)
    ensures a == b || Less(a, b) || Less(b, a)
    decreases |a|
  {
    if a == [] || b == [] || a[0] != b[0] {
    } else {
      LessTotal(a[1..], b[1..]);
      assert a == [a[0]] + a[1..] && b == [b[0]] + b[1..];
    }
  }

  /** Smaller means: a proper prefix, or smaller at the first difference. */
  lemma {:induction false} LessIff(a: string, b: string)
    ensures Less(a, b)
       <==> exists k | 0 <= k <= |a| && k < |b| ::
              a[..k] == b[..k] && (k == |a| || a[k] < b[k])
    decreases |a|
  {
    if b == [] {
    } else if a == [] {
      assert a[..0] == b[..0];
    } else {
      LessIff(a[1..], b[1..]);
      if Less(a, b) {
        if a[0] < b[0] {
          assert a[..0] == b[..0];
        } else {
          var k :| 0 <= k <= |a[1..]| && k < |b[1..]|
                   && a[1..][..k] == b[1..][..k] && (k == |a[1..]| || a[1..][k] < b[1..][k]);
          PrefixGrows(a, b, k);
        }
      }
      if k :| 0 <= k <= |a| && k < |b| && a[..k] == b[..k] && (k == |a| || a[k] < b[k]) {
        if k > 0 {
          assert a[..k][0] == a[0] && b[..k][0] == b[0];
          PrefixGrows(a, b, k - 1);
        }
      }
    }
  }

  lemma PrefixGrows(a: string, b: string, k: nat)
    requires a != [] && b != [] && a[0] == b[0] && k <= |a| - 1 && k <= |b| - 1
    ensures a[1..][..k] == b[1..][..k] <==> a[..k + 1] == b[..k + 1]
  {
    assert a[..k + 1] == [a[0]] + a[1..][..k];
    assert b[..k + 1] == [b[0]] + b[1..][..k];
  }

  // Sorting.

  ghost predicate StrictOrder<T(!new)>(less: (T, T) -> bool) {
    && (forall x :: !less(x, x))
    && (forall x, y, z :: less(x, y) && less(y, z) ==> less(x, z))
  }

  predicate StrictlySorted<T>(xs: seq<T>, less: (T, T) -> bool) {
    forall i, j | 0 <= i < j < |xs| :: less(xs[i], xs[j])
  }

  /** Any two positions hold comparable elements. */
  predicate Comparable<T>(xs: seq<T>, less: (T, T) -> bool) {
    forall i, j | 0 <= i < j < |xs| :: less(xs[i], xs[j]) || less(xs[j], xs[i])
  }

  function Insert<T>(x: T, xs: seq<T>, less: (T, T) -> bool): seq<T>
    decreases |xs|
  {
    if xs == [] then [x]
    else if less(x, xs[0]) then [x] + xs
    else [xs[0]] + Insert(x, xs[1..], less)
  }

  /** `sorted`: a stable sort. */
  function Sort<T>(xs: seq<T>, less: (T, T) -> bool): seq<T>
    decreases |xs|
  {
    if xs == [] then [] else Insert(xs[|xs| - 1], Sort(xs[..|xs| - 1], less), less)
  }

  lemma {:induction false} InsertElements<T>(x: T, xs: seq<T>, less: (T, T) -> bool)
    ensures multiset(Insert(x, xs, less)) == multiset(xs) + multiset{x}
    decreases |xs|
  {
    if xs == [] {
    } else {
      assert xs == [xs[0]] + xs[1..];
      InsertElements(x, xs[1..], less);
    }
  }

  lemma {:induction false} SortElements<T>(xs: seq<T>, less: (T, T) -> bool)
    ensures multiset(Sort(xs, less)) == multiset(xs)
    decreases |xs|
  {
    if xs == [] {
    } else {
      var n := |xs| - 1;
      assert xs == xs[..n] + [xs[n]];
      SortElements(xs[..n], less);
      InsertElements(xs[n], Sort(xs[..n], less), less);
    }
  }

  lemma {:induction false} InsertSorted<T(!new)>(x: T, xs: seq<T>, less: (T, T) -> bool)
    requires StrictOrder(less) && StrictlySorted(xs, less)
    requires forall y | y in xs :: less(x, y) || less(y, x)
    ensures StrictlySorted(Insert(x, xs, less), less)
    decreases |xs|
  {
    if xs == [] {
    } else if less(x, xs[0]) {
      forall j | 0 < j <= |xs| ensures less(x, ([x] + xs)[j]) {
        assert j > 1 ==> less(xs[0], xs[j - 1]);
      }
    } else {
      var rest := Insert(x, xs[1..], less);
      InsertSorted(x, xs[1..], less);
      InsertElements(x, xs[1..], less);
      forall j | 0 <= j < |rest| ensures less(xs[0], rest[j]) {
        assert rest[j] in multiset(rest);
        assert rest[j] == x || rest[j] in xs[1..];
      }
    }
  }

  lemma {:induction false} SortSorted<T(!new)>(xs: seq<T>, less: (T, T) -> bool)
    requires StrictOrder(less) && Comparable(xs, less)
    ensures StrictlySorted(Sort(xs, less), less)
    decreases |xs|
  {
    if xs == [] {
    } else {
      var n := |xs| - 1;
      var sorted := Sort(xs[..n], less);
      SortSorted(xs[..n], less);
      SortElements(xs[..n], less);
      forall y | y in sorted ensures less(xs[n], y) || less(y, xs[n]) {
        assert y in multiset(sorted);
        assert y in xs[..n];
      }
      InsertSorted(xs[n], sorted, less);
    }
  }

  lemma SameElements<T>(s: seq<T>, t: seq<T>, x: T)
    requires multiset(s) == multiset(t) && x in s
    ensures x in t
  {
    assert x in multiset(s);
  }

  lemma HeadFirst<T>(s: seq<T>, x: T, less: (T, T) -> bool)
    requires StrictlySorted(s, less) && x in s
    ensures x == s[0] || less(s[0], x)
  {
  }

  lemma SameHead<T(!new)>(s: seq<T>, t: seq<T>, less: (T, T) -> bool)
    requires StrictOrder(less) && StrictlySorted(s, less) && StrictlySorted(t, less)
    requires s != [] && t != [] && s[0] in t && t[0] in s
    ensures s[0] == t[0]
  {
    HeadFirst(s, t[0], less);
    HeadFirst(t, s[0], less);
  }

  lemma TailElements<T>(s: seq<T>)
    requires s != []
    ensures multiset(s[1..]) == multiset(s) - multiset{s[0]}
  {
    assert s == [s[0]] + s[1..];
  }

  /** A strictly sorted sequence is determined by its elements. */
  lemma {:induction false} SortedUnique<T(!new)>(s: seq<T>, t: seq<T>, less: (T, T) -> bool)
    requires StrictOrder(less) && StrictlySorted(s, less) && StrictlySorted(t, less)
    requires multiset(s) == multiset(t)
    ensures s == t
    decreases |s|
  {
    assert |s| == |multiset(s)| == |multiset(t)| == |t|;
    if s == [] {
    } else {
      SameElements(s, t, s[0]);
      SameElements(t, s, t[0]);
      SameHead(s, t, less);
      TailElements(s);
      TailElements(t);
      SortedUnique(s[1..], t[1..], less);
      assert s == [s[0]] + s[1..] && t == [t[0]] + t[1..];
    }
  }

  /** Sorting forgets the order of its input, as long as no two elements tie. */
  lemma SortForgetsOrder<T(!new)>(xs: seq<T>, ys: seq<T>, less: (T, T) -> bool)
    requires StrictOrder(less) && Comparable(xs, less) && Comparable(ys, less)
    requires multiset(xs) == multiset(ys)
    ensures Sort(xs, less) == Sort(ys, less)
  {
    SortSorted(xs, less);
    SortSorted(ys, less);
    SortElements(xs, less);
    SortElements(ys, less);
    SortedUnique(Sort(xs, less), Sort(ys, less), less);
  }

  /** No element comes before a smaller one. */
  predicate Sorted<T>(xs: seq<T>, less: (T, T) -> bool) {
    forall i, j | 0 <= i < j < |xs| :: !less(xs[j], xs[i])
  }

  ghost predicate TotalOrder<T(!new)>(less: (T, T) -> bool) {
    StrictOrder(less) && forall x, y :: x == y || less(x, y) || less(y, x)
  }

  lemma {:induction false} SortIsSorted<T(!new)>(xs: seq<T>, less: (T, T) -> bool)
    requires TotalOrder(less)
    ensures Sorted(Sort(xs, less), less)
    decreases |xs|
  {
    if xs == [] {
    } else {
      SortIsSorted(xs[..|xs| - 1], less);
      InsertIsSorted(xs[|xs| - 1], Sort(xs[..|xs| - 1], less), less);
    }
  }

  lemma HeadLeast<T(!new)>(xs: seq<T>, j: int, less: (T, T) -> bool)
    requires StrictOrder(less) && Sorted(xs, less) && 0 <= j < |xs|
    ensures !less(xs[j], xs[0])
  {
  }

  lemma {:induction false} InsertIsSorted<T(!new)>(x: T, xs: seq<T>, less: (T, T) -> bool)
    requires TotalOrder(less) && Sorted(xs, less)
    ensures Sorted(Insert(x, xs, less), less)
    decreases |xs|
  {
    if xs == [] {
    } else if less(x, xs[0]) {
      forall j | 0 <= j < |xs| ensures !less(xs[j], x) {
        assert less(xs[j], x) && less(x, xs[0]) ==> less(xs[j], xs[0]);
        HeadLeast(xs, j, less);
      }
    } else {
      var rest := Insert(x, xs[1..], less);
      InsertIsSorted(x, xs[1..], less);
      InsertElements(x, xs[1..], less);
      forall j | 0 <= j < |rest| ensures !less(rest[j], xs[0]) {
        assert rest[j] in multiset(rest);
        assert rest[j] == x || rest[j] in xs[1..];
      }
    }
  }

  /** Each element once, in order of first occurrence. */
  function Dedup<T(==)>(xs: seq<T>): seq<T>
    decreases |xs|
  {
    if xs == [] then []
    else
      var front := Dedup(xs[..|xs| - 1]);
      var last := xs[|xs| - 1];
      if last in front then front else front + [last]
  }

  lemma {:induction false} DedupElements<T>(xs: seq<T>)
    ensures forall x :: x in Dedup(xs) <==> x in xs
    ensures forall i, j | 0 <= i < j < |Dedup(xs)| :: Dedup(xs)[i] != Dedup(xs)[j]
    decreases |xs|
  {
    if xs == [] {
    } else {
      DedupElements(xs[..|xs| - 1]);
      assert xs == xs[..|xs| - 1] + [xs[|xs| - 1]];
    }
  }

  lemma SortMembers<T>(xs: seq<T>, less: (T, T) -> bool)
    ensures forall x :: x in Sort(xs, less) <==> x in xs
  {
    SortElements(xs, less);
    forall x ensures x in Sort(xs, less) <==> x in xs {
      assert x in Sort(xs, less) <==> x in multiset(Sort(xs, less));
      assert x in xs <==> x in multiset(xs);
    }
  }

  /** Sorting what `Dedup` keeps gives a strictly sorted sequence of the same elements. */
  lemma SortedDedup<T(!new)>(xs: seq<T>, less: (T, T) -> bool)
    requires TotalOrder(less)
    ensures StrictlySorted(Sort(Dedup(xs), less), less)
    ensures forall x :: x in Sort(Dedup(xs), less) <==> x in xs
  {
    DedupElements(xs);
    SortSorted(Dedup(xs), less);
    SortMembers(Dedup(xs), less);
  }

  lemma TailMembers<T(!new)>(s: seq<T>, less: (T, T) -> bool)
    requires StrictOrder(less) && StrictlySorted(s, less) && s != []
    ensures forall x :: x in s[1..] <==> x in s && x != s[0]
    ensures StrictlySorted(s[1..], less)
  {
    assert s == [s[0]] + s[1..];
    forall k | 0 <= k < |s[1..]| ensures s[1..][k] != s[0] {
      assert less(s[0], s[k + 1]);
    }
  }

  lemma FirstMember<T>(s: seq<T>)
    requires s != []
    ensures exists x :: x in s
  {
    assert s[0] in s;
  }

  /** A strictly sorted sequence is determined by which elements it has. */
  lemma {:induction false} SortedByMembers<T(!new)>(s: seq<T>, t: seq<T>, less: (T, T) -> bool)
    requires StrictOrder(less) && StrictlySorted(s, less) && StrictlySorted(t, less)
    requires forall x :: x in s <==> x in t
    ensures s == t
    decreases |s|
  {
    if s == [] {
      if t != [] {
        FirstMember(t);
      }
    } else {
      assert s[0] in s && s[0] in t;
      assert t[0] in t;
      SameHead(s, t, less);
      TailMembers(s, less);
      TailMembers(t, less);
      SortedByMembers(s[1..], t[1..], less);
      assert s == [s[0]] + s[1..] && t == [t[0]] + t[1..];
    }
  }
}

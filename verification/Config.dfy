/**
 Configuration records of `src/config.c`: fixed-size text fields and the
 validity test.
 */
module Config {
  import opened Words

  const VERSION: string := "0.1.0"
  const BASELINE: string := "ESQH-BL-0.1.0"

  const NUL: char := '\0'

  datatype ConfigRecord = ConfigRecord(
    watchdogTimeoutMs: u16,
    minimumSetpoint: i16,
    maximumSetpoint: i16,
    enabledInterfaceMask: bv32,
    version: seq<char>,
    baseline: seq<char>)

  type Configuration = c: ConfigRecord | |c.version| == 8 && |c.baseline| == 20
    witness ConfigRecord(0, 0, 0, 0, seq(8, _ => NUL), seq(20, _ => NUL))

  /** The C string in the first `capacity` characters: everything before a NUL. */
  function Text(s: seq<char>, capacity: nat): string
    decreases capacity
  {
    if capacity == 0 || s == [] || s[0] == NUL then [] else [s[0]] + Text(s[1..], capacity - 1)
  }

  /** The text before character `i` has no NUL, and the rest follows it. */
  lemma {:induction false} TextFrom(s: seq<char>, capacity: nat, i: nat)
    requires i <= |s| && i <= capacity
    requires forall k | 0 <= k < i :: s[k] != NUL
    ensures Text(s, capacity) == s[..i] + Text(s[i..], capacity - i)
    decreases i
  {
    if i == 0 {
      assert s[0..] == s;
    } else {
      TextFrom(s[1..], capacity - 1, i - 1);
      assert s[1..][i - 1..] == s[i..];
    }
  }

  lemma SameFront(p: string, l: string, r: string)
    requires l != r
    ensures p + l != p + r
  {
    assert (p + l)[|p|..] == l && (p + r)[|p|..] == r;
  }

  lemma TextHead(s: seq<char>, capacity: nat)
    requires s != [] && capacity > 0
    ensures if s[0] == NUL then Text(s, capacity) == [] else Text(s, capacity) != [] && Text(s, capacity)[0] == s[0]
  {
  }

  /** C strings that first differ at character `i` are different. */
  lemma TextDiffers(left: seq<char>, right: seq<char>, capacity: nat, i: nat)
    requires i < |left| && i < |right| && i < capacity
    requires forall k | 0 <= k < i :: left[k] == right[k] && left[k] != NUL
    requires left[i] != right[i]
    ensures Text(left, capacity) != Text(right, capacity)
  {
    hide Text;
    TextFrom(left, capacity, i);
    TextFrom(right, capacity, i);
    TextHead(left[i..], capacity - i);
    TextHead(right[i..], capacity - i);
    assert left[..i] == right[..i];
    SameFront(left[..i], Text(left[i..], capacity - i), Text(right[i..], capacity - i));
  }

  /** `esqh_text_equal`: compares two C strings, never reading past a terminator. */
  method TextEqual(left: seq<char>, right: seq<char>, capacity: nat) returns (equal: bool)
    requires capacity <= |left| || NUL in left
    requires capacity <= |right| || NUL in right
    ensures equal <==> Text(left, capacity) == Text(right, capacity)
  {
    for index := 0 to capacity
      invariant index <= |left| && index <= |right|
      invariant forall k | 0 <= k < index :: left[k] == right[k] && left[k] != NUL
    {
      assert index < |left| by {
        if NUL in left {
          var k :| 0 <= k < |left| && left[k] == NUL;
        }
      }
      assert index < |right| by {
        if NUL in right {
          var k :| 0 <= k < |right| && right[k] == NUL;
        }
      }
      if left[index] != right[index] {
        TextDiffers(left, right, capacity, index);
        return false;
      }
      if left[index] == NUL {
        TextFrom(left, capacity, index);
        TextFrom(right, capacity, index);
        assert left[..index] == right[..index];
        return true;
      }
    }
    TextFrom(left, capacity, capacity);
    TextFrom(right, capacity, capacity);
    assert left[..capacity] == right[..capacity];
    return true;
  }

  /** `esqh_copy_text`: the destination always ends in NUL and holds as much of the
      source as fits before it. */
  method CopyText(destination: array<char>, source: seq<char>)
    requires NUL in source && destination.Length > 0
    modifies destination
    ensures destination[destination.Length - 1] == NUL
    ensures Text(destination[..], destination.Length) == Text(source, destination.Length - 1)
  {
    var capacity := destination.Length;
    var index := 0;
    while source[index] != NUL && index + 1 < capacity
      invariant index < capacity && index < |source|
      invariant forall k | 0 <= k < index :: source[k] != NUL && destination[k] == source[k]
      decreases capacity - index
    {
      destination[index] := source[index];
      index := index + 1;
      if index == |source| {
        var k :| 0 <= k < |source| && source[k] == NUL;
        assert false;
      }
    }
    ghost var n := index;
    while index < capacity
      invariant n <= index <= capacity
      invariant forall k | 0 <= k < n :: source[k] != NUL && destination[k] == source[k]
      invariant forall k | n <= k < index :: destination[k] == NUL
    {
      destination[index] := NUL;
      index := index + 1;
    }
    TextFrom(source, capacity - 1, n);
    TextFrom(destination[..], capacity, n);
    assert destination[..][..n] == source[..n];
  }

  /** Some known interface is enabled, and none unknown. */
  predicate MaskValid(mask: bv32) {
    mask & 0x0f != 0 && mask & !0x0f == 0
  }

  /** What makes a configuration acceptable. */
  predicate IsValid(c: Configuration) {
    && 1 <= c.watchdogTimeoutMs <= 1000
    && c.minimumSetpoint < c.maximumSetpoint
    && MaskValid(c.enabledInterfaceMask)
    && Text(c.version, 8) == VERSION
    && Text(c.baseline, 20) == BASELINE
  }

  lemma LiteralText(s: string, capacity: nat)
    requires NUL !in s && |s| < capacity
    ensures Text(s + [NUL], capacity) == s
  {
    TextFrom(s + [NUL], capacity, |s|);
  }

  /** A text field holds a text exactly if it starts with its characters and a NUL. */
  lemma TextIff(field: seq<char>, s: string)
    requires NUL !in s && |s| < |field|
    ensures Text(field, |field|) == s <==> field[..|s| + 1] == s + [NUL]
  {
    hide Text;
    TextPrefix(field, |field|);
    OneMore(field, s, NUL);
    if field[..|s|] == s {
      TextEnds(field, s);
    }
  }

  lemma OneMore(field: seq<char>, s: string, c: char)
    requires |s| < |field|
    ensures field[..|s| + 1] == s + [c] <==> field[..|s|] == s && field[|s|] == c
  {
    var n := |s|;
    assert field[..n + 1] == field[..n] + [field[n]];
    if field[..n + 1] == s + [c] {
      assert field[..n + 1][..n] == (s + [c])[..n] == s;
      assert field[..n + 1][n] == c;
    }
  }

  lemma TextEnds(field: seq<char>, s: string)
    requires NUL !in s && |s| < |field| && field[..|s|] == s
    ensures Text(field, |field|) == s <==> field[|s|] == NUL
  {
    hide Text;
    var n := |s|;
    assert forall k | 0 <= k < n :: field[k] == s[k];
    TextFrom(field, |field|, n);
    TextHead(field[n..], |field| - n);
    var rest := Text(field[n..], |field| - n);
    assert |s + rest| == n + |rest|;
  }

  lemma {:induction false} TextPrefix(s: seq<char>, capacity: nat)
    ensures |Text(s, capacity)| <= |s| && s[..|Text(s, capacity)|] == Text(s, capacity)
    decreases capacity
  {
    if capacity == 0 || s == [] || s[0] == NUL {
    } else {
      TextPrefix(s[1..], capacity - 1);
      assert s == [s[0]] + s[1..];
    }
  }

  predicate MaskNumbers(mask: bv32) {
    0x1 <= mask <= 0xf
  }

  predicate NumbersInRange(c: Configuration) {
    && 1 <= c.watchdogTimeoutMs <= 1000
    && c.minimumSetpoint < c.maximumSetpoint
    && MaskNumbers(c.enabledInterfaceMask)
  }

  predicate Labelled(c: Configuration) {
    c.version[..6] == "0.1.0" + ['\0'] && c.baseline[..14] == "ESQH-BL-0.1.0" + ['\0']
  }

  lemma LabelledIff(c: Configuration)
    ensures Labelled(c) <==> Text(c.version, 8) == VERSION && Text(c.baseline, 20) == BASELINE
  {
    hide Text;
    TextIff(c.version, "0.1.0");
    TextIff(c.baseline, "ESQH-BL-0.1.0");
  }

  /** What a valid configuration looks like, in numbers and characters. */
  lemma ValidIff(c: Configuration)
    ensures IsValid(c) <==> NumbersInRange(c) && Labelled(c)
  {
    hide Text, Labelled, MaskValid, MaskNumbers;
    LabelledIff(c);
    MaskIff(c.enabledInterfaceMask);
  }

  lemma MaskIff(mask: bv32)
    ensures MaskValid(mask) <==> MaskNumbers(mask)
  {
  }

  /** `esqh_config_is_valid`. */
  method CheckConfig(c: Configuration) returns (valid: bool)
    ensures valid <==> IsValid(c)
  {
    if c.watchdogTimeoutMs == 0 || c.watchdogTimeoutMs > 1000 {
      return false;
    }
    if c.minimumSetpoint >= c.maximumSetpoint {
      return false;
    }
    if c.enabledInterfaceMask & 0x0f == 0 || c.enabledInterfaceMask & !0x0f != 0 {
      return false;
    }
    hide Text;
    valid := CheckLabels(c);
  }

  /** The version and the baseline of this software. */
  method CheckLabels(c: Configuration) returns (equal: bool)
    ensures equal <==> Text(c.version, 8) == VERSION && Text(c.baseline, 20) == BASELINE
  {
    hide Text;
    LiteralText(VERSION, 8);
    LiteralText(BASELINE, 20);
    equal := TextEqual(c.version, VERSION + [NUL], 8);
    if equal {
      equal := TextEqual(c.baseline, BASELINE + [NUL], 20);
    }
  }

  /** `esqh_config_default`: the defaults are valid. */
  method DefaultConfig() returns (c: Configuration)
    ensures IsValid(c)
    ensures c.watchdogTimeoutMs == 100 && c.minimumSetpoint == -1000 && c.maximumSetpoint == 1000
    ensures c.enabledInterfaceMask == 0x0f
  {
    hide Text;
    var version := new char[8](_ => NUL);
    var baseline := new char[20](_ => NUL);
    CopyText(version, VERSION + [NUL]);
    CopyText(baseline, BASELINE + [NUL]);
    LiteralText(VERSION, 7);
    LiteralText(BASELINE, 19);
    c := ConfigRecord(100, -1000, 1000, 0x0f, version[..], baseline[..]);
  }
}

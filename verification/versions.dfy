/**
 * System.Version as the compatibility check uses it: the constructor that
 * parses "major.minor[.build[.revision]]", CompareTo, and ToString.
 * A version is the sequence of its defined components (two to four of them);
 * an undefined build or revision reads as -1.
 */
module Versions {
  import opened Wrappers
  import opened Text

  const Int32Max: nat := 2147483647

  /** The characters Int32.Parse skips before and after a number. */
  predicate IsNumberWhiteSpace(c: char) {
    ('\U{9}' <= c <= '\U{D}') || c == ' '
  }

  function DropLeading(s: string): (r: string)
    ensures r == [] || !IsNumberWhiteSpace(r[0])
    ensures |r| <= |s| && r == s[|s| - |r|..]
  {
    if |s| > 0 && IsNumberWhiteSpace(s[0]) then DropLeading(s[1..]) else s
  }

  function DropTrailing(s: string): (r: string)
    ensures r == [] || !IsNumberWhiteSpace(r[|r| - 1])
    ensures |r| <= |s| && r == s[..|r|]
  {
    if |s| > 0 && IsNumberWhiteSpace(s[|s| - 1]) then DropTrailing(s[..|s| - 1]) else s
  }

  predicate IsDigit(c: char) {
    '0' <= c <= '9'
  }

  predicate AllDigits(s: string) {
    forall i :: 0 <= i < |s| ==> IsDigit(s[i])
  }

  /** The value of a string of decimal digits. */
  function DigitsValue(s: string): nat
    requires AllDigits(s)
  {
    if |s| == 0 then 0
    else DigitsValue(s[..|s| - 1]) * 10 + (s[|s| - 1] as int - '0' as int)
  }

  /** Decimal digits within Int32. */
  function ParseUnsigned(d: string): (r: Option<nat>)
    ensures r.Some? ==> r.value <= Int32Max
  {
    if |d| > 0 && AllDigits(d) && DigitsValue(d) <= Int32Max then Some(DigitsValue(d)) else None
  }

  /** An optional sign and decimal digits; a negative value is refused, but
      "-0" is zero. */
  function ParseSigned(t: string): (r: Option<nat>)
    ensures r.Some? ==> r.value <= Int32Max
  {
    if |t| > 0 && t[0] == '-' then
      (if ParseUnsigned(t[1..]) == Some(0) then Some(0) else None)
    else if |t| > 0 && t[0] == '+' then ParseUnsigned(t[1..])
    else ParseUnsigned(t)
  }

  /** Int32.Parse with NumberStyles.Integer (white space around, an optional
      sign, decimal digits, within Int32) followed by the Version constructor's
      rejection of negative components. */
  function ParseComponent(s: string): (r: Option<nat>)
    ensures r.Some? ==> r.value <= Int32Max
  {
    ParseSigned(DropTrailing(DropLeading(s)))
  }

  function ParseComponents(parts: seq<string>): (r: Option<seq<nat>>)
    ensures r.Some? ==> |r.value| == |parts|
    ensures r.Some? ==> forall i :: 0 <= i < |parts| ==> ParseComponent(parts[i]) == Some(r.value[i])
    ensures r.None? ==> exists i :: 0 <= i < |parts| && ParseComponent(parts[i]).None?
  {
    if |parts| == 0 then Some([])
    else
      var head, tail := ParseComponent(parts[0]), ParseComponents(parts[1..]);
      if head.Some? && tail.Some? then Some([head.value] + tail.value) else None
  }

  /** new Version(s): None where the constructor throws. */
  function ParseVersion(s: string): (r: Option<seq<nat>>)
    ensures r.Some? ==> 2 <= |r.value| <= 4
    ensures r.Some? ==> forall i :: 0 <= i < |r.value| ==> r.value[i] <= Int32Max
    ensures r.Some? <==> 2 <= |Split(s, '.')| <= 4 && ParseComponents(Split(s, '.')).Some?
  {
    var parts := Split(s, '.');
    if |parts| < 2 || |parts| > 4 then None else ParseComponents(parts)
  }

  /** Component i of a version; an undefined one is -1. */
  function Component(v: seq<nat>, i: nat): int {
    if i < |v| then v[i] else -1
  }

  /** Version.CompareTo: the sign of the first differing component among
      major, minor, build and revision. */
  function CompareTo(a: seq<nat>, b: seq<nat>): (r: int)
    ensures -1 <= r <= 1
  {
    CompareFrom(a, b, 0)
  }

  function CompareFrom(a: seq<nat>, b: seq<nat>, i: nat): (r: int)
    ensures -1 <= r <= 1
    decreases 4 - i
  {
    if i >= 4 then 0
    else if Component(a, i) > Component(b, i) then 1
    else if Component(a, i) < Component(b, i) then -1
    else CompareFrom(a, b, i + 1)
  }

  /** The reference order: a is at least b when all four components agree or
      the first one that differs is larger in a. */
  ghost predicate AtLeast(a: seq<nat>, b: seq<nat>) {
    || (forall i :: 0 <= i < 4 ==> Component(a, i) == Component(b, i))
    || exists i :: 0 <= i < 4 && Component(a, i) > Component(b, i)
                   && forall j :: 0 <= j < i ==> Component(a, j) == Component(b, j)
  }

  lemma {:induction false} CompareFromOrder(a: seq<nat>, b: seq<nat>, i: nat)
    requires i <= 4
    requires forall j :: 0 <= j < i ==> Component(a, j) == Component(b, j)
    ensures CompareFrom(a, b, i) >= 0 <==> AtLeast(a, b)
    decreases 4 - i
  {
    if i < 4 {
      if Component(a, i) < Component(b, i) {
        forall k | 0 <= k < 4 && Component(a, k) > Component(b, k)
          ensures !(forall j :: 0 <= j < k ==> Component(a, j) == Component(b, j))
        {
          assert k > i;
          assert Component(a, i) != Component(b, i);
        }
      } else if Component(a, i) == Component(b, i) {
        CompareFromOrder(a, b, i + 1);
      }
    }
  }

  /** CompareTo(a, b) >= 0, the test IsCompatible applies, is exactly the
      reference order. */
  lemma CompareToOrder(a: seq<nat>, b: seq<nat>)
    ensures CompareTo(a, b) >= 0 <==> AtLeast(a, b)
  {
    CompareFromOrder(a, b, 0);
  }

  lemma {:induction false} CompareFromAntisymmetric(a: seq<nat>, b: seq<nat>, i: nat)
    ensures CompareFrom(a, b, i) == -CompareFrom(b, a, i)
    decreases 4 - i
  {
    if i < 4 && Component(a, i) == Component(b, i) {
      CompareFromAntisymmetric(a, b, i + 1);
    }
  }

  /** Swapping the operands flips the sign, so any two versions are ordered. */
  lemma CompareToAntisymmetric(a: seq<nat>, b: seq<nat>)
    ensures CompareTo(a, b) == -CompareTo(b, a)
  {
    CompareFromAntisymmetric(a, b, 0);
  }

  lemma {:induction false} CompareFromTransitive(a: seq<nat>, b: seq<nat>, c: seq<nat>, i: nat)
    requires CompareFrom(a, b, i) >= 0 && CompareFrom(b, c, i) >= 0
    ensures CompareFrom(a, c, i) >= 0
    decreases 4 - i
  {
    if i < 4 && Component(a, i) == Component(b, i) == Component(c, i) {
      CompareFromTransitive(a, b, c, i + 1);
    }
  }

  lemma CompareToTransitive(a: seq<nat>, b: seq<nat>, c: seq<nat>)
    requires CompareTo(a, b) >= 0 && CompareTo(b, c) >= 0
    ensures CompareTo(a, c) >= 0
  {
    CompareFromTransitive(a, b, c, 0);
  }

  lemma {:induction false} CompareFromDominates(a: seq<nat>, b: seq<nat>, i: nat)
    requires forall j :: i <= j < 4 ==> Component(a, j) >= Component(b, j)
    ensures CompareFrom(a, b, i) >= 0
    decreases 4 - i
  {
    if i < 4 && Component(a, i) == Component(b, i) {
      CompareFromDominates(a, b, i + 1);
    }
  }

  /** A version no component of which is smaller is at least as new. */
  lemma CompareToDominates(a: seq<nat>, b: seq<nat>)
    requires forall j :: 0 <= j < 4 ==> Component(a, j) >= Component(b, j)
    ensures CompareTo(a, b) >= 0
  {
    CompareFromDominates(a, b, 0);
  }

  /** Every version is at least 0.0. */
  lemma AtLeastZeroZero(v: seq<nat>)
    requires |v| >= 2
    ensures CompareTo(v, [0, 0]) >= 0
  {
    forall j | 0 <= j < 4 ensures Component(v, j) >= Component([0, 0], j) {
    }
    CompareToDominates(v, [0, 0]);
  }

  lemma {:induction false} CompareFromZero(a: seq<nat>, b: seq<nat>, i: nat)
    requires i <= 4
    ensures CompareFrom(a, b, i) == 0 <==> forall j :: i <= j < 4 ==> Component(a, j) == Component(b, j)
    decreases 4 - i
  {
    if i < 4 {
      CompareFromZero(a, b, i + 1);
    }
  }

  /** On versions of at most four components, CompareTo is zero exactly when
      the versions are equal: an undefined build is below a zero build. */
  lemma CompareToZero(a: seq<nat>, b: seq<nat>)
    requires |a| <= 4 && |b| <= 4
    ensures CompareTo(a, b) == 0 <==> a == b
  {
    CompareFromZero(a, b, 0);
    if CompareTo(a, b) == 0 {
      if |b| < 4 {
        assert Component(a, |b|) == Component(b, |b|);
      }
      if |a| < 4 {
        assert Component(a, |a|) == Component(b, |a|);
      }
      forall j | 0 <= j < |a| ensures a[j] == b[j] {
        assert Component(a, j) == Component(b, j);
      }
    }
  }

  /** The decimal digits of n, as Int32.ToString writes them. */
  function NatToString(n: nat): (s: string)
    ensures |s| > 0 && AllDigits(s) && DigitsValue(s) == n
  {
    var d := [(('0' as int) + n % 10) as char];
    if n < 10 then d else NatToString(n / 10) + d
  }

  function FormatComponents(v: seq<nat>): (parts: seq<string>)
    ensures |parts| == |v|
    ensures forall i :: 0 <= i < |v| ==> parts[i] == NatToString(v[i])
  {
    if |v| == 0 then [] else [NatToString(v[0])] + FormatComponents(v[1..])
  }

  /** Version.ToString: the defined components joined with dots. */
  function FormatVersion(v: seq<nat>): string {
    Join(FormatComponents(v), '.')
  }

  lemma DigitsNotStripped(s: string)
    requires |s| > 0 && AllDigits(s)
    ensures DropTrailing(DropLeading(s)) == s
  {
    assert IsDigit(s[0]) && IsDigit(s[|s| - 1]);
    assert DropLeading(s) == s;
  }

  lemma DigitsUnsigned(s: string)
    requires |s| > 0 && AllDigits(s) && DigitsValue(s) <= Int32Max
    ensures ParseSigned(s) == Some(DigitsValue(s))
  {
    assert IsDigit(s[0]);
  }

  lemma ParseDigits(s: string)
    requires |s| > 0 && AllDigits(s) && DigitsValue(s) <= Int32Max
    ensures ParseComponent(s) == Some(DigitsValue(s))
  {
    DigitsNotStripped(s);
    DigitsUnsigned(s);
  }

  lemma {:induction false} ParseFormattedComponents(v: seq<nat>)
    requires forall i :: 0 <= i < |v| ==> v[i] <= Int32Max
    ensures ParseComponents(FormatComponents(v)) == Some(v)
  {
    if |v| > 0 {
      ParseDigits(NatToString(v[0]));
      ParseFormattedComponents(v[1..]);
      assert FormatComponents(v)[1..] == FormatComponents(v[1..]);
      assert v == [v[0]] + v[1..];
    }
  }

  /** Parsing what ToString writes gives the version back. */
  lemma ParseFormat(v: seq<nat>)
    requires 2 <= |v| <= 4
    requires forall i :: 0 <= i < |v| ==> v[i] <= Int32Max
    ensures ParseVersion(FormatVersion(v)) == Some(v)
  {
    var parts := FormatComponents(v);
    forall i | 0 <= i < |parts| ensures '.' !in parts[i] {
      assert AllDigits(parts[i]);
    }
    SplitJoin(parts, '.');
    ParseFormattedComponents(v);
  }

  lemma ParseOneDigit(c: char)
    requires IsDigit(c)
    ensures ParseComponent([c]) == Some(c as int - '0' as int)
  {
    var d := [c];
    assert AllDigits(d);
    assert d[..0] == [];
    assert DigitsValue(d) == c as int - '0' as int by {
      assert DigitsValue(d[..0]) == 0;
    }
    ParseDigits(d);
  }

  lemma SplitTwoDigits(s: string)
    requires |s| == 3 && IsDigit(s[0]) && s[1] == '.' && IsDigit(s[2])
    ensures Split(s, '.') == [[s[0]], [s[2]]]
  {
    assert s == [s[0]] + ['.'] + [s[2]];
    SplitAtSeparator([s[0]], [s[2]], '.');
    SplitWithoutSeparator([s[0]], '.');
    SplitWithoutSeparator([s[2]], '.');
  }

  lemma ParseTwoComponents(a: string, b: string, x: nat, y: nat)
    requires ParseComponent(a) == Some(x) && ParseComponent(b) == Some(y)
    ensures ParseComponents([a, b]) == Some([x, y])
  {
    var parts := [a, b];
    assert parts[1..] == [b] && parts[1..][1..] == [];
    assert ParseComponents([b]) == Some([y] + []);
    assert [y] + [] == [y] && [x] + [y] == [x, y];
  }

  /** A version written as two single digits, such as "6.1". */
  lemma ParseTwoDigitVersion(s: string)
    requires |s| == 3 && IsDigit(s[0]) && s[1] == '.' && IsDigit(s[2])
    ensures ParseVersion(s) == Some([s[0] as int - '0' as int, s[2] as int - '0' as int])
  {
    SplitTwoDigits(s);
    ParseOneDigit(s[0]);
    ParseOneDigit(s[2]);
    ParseTwoComponents([s[0]], [s[2]], s[0] as int - '0' as int, s[2] as int - '0' as int);
  }

  /** "6.1", "5.1" and "5.0" are versions of two components. */
  lemma VersionExamples()
    ensures ParseVersion("6.1") == Some([6, 1])
    ensures ParseVersion("5.1") == Some([5, 1])
    ensures ParseVersion("5.0") == Some([5, 0])
  {
    ParseTwoDigitVersion("6.1");
    ParseTwoDigitVersion("5.1");
    ParseTwoDigitVersion("5.0");
  }

  /** 6.1 is at least 5.1; 5.0 is below 5.1; 6.1.7601.0 is above 6.0 and
      5.1.2600.0 below it. */
  lemma CompareExamples()
    ensures CompareTo([6, 1], [5, 1]) == 1 && CompareTo([5, 0], [5, 1]) == -1
    ensures CompareTo([6, 1, 7601, 0], [6, 0]) == 1 && CompareTo([5, 1, 2600, 0], [6, 0]) == -1
  {
    assert Component([6, 1, 7601, 0], 0) == 6 && Component([6, 0], 0) == 6;
    assert Component([6, 1, 7601, 0], 1) == 1 && Component([6, 0], 1) == 0;
    assert CompareFrom([6, 1, 7601, 0], [6, 0], 1) == 1;
    assert Component([5, 1, 2600, 0], 0) == 5;
    assert Component([6, 1], 0) == 6 && Component([5, 1], 0) == 5;
    assert Component([5, 0], 0) == 5 && Component([5, 0], 1) == 0 && Component([5, 1], 1) == 1;
    assert CompareFrom([5, 0], [5, 1], 1) == -1;
  }
}

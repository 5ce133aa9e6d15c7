/** Version ordering. The audit uses PHP's `version_compare` as its only
    source of ordering truth; here it is a parameter, a three-way comparator,
    together with the laws the audit's guarantees depend on, and one concrete
    comparator (numeric dot-separated versions) that obeys them. */
module Comparison {
  import opened PhpStrings

  /** Negative, zero or positive as the first version is older than, equal
      to or newer than the second. */
  type Comparator = (string, string) -> int

  /** Any two versions are ordered one way or the other. */
  ghost predicate Total(cmp: Comparator)
  {
    forall a, b :: cmp(a, b) <= 0 || cmp(b, a) <= 0
  }

  /** Swapping the arguments flips the sign of the answer. */
  ghost predicate Antisymmetric(cmp: Comparator)
  {
    forall a, b :: cmp(a, b) > 0 <==> cmp(b, a) < 0
  }

  /** "Not newer than" is transitive. */
  ghost predicate Transitive(cmp: Comparator)
  {
    forall a, b, c :: cmp(a, b) <= 0 && cmp(b, c) <= 0 ==> cmp(a, c) <= 0
  }

  /** The laws required of `version_compare`: a total preorder on version
      strings, in three-way form. */
  ghost predicate IsVersionOrder(cmp: Comparator)
  {
    Total(cmp) && Antisymmetric(cmp) && Transitive(cmp)
  }

  lemma Reflexive(cmp: Comparator, a: string)
    requires IsVersionOrder(cmp)
    ensures cmp(a, a) == 0
  {
    assert cmp(a, a) > 0 <==> cmp(a, a) < 0;
  }

  lemma NotNewerTransitive(cmp: Comparator, x: string, y: string, z: string)
    requires IsVersionOrder(cmp)
    requires cmp(x, y) <= 0 && cmp(y, z) <= 0
    ensures cmp(x, z) <= 0
  {
  }

  /** Not newer than `y`, while `z` is newer than `y`: older than `z`. */
  lemma OlderThanNewer(cmp: Comparator, x: string, y: string, z: string)
    requires IsVersionOrder(cmp)
    requires cmp(x, y) <= 0 && cmp(z, y) > 0
    ensures cmp(x, z) < 0
  {
  }

  /** Newer than `y`, while `y` is not older than `z`: newer than `z`. */
  lemma NewerThanOlder(cmp: Comparator, x: string, y: string, z: string)
    requires IsVersionOrder(cmp)
    requires cmp(x, y) > 0 && cmp(y, z) >= 0
    ensures cmp(x, z) > 0
  {
  }

  // ---------------------------------------------------------------- numeric dot versions

  /** Lexicographic three-way comparison of version segments; a version that
      is a proper prefix of another is older ("1.0" before "1.0.0"). */
  function LexCompare(a: seq<nat>, b: seq<nat>): (r: int)
    ensures -1 <= r <= 1
    ensures r == 0 <==> a == b
  {
    if |a| == 0 && |b| == 0 then 0
    else if |a| == 0 then -1
    else if |b| == 0 then 1
    else if a[0] < b[0] then -1
    else if a[0] > b[0] then 1
    else
      var r := LexCompare(a[1..], b[1..]);
      assert a == [a[0]] + a[1..] && b == [b[0]] + b[1..];
      r
  }

  lemma {:induction false} LexAntisymmetric(a: seq<nat>, b: seq<nat>)
    ensures LexCompare(a, b) == -LexCompare(b, a)
  {
    if |a| > 0 && |b| > 0 && a[0] == b[0] {
      LexAntisymmetric(a[1..], b[1..]);
    }
  }

  lemma {:induction false} LexTransitive(a: seq<nat>, b: seq<nat>, c: seq<nat>)
    requires LexCompare(a, b) <= 0 && LexCompare(b, c) <= 0
    ensures LexCompare(a, c) <= 0
  {
    if |a| > 0 && |b| > 0 && |c| > 0 && a[0] == b[0] == c[0] {
      LexTransitive(a[1..], b[1..], c[1..]);
    }
  }

  /** The numeric value of each dot-separated segment of `v`. */
  function Segments(v: string): (segs: seq<nat>)
    ensures |segs| == 1 + Occurrences('.', v)
  {
    var pieces := Explode('.', v);
    seq(|pieces|, i requires 0 <= i < |pieces| => DigitsValue(pieces[i]))
  }

  /** A concrete comparator: versions compared segment by segment as
      numbers, so "2.10" is newer than "2.9". Pre-release words such as
      "dev" or "RC" carry no special meaning here. */
  function NumericDotCompare(a: string, b: string): int
  {
    LexCompare(Segments(a), Segments(b))
  }

  /** The numeric dot comparator obeys the laws asked of `version_compare`. */
  lemma {:induction false} NumericDotIsVersionOrder()
    ensures IsVersionOrder(NumericDotCompare)
  {
    forall a, b
      ensures NumericDotCompare(a, b) > 0 <==> NumericDotCompare(b, a) < 0
    {
      LexAntisymmetric(Segments(a), Segments(b));
    }
    forall a, b
      ensures NumericDotCompare(a, b) <= 0 || NumericDotCompare(b, a) <= 0
    {
      LexAntisymmetric(Segments(a), Segments(b));
    }
    forall a, b, c | NumericDotCompare(a, b) <= 0 && NumericDotCompare(b, c) <= 0
      ensures NumericDotCompare(a, c) <= 0
    {
      LexTransitive(Segments(a), Segments(b), Segments(c));
    }
  }

  lemma {:induction false} SegmentsOfTwoPart(major: string, minor: string)
    requires '.' !in major && '.' !in minor
    ensures Segments(major + ['.'] + minor) == [DigitsValue(major), DigitsValue(minor)]
  {
    ExplodePrefix('.', major, minor);
    ExplodeNoSeparator('.', minor);
  }

  /** Segments are compared as numbers, not as text. */
  lemma {:induction false} TwoTenIsNewerThanTwoNine()
    ensures NumericDotCompare("2.10", "2.9") > 0
  {
    assert DigitsValue("2") == 2 by { assert "2"[..0] == ""; }
    assert DigitsValue("9") == 9 by { assert "9"[..0] == ""; }
    assert DigitsValue("10") == 10 by {
      assert "10"[..1] == "1" && "1"[..0] == "";
    }
    SegmentsOfTwoPart("2", "10");
    SegmentsOfTwoPart("2", "9");
    assert "2" + ['.'] + "10" == "2.10";
    assert "2" + ['.'] + "9" == "2.9";
    assert LexCompare([2, 10], [2, 9]) == 1 by {
      assert [2, 10][1..] == [10] && [2, 9][1..] == [9];
    }
  }
}

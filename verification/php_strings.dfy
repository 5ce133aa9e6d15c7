/** The PHP string built-ins the audit step relies on: truthiness of a
    nullable string, `trim`, `explode` on a one-character delimiter
    (with `implode` as its inverse), `basename`, and the decimal rendering of a count. */
module PhpStrings {
  import opened Wrappers

  /** Number of occurrences of `x` in `s`. */
  function Occurrences<T(==)>(x: T, s: seq<T>): nat
  {
    if |s| == 0 then 0
    else (if s[0] == x then 1 else 0) + Occurrences(x, s[1..])
  }

  lemma {:induction false} OccurrencesAppend<T>(x: T, a: seq<T>, b: seq<T>)
    ensures Occurrences(x, a + b) == Occurrences(x, a) + Occurrences(x, b)
  {
    if |a| == 0 {
      assert a + b == b;
    } else {
      assert (a + b)[1..] == a[1..] + b;
      OccurrencesAppend(x, a[1..], b);
    }
  }

  lemma {:induction false} OccurrencesAbsent<T>(x: T, s: seq<T>)
    requires x !in s
    ensures Occurrences(x, s) == 0
  {
    if |s| > 0 {
      assert x !in s[1..] by {
        assert forall i :: 0 <= i < |s[1..]| ==> s[1..][i] == s[i + 1];
      }
      OccurrencesAbsent(x, s[1..]);
    }
  }

  // ---------------------------------------------------------------- truthiness

  /** PHP truthiness of a nullable string: null, "" and "0" are falsy. */
  predicate Truthy(s: Option<string>)
  {
    s.Some? && s.value != "" && s.value != "0"
  }

  // ---------------------------------------------------------------- trim

  /** The characters PHP's `trim` strips by default: space, tab, line feed,
      carriage return, NUL and vertical tab. */
  predicate IsTrimChar(c: char)
  {
    c == ' ' || c == '\t' || c == '\n' || c == '\r' || c == '\0' || c == '\U{B}'
  }

  /** The first index from `i` on that does not hold a trim character. */
  function TrimStart(s: string, i: nat): (a: nat)
    requires i <= |s|
    ensures i <= a <= |s|
    ensures forall k :: i <= k < a ==> IsTrimChar(s[k])
    ensures a < |s| ==> !IsTrimChar(s[a])
    decreases |s| - i
  {
    if i < |s| && IsTrimChar(s[i]) then TrimStart(s, i + 1) else i
  }

  /** The end of `s[..j]` once trailing trim characters, down to `a`, are dropped. */
  function TrimEnd(s: string, a: nat, j: nat): (b: nat)
    requires a <= j <= |s|
    ensures a <= b <= j
    ensures forall k :: b <= k < j ==> IsTrimChar(s[k])
    ensures a < b ==> !IsTrimChar(s[b - 1])
  {
    if a < j && IsTrimChar(s[j - 1]) then TrimEnd(s, a, j - 1) else j
  }

  /** `r` occurs in `s` at offset `i` with only trim characters around it. */
  ghost predicate Surrounds(s: string, i: int, r: string)
  {
    && 0 <= i && i + |r| <= |s| && s[i..i + |r|] == r
    && (forall k :: 0 <= k < i ==> IsTrimChar(s[k]))
    && (forall k :: i + |r| <= k < |s| ==> IsTrimChar(s[k]))
  }

  /** PHP `trim($s)`: `s` without its leading and trailing trim characters. */
  function Trim(s: string): (r: string)
    ensures r == [] || (!IsTrimChar(r[0]) && !IsTrimChar(r[|r| - 1]))
    ensures exists i :: Surrounds(s, i, r)
  {
    var a := TrimStart(s, 0);
    var b := TrimEnd(s, a, |s|);
    assert Surrounds(s, a, s[a..b]);
    s[a..b]
  }

  /** Trimming a trimmed string changes nothing. */
  lemma {:induction false} TrimIdempotent(s: string)
    ensures Trim(Trim(s)) == Trim(s)
  {
    var t := Trim(s);
    assert TrimStart(t, 0) == 0;
    assert TrimEnd(t, 0, |t|) == |t|;
    assert t[0..|t|] == t;
  }

  // ---------------------------------------------------------------- explode / implode

  /** PHP `implode` with a one-character glue. */
  function Implode(sep: char, pieces: seq<string>): string
  {
    if |pieces| == 0 then ""
    else if |pieces| == 1 then pieces[0]
    else pieces[0] + [sep] + Implode(sep, pieces[1..])
  }

  /** PHP `explode` with a one-character delimiter: the pieces between the
      delimiters; the empty string gives one empty piece. */
  function Explode(sep: char, s: string): (pieces: seq<string>)
    ensures |pieces| == 1 + Occurrences(sep, s)
    ensures forall p :: p in pieces ==> sep !in p
    ensures Implode(sep, pieces) == s
  {
    if |s| == 0 then [""]
    else
      var rest := Explode(sep, s[1..]);
      if s[0] == sep then
        assert s == [sep] + s[1..];
        [""] + rest
      else
        var pieces := [[s[0]] + rest[0]] + rest[1..];
        assert Implode(sep, pieces) == [s[0]] + Implode(sep, rest);
        assert s == [s[0]] + s[1..];
        pieces
  }

  /** `explode` undoes `implode` when no piece contains the delimiter. */
  lemma {:induction false} ExplodeImplode(sep: char, pieces: seq<string>)
    requires |pieces| >= 1
    requires forall p :: p in pieces ==> sep !in p
    ensures Explode(sep, Implode(sep, pieces)) == pieces
  {
    if |pieces| == 1 {
      ExplodeNoSeparator(sep, pieces[0]);
    } else {
      var tail := Implode(sep, pieces[1..]);
      assert forall p :: p in pieces[1..] ==> p in pieces;
      ExplodeImplode(sep, pieces[1..]);
      ExplodePrefix(sep, pieces[0], tail);
    }
  }

  lemma {:induction false} ExplodeNoSeparator(sep: char, s: string)
    requires sep !in s
    ensures Explode(sep, s) == [s]
  {
    if |s| > 0 {
      assert sep !in s[1..] by {
        assert forall i :: 0 <= i < |s[1..]| ==> s[1..][i] == s[i + 1];
      }
      ExplodeNoSeparator(sep, s[1..]);
    }
  }

  /** Exploding `head + sep + tail`, where `head` holds no delimiter, puts
      `head` in front of the pieces of `tail`. */
  lemma {:induction false} ExplodePrefix(sep: char, head: string, tail: string)
    requires sep !in head
    ensures Explode(sep, head + [sep] + tail) == [head] + Explode(sep, tail)
  {
    var s := head + [sep] + tail;
    if |head| == 0 {
      assert s[0] == sep && s[1..] == tail;
    } else {
      assert s[0] == head[0] && s[1..] == head[1..] + [sep] + tail;
      assert sep !in head[1..] by {
        assert forall i :: 0 <= i < |head[1..]| ==> head[1..][i] == head[i + 1];
      }
      ExplodePrefix(sep, head[1..], tail);
      assert [head[0]] + head[1..] == head;
    }
  }

  // ---------------------------------------------------------------- basename

  function StripTrailingSlashes(s: string): (r: string)
    ensures |r| <= |s| && r == s[..|r|]
    ensures r == [] || r[|r| - 1] != '/'
    ensures forall k :: |r| <= k < |s| ==> s[k] == '/'
  {
    if |s| > 0 && s[|s| - 1] == '/' then StripTrailingSlashes(s[..|s| - 1]) else s
  }

  /** The part of `s` after its last '/', all of `s` when it has none. */
  function AfterLastSlash(s: string): (r: string)
    ensures '/' !in r
    ensures |r| <= |s| && s[|s| - |r|..] == r
    ensures |r| < |s| ==> s[|s| - |r| - 1] == '/'
  {
    if |s| == 0 || s[|s| - 1] == '/' then ""
    else
      var r := AfterLastSlash(s[..|s| - 1]) + [s[|s| - 1]];
      assert s[|s| - |r|..] == s[..|s| - 1][|s| - |r|..] + [s[|s| - 1]];
      r
  }

  lemma {:induction false} AfterLastSlashNoSlash(s: string)
    requires '/' !in s
    ensures AfterLastSlash(s) == s
  {
    if |s| > 0 {
      assert '/' !in s[..|s| - 1] by {
        assert forall i :: 0 <= i < |s| - 1 ==> s[..|s| - 1][i] == s[i];
      }
      AfterLastSlashNoSlash(s[..|s| - 1]);
      assert s[..|s| - 1] + [s[|s| - 1]] == s;
    }
  }

  /** PHP `basename` on a '/'-separated path: trailing slashes are dropped,
      then the component after the last '/' is kept. */
  function Basename(path: string): (r: string)
    ensures '/' !in r
    ensures |path| > 0 && path[|path| - 1] != '/' ==>
              exists i :: 0 <= i <= |path| && path[i..] == r && (i == 0 || path[i - 1] == '/')
  {
    var r := AfterLastSlash(StripTrailingSlashes(path));
    if |path| > 0 && path[|path| - 1] != '/' then
      assert StripTrailingSlashes(path) == path;
      assert path[|path| - |r|..] == r;
      r
    else r
  }

  /** `basename` of a `basename` is the same component. */
  lemma {:induction false} BasenameIdempotent(path: string)
    ensures Basename(Basename(path)) == Basename(path)
  {
    var b := Basename(path);
    assert StripTrailingSlashes(b) == b by {
      if |b| > 0 {
        assert b[|b| - 1] in b;
      }
    }
    AfterLastSlashNoSlash(b);
  }

  // ---------------------------------------------------------------- decimal numbers

  predicate IsDigit(c: char)
  {
    '0' <= c <= '9'
  }

  /** The value of the decimal digits of `s`, read left to right; characters
      that are not digits are passed over. */
  function DigitsValue(s: string): nat
  {
    if |s| == 0 then 0
    else if IsDigit(s[|s| - 1]) then 10 * DigitsValue(s[..|s| - 1]) + (s[|s| - 1] - '0') as nat
    else DigitsValue(s[..|s| - 1])
  }

  /** The decimal rendering PHP gives an integer in string context. */
  function NatToString(n: nat): (r: string)
    ensures |r| >= 1
    ensures forall k :: 0 <= k < |r| ==> IsDigit(r[k])
    ensures r[0] == '0' ==> n == 0
    ensures DigitsValue(r) == n
  {
    var d := ['0' + (n % 10) as char];
    if n < 10 then
      assert DigitsValue(d) == 10 * DigitsValue([]) + n;
      d
    else
      var prefix := NatToString(n / 10);
      var r := prefix + d;
      assert r[..|r| - 1] == prefix;
      r
  }
}

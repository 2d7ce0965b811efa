/** String primitives the system relies on from its platforms: Python's
    `str.split` / `str.join`, decimal rendering and parsing of integers, the
    SQL `LIKE` matcher and SQLite's BINARY (code-point) text ordering. */
module Strings {
  import opened Wrappers


  /** `sep` occurs in `s` starting at index `i`. */
  predicate OccursAt(s: string, sep: string, i: int) {
    0 <= i && i + |sep| <= |s| && s[i..i + |sep|] == sep
  }

  /** `sep` occurs somewhere in `s`. */
  predicate ContainsSub(s: string, sep: string) {
    exists i | 0 <= i <= |s| :: OccursAt(s, sep, i)
  }

  /** Index of the leftmost occurrence of `sep` in `s`. */
  function Find(s: string, sep: string): (r: Option<nat>)
    requires |sep| > 0
    ensures r.Some? ==> OccursAt(s, sep, r.value)
    ensures r.Some? ==> forall j :: 0 <= j < r.value ==> !OccursAt(s, sep, j)
    ensures r.None? ==> !ContainsSub(s, sep)
    decreases |s|
  {
    if |s| < |sep| then None
    else if s[..|sep|] == sep then Some(0)
    else
      match Find(s[1..], sep)
      case None =>
        assert forall j :: OccursAt(s, sep, j) ==> j == 0 || OccursAt(s[1..], sep, j - 1) by {
          forall j | OccursAt(s, sep, j) && j != 0
            ensures OccursAt(s[1..], sep, j - 1)
          {
            assert s[1..][j - 1..j - 1 + |sep|] == s[j..j + |sep|];
          }
        }
        None
      case Some(k) =>
        assert s[1..][k..k + |sep|] == s[k + 1..k + 1 + |sep|];
        assert forall j :: 0 < j < k + 1 ==> !OccursAt(s, sep, j) by {
          forall j | 0 < j < k + 1 && OccursAt(s, sep, j)
            ensures false
          {
            assert s[1..][j - 1..j - 1 + |sep|] == s[j..j + |sep|];
            assert OccursAt(s[1..], sep, j - 1);
          }
        }
        Some(k + 1)
  }

  /** Python `sep.join(parts)`. */
  function Join(parts: seq<string>, sep: string): string
    decreases |parts|
  {
    if |parts| == 0 then []
    else if |parts| == 1 then parts[0]
    else parts[0] + sep + Join(parts[1..], sep)
  }

  /** Python `s.split(sep)` for a non-empty separator: cut at every leftmost,
      non-overlapping occurrence; the result is never empty. */
  function Split(s: string, sep: string): (parts: seq<string>)
    requires |sep| > 0
    ensures |parts| >= 1
    ensures forall k :: 0 <= k < |parts| ==> !ContainsSub(parts[k], sep)
    decreases |s|
  {
    match Find(s, sep)
    case None => [s]
    case Some(i) =>
      var head := s[..i];
      assert !ContainsSub(head, sep) by {
        forall j | OccursAt(head, sep, j)
          ensures false
        {
          assert head[j..j + |sep|] == s[j..j + |sep|];
          assert OccursAt(s, sep, j);
        }
      }
      [head] + Split(s[i + |sep|..], sep)
  }

  /** Joining what `Split` cut gives the original string back. */
  lemma {:induction false} JoinSplit(s: string, sep: string)
    requires |sep| > 0
    ensures Join(Split(s, sep), sep) == s
    decreases |s|
  {
    var f := Find(s, sep);
    if f.None? {
      assert Split(s, sep) == [s];
    } else {
      var i := f.value;
      assert OccursAt(s, sep, i);
      var head := s[..i];
      var rest := s[i + |sep|..];
      var tail := Split(rest, sep);
      assert Split(s, sep) == [head] + tail;
      JoinSplit(rest, sep);
      JoinCons(head, tail, sep);
      assert s == head + sep + rest by {
        assert s[i..i + |sep|] == sep;
        assert s == s[..i] + s[i..i + |sep|] + s[i + |sep|..];
      }
    }
  }

  lemma JoinCons(head: string, tail: seq<string>, sep: string)
    requires |tail| >= 1
    ensures Join([head] + tail, sep) == head + sep + Join(tail, sep)
  {
    assert ([head] + tail)[1..] == tail;
  }

  /** A string none of whose characters is `c`. */
  predicate Free(s: string, c: char) {
    forall k :: 0 <= k < |s| ==> s[k] != c
  }

  /** An occurrence of `sep` starts with the first character of `sep`. */
  lemma OccursAtHead(sep: string)
    requires |sep| > 0
    ensures forall s, j :: OccursAt(s, sep, j) ==> s[j] == sep[0]
  {
    forall s, j | OccursAt(s, sep, j)
      ensures s[j] == sep[0]
    {
      assert s[j..j + |sep|][0] == s[j];
    }
  }

  /** Splitting a join recovers the parts when no part contains the first
      character of the separator (so no occurrence can start inside a part
      or straddle a boundary). */
  lemma {:induction false} SplitJoin(parts: seq<string>, sep: string)
    requires |sep| > 0 && |parts| >= 1
    requires forall k :: 0 <= k < |parts| ==> Free(parts[k], sep[0])
    ensures Split(Join(parts, sep), sep) == parts
    decreases |parts|
  {
    OccursAtHead(sep);
    var p := parts[0];
    assert Free(p, sep[0]);
    if |parts| == 1 {
      assert Join(parts, sep) == p;
      assert Find(p, sep).None?;
    } else {
      var rest := Join(parts[1..], sep);
      var s := p + sep + rest;
      assert Join(parts, sep) == s;
      assert OccursAt(s, sep, |p|) by {
        assert s[|p|..|p| + |sep|] == sep;
      }
      assert forall j :: 0 <= j < |p| ==> s[j] == p[j];
      var i := Find(s, sep).value;
      assert i == |p|;
      assert s[..i] == p;
      assert s[i + |sep|..] == rest;
      assert Split(s, sep) == [p] + Split(rest, sep);
      SplitJoin(parts[1..], sep);
    }
  }

  // ---------------------------------------------------------------------
  // Decimal integers

  function DigitChar(d: int): char
    requires 0 <= d <= 9
  {
    "0123456789"[d]
  }

  predicate IsDigit(c: char) {
    '0' <= c <= '9'
  }

  function DigitValue(c: char): int
    requires IsDigit(c)
  {
    (c as int) - ('0' as int)
  }

  /** Decimal rendering of a natural number, without leading zeros. */
  function NatToString(n: nat): (s: string)
    ensures |s| >= 1
    ensures forall k :: 0 <= k < |s| ==> IsDigit(s[k])
    decreases n
  {
    if n < 10 then [DigitChar(n)] else NatToString(n / 10) + [DigitChar(n % 10)]
  }

  /** JavaScript / Python rendering of an integer: a minus sign and the digits. */
  function IntToString(n: int): string {
    if n < 0 then "-" + NatToString(-n) else NatToString(n)
  }

  /** Value of a non-empty run of decimal digits. */
  function DigitsValue(s: string): (v: nat)
    requires forall k :: 0 <= k < |s| ==> IsDigit(s[k])
    decreases |s|
  {
    if |s| == 0 then 0 else DigitsValue(s[..|s| - 1]) * 10 + DigitValue(s[|s| - 1])
  }

  predicate AllDigits(s: string) {
    |s| >= 1 && forall k :: 0 <= k < |s| ==> IsDigit(s[k])
  }

  /** A text that reads as an integer literal: an optional sign, then digits. */
  function ParseInt(s: string): Option<int> {
    if |s| >= 1 && s[0] == '-' && AllDigits(s[1..]) then Some(0 - DigitsValue(s[1..]))
    else if |s| >= 1 && s[0] == '+' && AllDigits(s[1..]) then Some(DigitsValue(s[1..]))
    else if AllDigits(s) then Some(DigitsValue(s))
    else None
  }

  lemma {:induction false} DigitsOfNat(n: nat)
    ensures DigitsValue(NatToString(n)) == n
    decreases n
  {
    if n >= 10 {
      DigitsOfNat(n / 10);
      var s := NatToString(n);
      assert s[..|s| - 1] == NatToString(n / 10);
    }
  }

  /** A minus sign before digits reads as the negated digits. */
  lemma ParseIntNegative(d: string)
    requires AllDigits(d)
    ensures ParseInt("-" + d) == Some(0 - DigitsValue(d))
  {
    var s := "-" + d;
    assert s[0] == '-' && s[1..] == d;
  }

  /** Bare digits read as their value. */
  lemma ParseIntDigits(d: string)
    requires AllDigits(d)
    ensures ParseInt(d) == Some(DigitsValue(d))
  {
    assert IsDigit(d[0]);
    assert d[0] != '-' && d[0] != '+';
  }

  lemma ParseNatToString(n: nat)
    ensures ParseInt(NatToString(n)) == Some(n)
  {
    DigitsOfNat(n);
    ParseIntDigits(NatToString(n));
  }

  lemma ParseNegativeToString(n: int)
    requires n < 0
    ensures ParseInt("-" + NatToString(-n)) == Some(n)
  {
    DigitsOfNat(-n);
    ParseIntNegative(NatToString(-n));
  }

  /** Reading back a rendered integer gives the integer. */
  lemma ParseIntToString(n: int)
    ensures ParseInt(IntToString(n)) == Some(n)
  {
    if n < 0 {
      ParseNegativeToString(n);
    } else {
      ParseNatToString(n);
    }
  }

  // ---------------------------------------------------------------------
  // SQL LIKE and text ordering

  /** SQLite folds only the ASCII letters when comparing for LIKE. */
  function AsciiLower(c: char): char {
    if 'A' <= c <= 'Z' then ((c as int) + 32) as char else c
  }

  /** SQLite `s LIKE p`: `%` matches any run, `_` any one character, every
      other character matches itself up to ASCII case. */
  predicate Like(s: string, p: string)
    decreases |s| + |p|
  {
    if |p| == 0 then |s| == 0
    else if p[0] == '%' then Like(s, p[1..]) || (|s| > 0 && Like(s[1..], p))
    else if p[0] == '_' then |s| > 0 && Like(s[1..], p[1..])
    else |s| > 0 && AsciiLower(s[0]) == AsciiLower(p[0]) && Like(s[1..], p[1..])
  }

  /** BINARY collation: strict lexicographic order on code points. */
  predicate LexLess(a: string, b: string)
    decreases |a|
  {
    if |b| == 0 then false
    else if |a| == 0 then true
    else a[0] < b[0] || (a[0] == b[0] && LexLess(a[1..], b[1..]))
  }

  lemma {:induction false} LexLessIrreflexive(a: string)
    ensures !LexLess(a, a)
    decreases |a|
  {
    if |a| > 0 {
      LexLessIrreflexive(a[1..]);
    }
  }

  lemma {:induction false} LexLessTrichotomy(a: string, b: string)
    ensures a == b || LexLess(a, b) || LexLess(b, a)
    ensures !(LexLess(a, b) && LexLess(b, a))
    decreases |a|
  {
    if |a| > 0 && |b| > 0 {
      LexLessTrichotomy(a[1..], b[1..]);
      if a[0] == b[0] && a[1..] == b[1..] {
        assert a == [a[0]] + a[1..];
        assert b == [b[0]] + b[1..];
      }
    }
  }

  lemma {:induction false} LexLessTransitive(a: string, b: string, c: string)
    requires LexLess(a, b) && LexLess(b, c)
    ensures LexLess(a, c)
    decreases |a|
  {
    if |a| > 0 && a[0] == b[0] && b[0] == c[0] {
      LexLessTransitive(a[1..], b[1..], c[1..]);
    }
  }
}

/** The few operations on Python strings that the core relies on: `str.strip()`,
    `str.split(sep)` with a one-character separator, `str.isdigit()` with `int()`,
    `str(n)` for an integer, and `str.endswith`. */
module Text {

  /** The characters for which Python's `str.isspace()` holds. */
  predicate IsSpace(c: char) {
    c in {' ', '\t', '\n', '\r', '\U{0B}', '\U{0C}', '\U{1C}', '\U{1D}', '\U{1E}', '\U{1F}',
          '\U{85}', '\U{A0}', '\U{1680}', '\U{2000}', '\U{2001}', '\U{2002}', '\U{2003}',
          '\U{2004}', '\U{2005}', '\U{2006}', '\U{2007}', '\U{2008}', '\U{2009}', '\U{200A}',
          '\U{2028}', '\U{2029}', '\U{202F}', '\U{205F}', '\U{3000}'}
  }

  /** `s.lstrip()`: the suffix of `s` left after dropping its leading whitespace. */
  function StripLeft(s: string): (r: string)
    ensures |r| <= |s| && r == s[|s| - |r|..]
    ensures forall k :: 0 <= k < |s| - |r| ==> IsSpace(s[k])
    ensures r == [] || !IsSpace(r[0])
  {
    if s != [] && IsSpace(s[0]) then StripLeft(s[1..]) else s
  }

  /** `s.rstrip()`: the prefix of `s` left after dropping its trailing whitespace. */
  function StripRight(s: string): (r: string)
    ensures |r| <= |s| && r == s[..|r|]
    ensures forall k :: |r| <= k < |s| ==> IsSpace(s[k])
    ensures r == [] || !IsSpace(r[|r| - 1])
  {
    if s != [] && IsSpace(s[|s| - 1]) then StripRight(s[..|s| - 1]) else s
  }

  /** `s.strip()`. */
  function Strip(s: string): (r: string)
    ensures r == [] || (!IsSpace(r[0]) && !IsSpace(r[|r| - 1]))
  {
    StripRight(StripLeft(s))
  }

  /** Stripping removes whitespace only from the two ends: the result is a slice of `s`
      and everything around the slice is whitespace. */
  lemma StripIsSlice(s: string)
    ensures exists i, j :: 0 <= i <= j <= |s| && Strip(s) == s[i..j] &&
                           (forall k :: 0 <= k < i ==> IsSpace(s[k])) &&
                           (forall k :: j <= k < |s| ==> IsSpace(s[k]))
  {
    var l := StripLeft(s);
    var r := StripRight(l);
    var i := |s| - |l|;
    var j := i + |r|;
    assert l == s[i..];
    assert r == l[..|r|];
    assert r == s[i..j];
    forall k | j <= k < |s|
      ensures IsSpace(s[k])
    {
      assert s[k] == l[k - i];
    }
    assert Strip(s) == s[i..j];
  }

  lemma StripIdempotent(s: string)
    ensures Strip(Strip(s)) == Strip(s)
  {
    var r := Strip(s);
    assert StripLeft(r) == r;
    assert StripRight(r) == r;
  }

  /** A line strips to the empty string exactly when it is all whitespace. */
  lemma StripEmpty(s: string)
    ensures Strip(s) == [] <==> forall k :: 0 <= k < |s| ==> IsSpace(s[k])
  {
    var l := StripLeft(s);
    if l != [] {
      assert l[0] == s[|s| - |l|];
    }
  }

  // ----- str.split(sep) and its inverse, sep.join(parts) -----

  /** `s.split(sep)` for a one-character `sep`: the maximal runs between separators,
      empty runs included, so there is always at least one part. */
  function Split(s: string, sep: char): (parts: seq<string>)
    ensures |parts| == multiset(s)[sep] + 1
    ensures forall k :: 0 <= k < |parts| ==> sep !in parts[k]
  {
    if s == [] then [[]]
    else
      var rest := Split(s[1..], sep);
      assert s == [s[0]] + s[1..];
      if s[0] == sep then [[]] + rest else [[s[0]] + rest[0]] + rest[1..]
  }

  /** `sep.join(parts)`. */
  function Join(parts: seq<string>, sep: char): string
  {
    if parts == [] then []
    else if |parts| == 1 then parts[0]
    else parts[0] + [sep] + Join(parts[1..], sep)
  }

  /** Splitting loses nothing: joining the parts gives the string back. */
  lemma {:induction false} JoinSplit(s: string, sep: char)
    ensures Join(Split(s, sep), sep) == s
  {
    if s != [] {
      var rest := Split(s[1..], sep);
      JoinSplit(s[1..], sep);
      SplitCons(s, sep);
      if s[0] == sep {
        JoinConsEmpty(rest, sep);
      } else {
        JoinConsChar(s[0], rest, sep);
      }
      assert s == [s[0]] + s[1..];
    }
  }

  lemma SplitCons(s: string, sep: char)
    requires s != []
    ensures var rest := Split(s[1..], sep);
            Split(s, sep) == if s[0] == sep then [[]] + rest else [[s[0]] + rest[0]] + rest[1..]
  {
  }

  /** An empty first part contributes only its separator. */
  lemma JoinConsEmpty(rest: seq<string>, sep: char)
    requires rest != []
    ensures Join([[]] + rest, sep) == [sep] + Join(rest, sep)
  {
    assert ([[]] + rest)[1..] == rest;
  }

  /** A character put in front of the first part comes first in the join. */
  lemma JoinConsChar(c: char, rest: seq<string>, sep: char)
    requires rest != []
    ensures Join([[c] + rest[0]] + rest[1..], sep) == [c] + Join(rest, sep)
  {
    var parts := [[c] + rest[0]] + rest[1..];
    if |rest| > 1 {
      var tail := Join(rest[1..], sep);
      assert parts[1..] == rest[1..];
      assert Join(parts, sep) == [c] + rest[0] + [sep] + tail;
    }
  }

  lemma {:induction false} SplitWithoutSep(p: string, sep: char)
    requires sep !in p
    ensures Split(p, sep) == [p]
  {
    if p != [] {
      assert p == [p[0]] + p[1..];
      SplitWithoutSep(p[1..], sep);
    }
  }

  lemma {:induction false} SplitFirstPart(p: string, sep: char, rest: string)
    requires sep !in p
    ensures Split(p + [sep] + rest, sep) == [p] + Split(rest, sep)
  {
    var s := p + [sep] + rest;
    if p == [] {
      assert s[1..] == rest;
    } else {
      assert s[1..] == p[1..] + [sep] + rest;
      assert p == [p[0]] + p[1..];
      SplitFirstPart(p[1..], sep, rest);
    }
  }

  /** Parts that do not contain the separator are recovered by splitting their join. */
  lemma {:induction false} SplitJoin(parts: seq<string>, sep: char)
    requires |parts| >= 1
    requires forall k :: 0 <= k < |parts| ==> sep !in parts[k]
    ensures Split(Join(parts, sep), sep) == parts
  {
    if |parts| == 1 {
      SplitWithoutSep(parts[0], sep);
    } else {
      SplitJoin(parts[1..], sep);
      SplitFirstPart(parts[0], sep, Join(parts[1..], sep));
    }
  }

  // ----- str.isdigit() and int() on ASCII digits -----

  predicate IsDigit(c: char) {
    '0' as int <= c as int <= '9' as int
  }

  /** `s.isdigit()`: non-empty and made of digits only. */
  predicate IsDigitString(s: string) {
    s != [] && forall k :: 0 <= k < |s| ==> IsDigit(s[k])
  }

  /** `int(s)` of a digit string: its decimal value, leading zeros allowed. */
  function DecimalValue(s: string): nat
    requires forall k :: 0 <= k < |s| ==> IsDigit(s[k])
  {
    if s == [] then 0
    else
      assert IsDigit(s[|s| - 1]);
      DecimalValue(s[..|s| - 1]) * 10 + (s[|s| - 1] as int - '0' as int)
  }

  function DigitChar(d: nat): (c: char)
    requires d < 10
    ensures IsDigit(c) && c as int - '0' as int == d
  {
    ('0' as int + d) as char
  }

  /** `str(n)` of a non-negative integer. */
  function NatToString(n: nat): (s: string)
    ensures IsDigitString(s)
  {
    if n < 10 then [DigitChar(n)] else NatToString(n / 10) + [DigitChar(n % 10)]
  }

  /** `str(n)` of any integer: a minus sign, then the digits of the magnitude. */
  function IntToString(n: int): (s: string)
    ensures s != []
  {
    if n < 0 then "-" + NatToString(-n) else NatToString(n)
  }

  // ----- prefixes and suffixes -----

  predicate StartsWith(s: string, prefix: string) {
    prefix <= s
  }

  predicate EndsWith(s: string, suffix: string) {
    |suffix| <= |s| && s[|s| - |suffix|..] == suffix
  }

  /** Whatever ends with `x + t` ends with `t`. */
  lemma EndsWithLonger(s: string, x: string, t: string)
    requires EndsWith(s, x + t)
    ensures EndsWith(s, t)
  {
    assert s[|s| - |t|..] == s[|s| - |x + t|..][|x|..];
  }
}

/** Generic facts about sequences shared by the crawler, the fetcher and the IP tools:
    duplicate freedom, subsequences, order-preserving filtering and first occurrences. */
module Sequences {

  datatype Option<+T> = None | Some(value: T)

  /** How a Python call ends: it returns a value or raises an exception that its caller
      does not catch. */
  datatype Exit<+T> = Returned(value: T) | Raised

  /** No element occurs twice. */
  predicate NoDup<T(==)>(s: seq<T>) {
    forall i, j :: 0 <= i < j < |s| ==> s[i] != s[j]
  }

  /** `a` is obtained from `b` by deleting elements, keeping the order of the rest.
      The last elements are matched greedily, which loses no solutions. */
  predicate IsSubseq<T(==)>(a: seq<T>, b: seq<T>)
    decreases |b|
  {
    a == [] ||
    (b != [] &&
     (if a[|a| - 1] == b[|b| - 1] then IsSubseq(a[..|a| - 1], b[..|b| - 1])
      else IsSubseq(a, b[..|b| - 1])))
  }

  lemma {:induction false} SubseqElements<T>(a: seq<T>, b: seq<T>)
    requires IsSubseq(a, b)
    ensures forall x :: x in a ==> x in b
    decreases |b|
  {
    if a != [] {
      var a', b' := a[..|a| - 1], b[..|b| - 1];
      if a[|a| - 1] == b[|b| - 1] {
        SubseqElements(a', b');
        assert a == a' + [a[|a| - 1]] && b == b' + [b[|b| - 1]];
      } else {
        SubseqElements(a, b');
        assert b == b' + [b[|b| - 1]];
      }
    }
  }

  lemma {:induction false} SubseqDropLast<T>(a: seq<T>, b: seq<T>)
    requires IsSubseq(a, b) && a != []
    ensures IsSubseq(a[..|a| - 1], b)
    decreases |b|, 1
  {
    var a', b' := a[..|a| - 1], b[..|b| - 1];
    if a' != [] {
      if a[|a| - 1] == b[|b| - 1] {
        SubseqExtend(a', b', b[|b| - 1]);
        assert b' + [b[|b| - 1]] == b;
      } else {
        SubseqDropLast(a, b');
        SubseqExtend(a', b', b[|b| - 1]);
        assert b' + [b[|b| - 1]] == b;
      }
    }
  }

  /** Appending to the larger sequence keeps a subsequence a subsequence. */
  lemma {:induction false} SubseqExtend<T>(a: seq<T>, b: seq<T>, x: T)
    requires IsSubseq(a, b)
    ensures IsSubseq(a, b + [x])
    decreases |b|, 2
  {
    if a != [] {
      assert (b + [x])[..|b|] == b;
      if a[|a| - 1] == x {
        SubseqDropLast(a, b);
      }
    }
  }

  /** The elements of `s` that satisfy `keep`, in their order in `s`. */
  function Filter<T>(s: seq<T>, keep: T -> bool): (r: seq<T>)
    ensures |r| <= |s|
    ensures forall i :: 0 <= i < |r| ==> r[i] in s && keep(r[i])
    ensures forall i :: 0 <= i < |s| && keep(s[i]) ==> s[i] in r
    ensures IsSubseq(r, s)
  {
    if s == [] then []
    else
      var init, x := s[..|s| - 1], s[|s| - 1];
      assert s == init + [x];
      var r0 := Filter(init, keep);
      var r := r0 + (if keep(x) then [x] else []);
      if keep(x) then
        assert r[..|r| - 1] == r0;
        r
      else
        SubseqExtend(r0, init, x);
        assert r == r0;
        r
  }

  /** Filtering one element more adds it exactly when it is kept. */
  lemma FilterSnoc<T>(s: seq<T>, x: T, keep: T -> bool)
    ensures Filter(s + [x], keep) == Filter(s, keep) + (if keep(x) then [x] else [])
  {
    assert (s + [x])[..|s + [x]| - 1] == s;
  }

  /** The first occurrence of every element of `s`, in the order of `s`. */
  function FirstOccurrences<T(==)>(s: seq<T>): (r: seq<T>)
    ensures NoDup(r)
    ensures forall i :: 0 <= i < |r| ==> r[i] in s
    ensures forall i :: 0 <= i < |s| ==> s[i] in r
  {
    if s == [] then []
    else
      var init, x := s[..|s| - 1], s[|s| - 1];
      assert s == init + [x];
      FirstOccurrences(init) + (if x in init then [] else [x])
  }

  /** What FirstOccurrences keeps it keeps in input order, and nothing else. */
  lemma {:induction false} FirstOccurrencesIsSubseq<T>(s: seq<T>)
    ensures IsSubseq(FirstOccurrences(s), s)
  {
    if s != [] {
      var init, x := s[..|s| - 1], s[|s| - 1];
      assert s == init + [x];
      FirstOccurrencesIsSubseq(init);
      var r0 := FirstOccurrences(init);
      if x in init {
        assert FirstOccurrences(s) == r0;
        SubseqExtend(r0, init, x);
      } else {
        var r := r0 + [x];
        assert FirstOccurrences(s) == r;
        assert r[..|r| - 1] == r0 && r[|r| - 1] == x;
      }
    }
  }

  /** Every element is kept at its first occurrence: the result for a prefix of `s`
      is a prefix of the result for `s`. */
  lemma {:induction false} FirstOccurrencesPrefix<T>(s: seq<T>, i: nat)
    requires i <= |s|
    ensures FirstOccurrences(s[..i]) <= FirstOccurrences(s)
  {
    if i < |s| {
      var init := s[..|s| - 1];
      assert s == init + [s[|s| - 1]];
      assert init[..i] == s[..i];
      FirstOccurrencesPrefix(init, i);
    } else {
      assert s[..i] == s;
    }
  }

  /** A sequence without duplicates is its own first occurrences. */
  lemma {:induction false} FirstOccurrencesOfNoDup<T>(s: seq<T>)
    requires NoDup(s)
    ensures FirstOccurrences(s) == s
  {
    if s != [] {
      var init, x := s[..|s| - 1], s[|s| - 1];
      assert s == init + [x];
      assert x !in init;
      FirstOccurrencesOfNoDup(init);
    }
  }

  lemma FirstOccurrencesIdempotent<T>(s: seq<T>)
    ensures FirstOccurrences(FirstOccurrences(s)) == FirstOccurrences(s)
  {
    FirstOccurrencesOfNoDup(FirstOccurrences(s));
  }

  lemma ConcatAssoc<T>(a: seq<T>, b: seq<T>, c: seq<T>)
    ensures a + b + c == a + (b + c)
  {
  }

  /** What was appended to a log in two steps is what each step appended. */
  lemma AppendedInTwoSteps<T>(a: seq<T>, b: seq<T>, c: seq<T>)
    requires a <= b && b <= c
    ensures a <= c
    ensures c[|a|..] == b[|a|..] + c[|b|..]
  {
    assert b == c[..|b|];
  }

  function Last<T>(s: seq<T>): T
    requires s != []
  {
    s[|s| - 1]
  }

  /** Concatenation of a sequence of sequences. */
  function Flatten<T>(ss: seq<seq<T>>): seq<T>
  {
    if ss == [] then [] else ss[0] + Flatten(ss[1..])
  }
}

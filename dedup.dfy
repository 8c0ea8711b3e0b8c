/** `remove_duplicates`: order-preserving de-duplication of the article list read back
    from the article log. */
module Dedup {
  import opened Sequences

  /** Keeps an element only if it is not yet in `seen`, adding it as it goes. */
  method RemoveDuplicates<T(==)>(lst: seq<T>) returns (r: seq<T>)
    ensures r == FirstOccurrences(lst)
    ensures NoDup(r)
    ensures forall x :: x in r <==> x in lst
    ensures IsSubseq(r, lst)
  {
    var seen: set<T> := {};
    r := [];
    for i := 0 to |lst|
      invariant forall x :: x in seen <==> x in lst[..i]
      invariant r == FirstOccurrences(lst[..i])
    {
      DedupStep(lst, i);
      if lst[i] !in seen {
        seen := seen + {lst[i]};
        r := r + [lst[i]];
      }
    }
    assert lst[..|lst|] == lst;
    FirstOccurrencesIsSubseq(lst);
  }

  /** One more element: `seen` gains it, and it is kept when it was not seen before. */
  lemma DedupStep<T>(lst: seq<T>, i: nat)
    requires i < |lst|
    ensures forall x :: x in lst[..i + 1] <==> x in lst[..i] || x == lst[i]
    ensures FirstOccurrences(lst[..i + 1]) ==
            FirstOccurrences(lst[..i]) + (if lst[i] in lst[..i] then [] else [lst[i]])
  {
    assert lst[..i + 1] == lst[..i] + [lst[i]];
    assert lst[..i + 1][..i] == lst[..i];
  }
}

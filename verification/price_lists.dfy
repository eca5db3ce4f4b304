/** Sorted price lists and the lowest and highest price of a window. */
module PriceLists {

  predicate Sorted(s: seq<real>) {
    forall i, j :: 0 <= i < j < |s| ==> s[i] <= s[j]
  }

  /** Inserts `x` into the sorted list `s`. */
  function Insert(x: real, s: seq<real>): (r: seq<real>)
    requires Sorted(s)
    ensures Sorted(r)
    ensures multiset(r) == multiset(s) + multiset{x}
    decreases |s|
  {
    if |s| == 0 then [x]
    else if x <= s[0] then [x] + s
    else
      var rest := Insert(x, s[1..]);
      assert s == [s[0]] + s[1..];
      BoundedBelow(s[0], x, s[1..], rest);
      [s[0]] + rest
  }

  /** A sorted list stays sorted when a lower bound of all its items is put in front. */
  lemma BoundedBelow(lo: real, x: real, tail: seq<real>, rest: seq<real>)
    requires lo <= x
    requires forall i :: 0 <= i < |tail| ==> lo <= tail[i]
    requires Sorted(rest)
    requires multiset(rest) == multiset(tail) + multiset{x}
    ensures Sorted([lo] + rest)
  {
    forall j | 0 <= j < |rest|
      ensures lo <= rest[j]
    {
      assert rest[j] in multiset(rest);
      if rest[j] != x {
        assert rest[j] in multiset(tail);
        assert rest[j] in tail;
      }
    }
  }

  /** Python's `list.sort()` on prices: an ascending permutation. */
  function SortAscending(s: seq<real>): (r: seq<real>)
    ensures Sorted(r)
    ensures multiset(r) == multiset(s)
    decreases |s|
  {
    if |s| == 0 then []
    else
      assert s == s[..|s| - 1] + [s[|s| - 1]];
      Insert(s[|s| - 1], SortAscending(s[..|s| - 1]))
  }

  /** Sorting neither adds nor drops a value. */
  lemma SortAscendingMembers(s: seq<real>)
    ensures forall x :: x in SortAscending(s) <==> x in s
  {
    var r := SortAscending(s);
    forall x
      ensures x in r <==> x in s
    {
      assert x in r <==> x in multiset(r);
      assert x in s <==> x in multiset(s);
    }
  }

  /** Python's `min()` of a non-empty list. */
  function SeqMin(s: seq<real>): (m: real)
    requires |s| > 0
    ensures m in s
    ensures forall i :: 0 <= i < |s| ==> m <= s[i]
    decreases |s|
  {
    if |s| == 1 then s[0]
    else
      var rest := SeqMin(s[1..]);
      if s[0] <= rest then s[0] else rest
  }

  /** Python's `max()` of a non-empty list. */
  function SeqMax(s: seq<real>): (m: real)
    requires |s| > 0
    ensures m in s
    ensures forall i :: 0 <= i < |s| ==> s[i] <= m
    decreases |s|
  {
    if |s| == 1 then s[0]
    else
      var rest := SeqMax(s[1..]);
      if rest <= s[0] then s[0] else rest
  }
}

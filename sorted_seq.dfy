/**
  Sequences of tree values: the orderings the tree's results promise, the
  sort that normalises the traversal's output (the effect of
  `Collections.sort` on a list of integers) and the filter behind the range
  query.
*/
module SortedSeq {

  /** Every element is at most the ones after it. */
  predicate Ascending(s: seq<int>)
  {
    forall i, j :: 0 <= i < j < |s| ==> s[i] <= s[j]
  }

  /** Every element is below the ones after it: ascending and duplicate-free. */
  predicate StrictlyAscending(s: seq<int>)
  {
    forall i, j :: 0 <= i < j < |s| ==> s[i] < s[j]
  }

  /** Every element is above the ones after it. */
  predicate StrictlyDescending(s: seq<int>)
  {
    forall i, j :: 0 <= i < j < |s| ==> s[i] > s[j]
  }

  /** No two positions hold the same element. */
  predicate Distinct<T(==)>(s: seq<T>)
  {
    forall i, j :: 0 <= i < j < |s| ==> s[i] != s[j]
  }

  /** No element of `s` is below `m`. */
  predicate AtLeast(s: seq<int>, m: int)
  {
    forall k :: 0 <= k < |s| ==> m <= s[k]
  }

  /** Places `x` into the ascending sequence `s`, before the first element not below it. */
  function InsertSorted(x: int, s: seq<int>): (r: seq<int>)
    requires Ascending(s)
    ensures Ascending(r)
    ensures forall m :: AtLeast(s, m) && m <= x ==> AtLeast(r, m)
    ensures StrictlyAscending(s) && x !in s ==> StrictlyAscending(r)
  {
    if s == [] || x <= s[0] then
      [x] + s
    else
      var rest := InsertSorted(x, s[1..]);
      assert s == [s[0]] + s[1..];
      assert AtLeast(rest, s[0]);
      assert StrictlyAscending(s) ==> AtLeast(rest, s[0] + 1);
      [s[0]] + rest
  }

  /** Inserting adds exactly one occurrence of `x` and loses nothing. */
  lemma {:induction false} InsertSortedPermutes(x: int, s: seq<int>)
    requires Ascending(s)
    ensures multiset(InsertSorted(x, s)) == multiset(s) + multiset{x}
  {
    if s != [] && x > s[0] {
      InsertSortedPermutes(x, s[1..]);
      assert s == [s[0]] + s[1..];
    }
  }

  /**
    The sorted permutation of `s`. The order in which the traversal collects
    values does not matter: the result is ascending, holds the same elements
    with the same multiplicities, and holds no duplicate when `s` holds none.
  */
  function SortAscending(s: seq<int>): (r: seq<int>)
    ensures Ascending(r)
    ensures multiset(r) == multiset(s)
    ensures Distinct(s) ==> StrictlyAscending(r)
  {
    if s == [] then
      []
    else
      var rest := SortAscending(s[1..]);
      assert s == [s[0]] + s[1..];
      assert Distinct(s) ==> s[0] !in multiset(rest);
      InsertSortedPermutes(s[0], rest);
      InsertSorted(s[0], rest)
  }

  /** The elements of `s` that are strictly below `v`, in the order of `s`. */
  function Below(s: seq<int>, v: int): (r: seq<int>)
    ensures forall x :: x in r <==> x in s && x < v
    ensures StrictlyAscending(s) ==> StrictlyAscending(r)
    decreases |s|
  {
    if s == [] then
      []
    else
      var init, last := s[..|s| - 1], s[|s| - 1];
      var rest := Below(init, v);
      assert s == init + [last];
      assert forall k :: 0 <= k < |rest| ==> rest[k] in rest;
      rest + (if last < v then [last] else [])
  }

  /** A strictly ascending sequence is determined by its set of elements. */
  lemma {:induction false} AscendingUnique(a: seq<int>, b: seq<int>)
    requires StrictlyAscending(a) && StrictlyAscending(b)
    requires forall x :: x in a <==> x in b
    ensures a == b
    decreases |a|
  {
    // neither is empty unless both are
    if a != [] {
      assert a[0] in a;
    }
    if b != [] {
      assert b[0] in b;
    }
    if a != [] && b != [] {
      // both heads are the least element of the common set
      assert a[0] in b;
      assert b[0] in a;
      assert a[0] == b[0] by {
        var i :| 0 <= i < |b| && b[i] == a[0];
        var j :| 0 <= j < |a| && a[j] == b[0];
        assert b[0] <= b[i];
        assert a[0] <= a[j];
      }
      forall x | x in a[1..] ensures x in b[1..] {
        var i :| 1 <= i < |a| && a[i] == x;
        assert x != b[0];
        assert x in b;
      }
      forall x | x in b[1..] ensures x in a[1..] {
        var i :| 1 <= i < |b| && b[i] == x;
        assert x != a[0];
        assert x in a;
      }
      AscendingUnique(a[1..], b[1..]);
      assert a == [a[0]] + a[1..] && b == [b[0]] + b[1..];
    }
  }

  /** A sequence without repetitions drawn from a set is no longer than the set. */
  lemma {:induction false} DistinctWithin<T>(s: seq<T>, S: set<T>)
    requires Distinct(s)
    requires forall i :: 0 <= i < |s| ==> s[i] in S
    ensures |s| <= |S|
    decreases |s|
  {
    if s != [] {
      var last := s[|s| - 1];
      DistinctWithin(s[..|s| - 1], S - {last});
    }
  }

  /**
    Sorting distinct values gives them in strictly ascending order, none lost
    or added: a corollary of `SortAscending`'s contract, whose multiset
    equality it turns into equality of membership.
  */
  lemma SortedOnce(s: seq<int>)
    requires Distinct(s)
    ensures StrictlyAscending(SortAscending(s))
    ensures forall x :: x in SortAscending(s) <==> x in s
  {
    var list := SortAscending(s);
    forall x
      ensures x in list <==> x in s
    {
      assert x in list <==> x in multiset(list);
      assert x in s <==> x in multiset(s);
    }
  }

  /** The elements of `s` in the opposite order. */
  function Reversed(s: seq<int>): (r: seq<int>)
    ensures |r| == |s|
    ensures forall i :: 0 <= i < |s| ==> r[i] == s[|s| - 1 - i]
  {
    if s == [] then [] else Reversed(s[1..]) + [s[0]]
  }

  /**
    Reversing a strictly descending sequence gives a strictly ascending one
    with the same elements: a corollary of `Reversed`'s index-wise contract,
    stated once so that callers get it as sortedness and membership.
  */
  lemma ReversedDescending(s: seq<int>)
    requires StrictlyDescending(s)
    ensures StrictlyAscending(Reversed(s))
    ensures forall x :: x in Reversed(s) <==> x in s
  {
  }

  /**
    A strictly descending run, then `v`, then another one, all of the first
    above `v` and all of the second below it, is strictly descending.
  */
  lemma DescendingJoin(a: seq<int>, v: int, b: seq<int>)
    requires StrictlyDescending(a) && StrictlyDescending(b)
    requires forall x :: x in a ==> v < x
    requires forall x :: x in b ==> x < v
    ensures StrictlyDescending(a + [v] + b)
  {
    var s := a + [v] + b;
    forall i, j | 0 <= i < j < |s|
      ensures s[i] > s[j]
    {
      if i < |a| {
        assert s[i] in a;
      }
      if j > |a| {
        assert s[j] == b[j - |a| - 1] && b[j - |a| - 1] in b;
      }
    }
  }
}

/** Ascending sort of a sequence of coordinates: the model of the builtin
    `sorted` call that the interval intersection relies on. Any algorithm
    will do, because a sorted permutation of a sequence is unique
    (SortedUnique); insertion sort is the simplest to reason about. */
module Sorting {

  /** Every element is at most every later element. */
  predicate Ascending(s: seq<real>) {
    forall i, j :: 0 <= i < j < |s| ==> s[i] <= s[j]
  }

  /** Inserts x into s in front of the first element that is not below it. */
  function Insert(x: real, s: seq<real>): (r: seq<real>)
    ensures |r| == |s| + 1
    ensures r[0] == x || (s != [] && r[0] == s[0])
  {
    if s == [] || x <= s[0] then [x] + s
    else [s[0]] + Insert(x, s[1..])
  }

  /** Inserting adds x and keeps every element of s. */
  lemma {:induction false} InsertPermutation(x: real, s: seq<real>)
    ensures multiset(Insert(x, s)) == multiset(s) + multiset{x}
  {
    if s != [] && s[0] < x {
      InsertPermutation(x, s[1..]);
      assert s == [s[0]] + s[1..];
    }
  }

  /** Inserting into an ascending sequence keeps it ascending. */
  lemma {:induction false} InsertAscending(x: real, s: seq<real>)
    requires Ascending(s)
    ensures Ascending(Insert(x, s))
  {
    if s != [] && s[0] < x {
      InsertAscending(x, s[1..]);
    }
  }

  /** The ascending permutation of s. */
  function SortAscending(s: seq<real>): (r: seq<real>)
    ensures |r| == |s|
  {
    if s == [] then []
    else Insert(s[0], SortAscending(s[1..]))
  }

  /** Sorting keeps exactly the elements of s. */
  lemma {:induction false} SortAscendingIsPermutation(s: seq<real>)
    ensures multiset(SortAscending(s)) == multiset(s)
  {
    if s != [] {
      SortAscendingIsPermutation(s[1..]);
      InsertPermutation(s[0], SortAscending(s[1..]));
      assert s == [s[0]] + s[1..];
    }
  }

  /** The sorted sequence is ascending. */
  lemma {:induction false} SortAscendingIsAscending(s: seq<real>)
    ensures Ascending(SortAscending(s))
  {
    if s != [] {
      SortAscendingIsAscending(s[1..]);
      InsertAscending(s[0], SortAscending(s[1..]));
    }
  }

  /** Two ascending sequences holding the same elements are equal: the
      outcome of sorting does not depend on the algorithm. */
  lemma {:induction false} SortedUnique(s: seq<real>, t: seq<real>)
    requires Ascending(s) && Ascending(t)
    requires multiset(s) == multiset(t)
    ensures s == t
  {
    assert |s| == |multiset(s)| == |multiset(t)| == |t|;
    if s != [] {
      assert s[0] in multiset(t);
      assert t[0] in multiset(s);
      assert s[0] == t[0];
      assert s == [s[0]] + s[1..];
      assert t == [t[0]] + t[1..];
      assert multiset(s) == multiset{s[0]} + multiset(s[1..]);
      assert multiset(t) == multiset{t[0]} + multiset(t[1..]);
      assert multiset(s[1..]) == multiset(s) - multiset{s[0]};
      assert multiset(t[1..]) == multiset(t) - multiset{t[0]};
      SortedUnique(s[1..], t[1..]);
    }
  }
}

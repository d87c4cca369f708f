/** Sequence operations standing in for SQL over a table held as a sequence of
    rows in insertion order (which is also `created_at` order). */
module Seqs {
  import opened Wrappers

  /** `SELECT ... WHERE p`, keeping table order. Defined from the back so that
      appending a row to the table appends at most that row to the result. */
  function Filter<T(!new)>(s: seq<T>, p: T -> bool): (r: seq<T>)
    ensures |r| <= |s|
    ensures forall i :: 0 <= i < |r| ==> p(r[i])
    ensures forall x :: x in r <==> x in s && p(x)
  {
    if |s| == 0 then []
    else
      var front := Filter(s[..|s| - 1], p);
      assert forall x :: x in s <==> x in s[..|s| - 1] || x == s[|s| - 1];
      if p(s[|s| - 1]) then front + [s[|s| - 1]] else front
  }

  /** The number of rows satisfying `p` (`COUNT(CASE WHEN p THEN 1 END)`). */
  function Count<T(!new)>(s: seq<T>, p: T -> bool): nat
  {
    |Filter(s, p)|
  }

  /** `a` can be obtained from `b` by deleting elements: same elements, same order. */
  ghost predicate IsSubsequence<T>(a: seq<T>, b: seq<T>)
    decreases |b|
  {
    if |a| == 0 then true
    else if |b| == 0 then false
    else (a[|a| - 1] == b[|b| - 1] && IsSubsequence(a[..|a| - 1], b[..|b| - 1]))
         || IsSubsequence(a, b[..|b| - 1])
  }

  /** A filter keeps the rows it selects in their original relative order. */
  lemma {:induction false} FilterIsSubsequence<T(!new)>(s: seq<T>, p: T -> bool)
    ensures IsSubsequence(Filter(s, p), s)
  {
    if |s| > 0 {
      var front := Filter(s[..|s| - 1], p);
      FilterIsSubsequence(s[..|s| - 1], p);
      if p(s[|s| - 1]) {
        assert (front + [s[|s| - 1]])[..|front|] == front;
      } else {
        var r := Filter(s, p);
        assert r == front;
        if |r| > 0 {
          assert IsSubsequence(r, s[..|s| - 1]);
        }
      }
    }
  }

  /** A filter that selects no element yields nothing. */
  lemma {:induction false} FilterNone<T(!new)>(s: seq<T>, p: T -> bool)
    requires forall x :: x in s ==> !p(x)
    ensures Filter(s, p) == []
  {
    if |s| > 0 {
      assert s[|s| - 1] in s;
      FilterNone(s[..|s| - 1], p);
    }
  }

  /** Filtering a table after appending a row. */
  lemma FilterAppend<T(!new)>(s: seq<T>, x: T, p: T -> bool)
    ensures Filter(s + [x], p) == Filter(s, p) + (if p(x) then [x] else [])
  {
    assert (s + [x])[..|s|] == s;
  }

  /** Reversal: `ORDER BY created_at DESC` over rows kept in insertion order. */
  function Reverse<T>(s: seq<T>): (r: seq<T>)
    ensures |r| == |s|
    ensures forall i :: 0 <= i < |s| ==> r[i] == s[|s| - 1 - i]
  {
    if |s| == 0 then [] else [s[|s| - 1]] + Reverse(s[..|s| - 1])
  }

  /** Reversing a table with one more row puts that row first. */
  lemma ReverseAppend<T>(s: seq<T>, x: T)
    ensures Reverse(s + [x]) == [x] + Reverse(s)
  {
    assert (s + [x])[..|s|] == s;
  }

  /** Reversal does not change which rows are present. */
  lemma ReverseMembers<T(!new)>(s: seq<T>)
    ensures forall x :: x in Reverse(s) <==> x in s
  {
    var r := Reverse(s);
    forall x | x in s ensures x in r {
      var i :| 0 <= i < |s| && s[i] == x;
      assert r[|s| - 1 - i] == x;
    }
  }

  /** Reversing twice gives the original order back. */
  lemma ReverseReverse<T>(s: seq<T>)
    ensures Reverse(Reverse(s)) == s
  {
  }

  /** The index of the first element satisfying `p` (`rows[0]` of a `SELECT`). */
  function FindFirst<T>(s: seq<T>, p: T -> bool): (r: Option<nat>)
    ensures r.Some? ==> r.value < |s| && p(s[r.value])
    ensures r.Some? ==> forall j :: 0 <= j < r.value ==> !p(s[j])
    ensures r.None? <==> forall j :: 0 <= j < |s| ==> !p(s[j])
  {
    if |s| == 0 then None
    else if p(s[0]) then Some(0)
    else match FindFirst(s[1..], p)
      case None => None
      case Some(k) => Some(k + 1)
  }

  /** The first element satisfying `p`, if any. */
  function First<T(!new)>(s: seq<T>, p: T -> bool): (r: Option<T>)
    ensures r.Some? ==> r.value in s && p(r.value)
    ensures r.None? <==> forall x :: x in s ==> !p(x)
  {
    match FindFirst(s, p)
    case None => None
    case Some(k) => Some(s[k])
  }

  /** `UPDATE ... SET f WHERE p`: every selected row is rewritten, the others stay. */
  function UpdateWhere<T>(s: seq<T>, p: T -> bool, f: T -> T): (r: seq<T>)
    ensures |r| == |s|
    ensures forall i :: 0 <= i < |s| ==> r[i] == if p(s[i]) then f(s[i]) else s[i]
  {
    seq(|s|, i requires 0 <= i < |s| => if p(s[i]) then f(s[i]) else s[i])
  }

  /** `SUM(f)` over a sequence. */
  function Sum<T>(s: seq<T>, f: T -> nat): nat
  {
    if |s| == 0 then 0 else Sum(s[..|s| - 1], f) + f(s[|s| - 1])
  }
}

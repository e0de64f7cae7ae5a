/** Shared vocabulary for the measure tables: possibly-missing cells, results with an
    error channel, order-preserving row selection (a boolean mask applied with `df[mask]`)
    and the distinct values of a column (`Series.unique`). */
module Tables {

  /** A cell that may hold NaN / None. */
  datatype Option<+T> = None | Some(value: T)

  /** The value of an operation, or the exception it raises. */
  datatype Result<+T, +E> = Ok(value: T) | Err(error: E)

  /** The indices i of s with p(s[i]), in increasing order: the rows a mask keeps. */
  function KeptIndices<T>(s: seq<T>, p: T -> bool): (idx: seq<nat>)
    ensures |idx| <= |s|
    ensures forall k :: 0 <= k < |idx| ==> idx[k] < |s| && p(s[idx[k]])
    ensures forall k, l :: 0 <= k < l < |idx| ==> idx[k] < idx[l]
    ensures forall i :: 0 <= i < |s| && p(s[i]) ==> i in idx
  {
    if s == [] then []
    else
      var init := s[..|s| - 1];
      var prev := KeptIndices(init, p);
      assert forall k :: 0 <= k < |prev| ==> s[prev[k]] == init[prev[k]];
      if p(s[|s| - 1]) then prev + [|s| - 1] else prev
  }

  /** r is made of exactly the elements of s that satisfy p, in their original order
      (and renumbered from 0, as `reset_index(drop=True)` or a plain sequence does). */
  ghost predicate KeepsExactly<T>(s: seq<T>, r: seq<T>, p: T -> bool)
  {
    var idx := KeptIndices(s, p);
    |r| == |idx| && forall k :: 0 <= k < |r| ==> r[k] == s[idx[k]]
  }

  /** Boolean-mask row selection. */
  function Filter<T>(s: seq<T>, p: T -> bool): (r: seq<T>)
    ensures KeepsExactly(s, r, p)
  {
    if s == [] then []
    else
      var init := s[..|s| - 1];
      var prev := Filter(init, p);
      assert forall k :: 0 <= k < |prev| ==> prev[k] == s[KeptIndices(init, p)[k]];
      prev + (if p(s[|s| - 1]) then [s[|s| - 1]] else [])
  }

  /** What KeepsExactly means for membership: nothing is invented and every
      qualifying element survives. */
  lemma {:induction false} KeepsExactlyMembers<T>(s: seq<T>, r: seq<T>, p: T -> bool)
    requires KeepsExactly(s, r, p)
    ensures forall x :: x in r <==> x in s && p(x)
  {
    var idx := KeptIndices(s, p);
    forall x | x in s && p(x) ensures x in r {
      var i :| 0 <= i < |s| && s[i] == x;
      var k :| 0 <= k < |idx| && idx[k] == i;
      assert r[k] == x;
    }
  }

  predicate Distinct<T(==)>(s: seq<T>)
  {
    forall i, j :: 0 <= i < j < |s| ==> s[i] != s[j]
  }

  /** The distinct values of s in order of first occurrence (`Series.unique`, which
      also reports a missing value once). */
  function Unique<T(==)>(s: seq<T>): (u: seq<T>)
    ensures forall i :: 0 <= i < |s| ==> s[i] in u
    ensures forall k :: 0 <= k < |u| ==> u[k] in s
    ensures Distinct(u)
    ensures |u| <= |s|
  {
    if s == [] then []
    else
      var prev := Unique(s[..|s| - 1]);
      if s[|s| - 1] in prev then prev else prev + [s[|s| - 1]]
  }

  lemma {:induction false} DistinctCardinality<T>(u: seq<T>)
    requires Distinct(u)
    ensures |(set x | x in u)| == |u|
  {
    if u != [] {
      var init := u[..|u| - 1];
      DistinctCardinality(init);
      assert (set x | x in u) == (set x | x in init) + {u[|u| - 1]};
    }
  }

  /** `len(s.unique())` is the number of different values in s. */
  lemma UniqueCardinality<T>(s: seq<T>)
    ensures |Unique(s)| == |(set x | x in s)|
  {
    DistinctCardinality(Unique(s));
    assert (set x | x in Unique(s)) == (set x | x in s);
  }

  /** Two masks that agree on every element select the same rows. */
  lemma {:induction false} KeptIndicesCongruent<T>(s: seq<T>, p: T -> bool, q: T -> bool)
    requires forall i :: 0 <= i < |s| ==> p(s[i]) == q(s[i])
    ensures KeptIndices(s, p) == KeptIndices(s, q)
  {
    if s != [] {
      KeptIndicesCongruent(s[..|s| - 1], p, q);
    }
  }

  /** A mask that holds on every row keeps every index... */
  lemma {:induction false} KeptAll<T>(s: seq<T>, p: T -> bool)
    requires forall i :: 0 <= i < |s| ==> p(s[i])
    ensures |KeptIndices(s, p)| == |s|
    ensures forall k :: 0 <= k < |s| ==> KeptIndices(s, p)[k] == k
  {
    if s != [] {
      var init := s[..|s| - 1];
      assert forall i :: 0 <= i < |init| ==> p(init[i]);
      KeptAll(init, p);
      assert KeptIndices(s, p) == KeptIndices(init, p) + [|s| - 1];
    }
  }

  /** ... so it keeps the table as it is. */
  lemma FilterAll<T>(s: seq<T>, p: T -> bool)
    requires forall i :: 0 <= i < |s| ==> p(s[i])
    ensures Filter(s, p) == s
  {
    KeptAll(s, p);
  }
}

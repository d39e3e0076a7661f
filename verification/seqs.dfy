/** Generic sequence helpers shared by the KPI and reliability models:
    boolean-mask selection (`df[mask]`), column projection, sums and
    sortedness, with the counting and permutation facts the models need. */
module Seqs {

  /** The elements of `s` that satisfy `p`, in their original order. */
  function Filter<T(==)>(p: T -> bool, s: seq<T>): (r: seq<T>)
    ensures |r| <= |s|
    decreases |s|
  {
    if |s| == 0 then []
    else
      var init := s[..|s| - 1];
      var last := s[|s| - 1];
      if p(last) then Filter(p, init) + [last] else Filter(p, init)
  }

  /** The selection holds exactly the elements of `s` that satisfy `p`. */
  lemma {:induction false} FilterMembers<T>(p: T -> bool, s: seq<T>)
    ensures forall x :: x in Filter(p, s) ==> x in s && p(x)
    ensures forall x :: x in s && p(x) ==> x in Filter(p, s)
    decreases |s|
  {
    if |s| > 0 {
      var n := |s| - 1;
      assert s == s[..n] + [s[n]];
      FilterMembers(p, s[..n]);
      FilterSnoc(p, s[..n], s[n]);
    }
  }

  /** Every element is selected exactly when nothing is dropped. */
  lemma {:induction false} FilterKeepsAll<T>(p: T -> bool, s: seq<T>)
    ensures |Filter(p, s)| == |s| <==> forall i :: 0 <= i < |s| ==> p(s[i])
    ensures (forall i :: 0 <= i < |s| ==> p(s[i])) ==> Filter(p, s) == s
    decreases |s|
  {
    if |s| > 0 {
      var n := |s| - 1;
      assert s == s[..n] + [s[n]];
      FilterKeepsAll(p, s[..n]);
      FilterSnoc(p, s[..n], s[n]);
    }
  }

  /** Nothing is selected exactly when no element satisfies the mask. */
  lemma FilterSelectsNone<T>(p: T -> bool, s: seq<T>)
    ensures |Filter(p, s)| == 0 <==> forall i :: 0 <= i < |s| ==> !p(s[i])
  {
    var r := Filter(p, s);
    FilterMembers(p, s);
    if |r| > 0 {
      assert r[0] in r && r[0] in s;
      var i :| 0 <= i < |s| && s[i] == r[0];
    }
  }

  /** Indices of `s` whose element satisfies `p`: an index-based reading of
      "how many rows does the mask select", independent of `Filter`. */
  ghost function IndicesWhere<T>(p: T -> bool, s: seq<T>): set<int>
  {
    set i | 0 <= i < |s| && p(s[i])
  }

  /** Applies `f` to every element (projecting one column of a table). */
  function Map<T, U>(f: T -> U, s: seq<T>): (r: seq<U>)
    ensures |r| == |s|
    ensures forall i :: 0 <= i < |s| ==> r[i] == f(s[i])
  {
    seq(|s|, i requires 0 <= i < |s| => f(s[i]))
  }

  function Sum(s: seq<int>): (total: int)
  {
    if |s| == 0 then 0 else Sum(s[..|s| - 1]) + s[|s| - 1]
  }

  predicate Sorted(s: seq<int>)
  {
    forall i, j :: 0 <= i < j < |s| ==> s[i] <= s[j]
  }

  predicate StrictlyIncreasing(s: seq<real>)
  {
    forall i, j :: 0 <= i < j < |s| ==> s[i] < s[j]
  }

  /** Filtering a sequence with one more element at the end. */
  lemma FilterSnoc<T>(p: T -> bool, s: seq<T>, x: T)
    ensures Filter(p, s + [x]) == if p(x) then Filter(p, s) + [x] else Filter(p, s)
  {
    assert (s + [x])[..|s|] == s;
  }

  /** The last element of a concatenation with a non-empty right part. */
  lemma LastOfConcat<T>(a: seq<T>, b: seq<T>)
    requires |b| > 0
    ensures (a + b)[|a + b| - 1] == b[|b| - 1]
  {
  }

  /** The number of selected elements equals the number of selected indices. */
  lemma {:induction false} CountIsIndexCount<T>(p: T -> bool, s: seq<T>)
    ensures |Filter(p, s)| == |IndicesWhere(p, s)|
    decreases |s|
  {
    if |s| > 0 {
      var n := |s| - 1;
      var init := s[..n];
      CountIsIndexCount(p, init);
      assert s == init + [s[n]];
      FilterSnoc(p, init, s[n]);
      IndicesSnoc(p, s);
    }
  }

  /** The selected indices of `s` are those of its prefix plus, possibly,
      the last index. */
  lemma IndicesSnoc<T>(p: T -> bool, s: seq<T>)
    requires |s| > 0
    ensures |s| - 1 !in IndicesWhere(p, s[..|s| - 1])
    ensures IndicesWhere(p, s) ==
      IndicesWhere(p, s[..|s| - 1]) + (if p(s[|s| - 1]) then {|s| - 1} else {})
  {
    var n := |s| - 1;
    var init := s[..n];
    assert forall i :: 0 <= i < n ==> init[i] == s[i];
  }

  /** Filtering distributes over concatenation. */
  lemma {:induction false} FilterAppend<T>(p: T -> bool, a: seq<T>, b: seq<T>)
    ensures Filter(p, a + b) == Filter(p, a) + Filter(p, b)
    decreases |b|
  {
    if |b| == 0 {
      assert a + b == a;
    } else {
      var n := |b| - 1;
      assert b == b[..n] + [b[n]];
      assert a + b == (a + b[..n]) + [b[n]];
      FilterAppend(p, a, b[..n]);
      FilterSnoc(p, a + b[..n], b[n]);
      FilterSnoc(p, b[..n], b[n]);
    }
  }

  /** Reordering the input reorders the selection and nothing more. */
  lemma {:induction false} FilterPermutation<T>(p: T -> bool, a: seq<T>, b: seq<T>)
    requires multiset(a) == multiset(b)
    ensures multiset(Filter(p, a)) == multiset(Filter(p, b))
    ensures |Filter(p, a)| == |Filter(p, b)|
    decreases |a|
  {
    if |a| == 0 {
      assert |b| == |multiset(b)| == 0;
      assert b == a;
    } else {
      var n := |a| - 1;
      var x := a[n];
      assert a == a[..n] + [x];
      assert x in multiset(b);
      assert x in b;
      var k :| 0 <= k < |b| && b[k] == x;
      var rest := b[..k] + b[k + 1..];
      assert b == b[..k] + [x] + b[k + 1..];
      assert multiset(a[..n]) == multiset(a) - multiset{x};
      assert multiset(rest) == multiset(b) - multiset{x};
      FilterPermutation(p, a[..n], rest);
      FilterAppend(p, a[..n], [x]);
      FilterAppend(p, b[..k], [x]);
      FilterAppend(p, b[..k] + [x], b[k + 1..]);
      FilterAppend(p, b[..k], b[k + 1..]);
    }
    assert |Filter(p, a)| == |multiset(Filter(p, a))| == |multiset(Filter(p, b))| == |Filter(p, b)|;
  }

  /** Selecting twice with the same mask selects nothing new. */
  lemma {:induction false} FilterIdempotent<T>(p: T -> bool, s: seq<T>)
    ensures Filter(p, Filter(p, s)) == Filter(p, s)
    decreases |s|
  {
    if |s| > 0 {
      var n := |s| - 1;
      assert s == s[..n] + [s[n]];
      FilterIdempotent(p, s[..n]);
      FilterSnoc(p, s[..n], s[n]);
      if p(s[n]) {
        FilterSnoc(p, Filter(p, s[..n]), s[n]);
      }
    }
  }

  lemma MapAppend<T, U>(f: T -> U, a: seq<T>, b: seq<T>)
    ensures Map(f, a + b) == Map(f, a) + Map(f, b)
  {
  }

  /** Every projected selected value comes from a selected element. */
  lemma MapFilterSource<T, U>(f: T -> U, p: T -> bool, s: seq<T>, y: U)
    requires y in Map(f, Filter(p, s))
    ensures exists i :: 0 <= i < |s| && p(s[i]) && f(s[i]) == y
  {
    var r := Filter(p, s);
    FilterMembers(p, s);
    var j :| 0 <= j < |r| && f(r[j]) == y;
    var x := r[j];
    assert x in r;
    assert x in s && p(x);
    var i :| 0 <= i < |s| && s[i] == x;
  }

  /** Every selected element is projected. */
  lemma MapFilterTarget<T, U>(f: T -> U, p: T -> bool, s: seq<T>, i: int)
    requires 0 <= i < |s| && p(s[i])
    ensures f(s[i]) in Map(f, Filter(p, s))
  {
    var r := Filter(p, s);
    FilterMembers(p, s);
    assert s[i] in r;
    var j :| 0 <= j < |r| && r[j] == s[i];
    assert Map(f, r)[j] == f(s[i]);
  }

  /** Projecting a column commutes with reordering the rows. */
  lemma {:induction false} MapPermutation<T, U>(f: T -> U, a: seq<T>, b: seq<T>)
    requires multiset(a) == multiset(b)
    ensures multiset(Map(f, a)) == multiset(Map(f, b))
    decreases |a|
  {
    if |a| == 0 {
      assert |b| == |multiset(b)| == 0;
      assert Map(f, a) == Map(f, b) == [];
    } else {
      var n := |a| - 1;
      var x := a[n];
      assert a == a[..n] + [x];
      assert x in multiset(b);
      assert x in b;
      var k :| 0 <= k < |b| && b[k] == x;
      var rest := b[..k] + b[k + 1..];
      assert b == b[..k] + [x] + b[k + 1..];
      assert multiset(a) == multiset(a[..n]) + multiset{x};
      assert multiset(b) == multiset(b[..k]) + multiset{x} + multiset(b[k + 1..]);
      assert multiset(rest) == multiset(b[..k]) + multiset(b[k + 1..]);
      assert multiset(a[..n]) == multiset(a) - multiset{x};
      assert multiset(rest) == multiset(b) - multiset{x};
      MapPermutation(f, a[..n], rest);
      MapAppend(f, a[..n], [x]);
      MapAppend(f, b[..k], [x]);
      MapAppend(f, b[..k] + [x], b[k + 1..]);
      MapAppend(f, b[..k], b[k + 1..]);
    }
  }
}

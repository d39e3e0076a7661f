/** Ascending sort of integer sequences, standing for both pandas'
    `Series.sort_values()` on the failure start times and `np.sort` on the
    inter-failure intervals. Only values are sorted, so stability plays no role. */
module Sorting {
  import opened Seqs

  /** Places `x` into an already ascending sequence. */
  function Insert(x: int, s: seq<int>): (r: seq<int>)
    requires Sorted(s)
    ensures Sorted(r)
    ensures multiset(r) == multiset(s) + multiset{x}
    ensures |r| == |s| + 1
    ensures r[0] == x || (|s| > 0 && r[0] == s[0])
  {
    if |s| == 0 then [x]
    else if x <= s[0] then [x] + s
    else
      var tail := Insert(x, s[1..]);
      assert s == [s[0]] + s[1..];
      ConsSorted(s[0], tail);
      [s[0]] + tail
  }

  /** Prepending a lower bound of the head keeps a sequence ascending. */
  lemma ConsSorted(h: int, t: seq<int>)
    requires Sorted(t) && (|t| > 0 ==> h <= t[0])
    ensures Sorted([h] + t)
  {
  }

  /** Insertion sort: an ascending permutation of `s`. */
  function Sort(s: seq<int>): (r: seq<int>)
    ensures Sorted(r)
    ensures multiset(r) == multiset(s)
    ensures |r| == |s|
  {
    if |s| == 0 then []
    else
      assert s == [s[0]] + s[1..];
      Insert(s[0], Sort(s[1..]))
  }

  /** An ascending sequence is determined by its multiset of values. */
  lemma {:induction false} SortedUnique(a: seq<int>, b: seq<int>)
    requires Sorted(a) && Sorted(b)
    requires multiset(a) == multiset(b)
    ensures a == b
    decreases |a|
  {
    assert |a| == |multiset(a)| == |multiset(b)| == |b|;
    if |a| > 0 {
      assert a[0] in multiset(b) && b[0] in multiset(a);
      assert a[0] in b && b[0] in a;
      assert a[0] == b[0];
      assert a == [a[0]] + a[1..];
      assert b == [b[0]] + b[1..];
      assert multiset(a[1..]) == multiset(a) - multiset{a[0]};
      assert multiset(b[1..]) == multiset(b) - multiset{b[0]};
      SortedUnique(a[1..], b[1..]);
    }
  }

  /** Sorting an ascending sequence leaves it unchanged. */
  lemma SortKeepsSorted(s: seq<int>)
    requires Sorted(s)
    ensures Sort(s) == s
  {
    SortedUnique(Sort(s), s);
  }

  /** The sorted result depends only on the multiset of the input. */
  lemma SortPermutationInvariant(a: seq<int>, b: seq<int>)
    requires multiset(a) == multiset(b)
    ensures Sort(a) == Sort(b)
  {
    SortedUnique(Sort(a), Sort(b));
  }
}

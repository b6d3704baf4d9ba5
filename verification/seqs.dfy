/** Sequence helpers: order-preserving filtering and the subsequence relation it
    establishes, and duplicate-free enumerations of a set. */
module Seqs {

  /** `idx` picks, in strictly increasing positions of `s`, the elements of `r`. */
  ghost predicate IsEmbedding<T>(idx: seq<nat>, r: seq<T>, s: seq<T>) {
    && |idx| == |r|
    && (forall k :: 0 <= k < |idx| ==> idx[k] < |s| && r[k] == s[idx[k]])
    && (forall k, m :: 0 <= k < m < |idx| ==> idx[k] < idx[m])
  }

  /** `r` is `s` with some elements removed and the rest in their original order. */
  ghost predicate IsSubsequence<T>(r: seq<T>, s: seq<T>) {
    exists idx: seq<nat> :: IsEmbedding(idx, r, s)
  }

  /** No element occurs twice. */
  predicate Distinct<T(==)>(s: seq<T>) {
    forall i, j :: 0 <= i < j < |s| ==> s[i] != s[j]
  }

  /** `order` lists every element of `keys` exactly once and nothing else. */
  predicate Enumerates<T(==,!new)>(order: seq<T>, keys: set<T>) {
    && Distinct(order)
    && (forall k :: k in order ==> k in keys)
    && (forall k :: k in keys ==> k in order)
  }

  /** The elements of `s` that satisfy `keep`, in their order in `s`. */
  function Filter<T(==,!new)>(keep: T -> bool, s: seq<T>): (r: seq<T>)
    ensures |r| <= |s|
    ensures forall x :: x in r <==> x in s && keep(x)
  {
    if |s| == 0 then []
    else
      assert s == [s[0]] + s[1..];
      var rest := Filter(keep, s[1..]);
      if keep(s[0]) then [s[0]] + rest else rest
  }

  /** Every position moved one place to the right. */
  function Shift(idx: seq<nat>): (r: seq<nat>)
    ensures |r| == |idx|
  {
    seq(|idx|, k requires 0 <= k < |idx| => idx[k] + 1)
  }

  /** An embedding into the tail of `s` is, shifted, an embedding into `s`
      that avoids position 0. */
  lemma ShiftEmbedding<T>(idx: seq<nat>, r: seq<T>, s: seq<T>)
    requires |s| > 0 && IsEmbedding(idx, r, s[1..])
    ensures IsEmbedding(Shift(idx), r, s)
    ensures forall k :: 0 <= k < |idx| ==> Shift(idx)[k] > 0
  {
    forall k | 0 <= k < |idx|
      ensures Shift(idx)[k] < |s| && r[k] == s[Shift(idx)[k]]
    {
      assert r[k] == s[1..][idx[k]];
    }
  }

  /** Position 0 can be put in front of an embedding that avoids it. */
  lemma ConsEmbedding<T>(idx: seq<nat>, r: seq<T>, s: seq<T>)
    requires |s| > 0 && IsEmbedding(idx, r, s)
    requires forall k :: 0 <= k < |idx| ==> idx[k] > 0
    ensures IsEmbedding([0] + idx, [s[0]] + r, s)
  {
    var idx', r' := [0] + idx, [s[0]] + r;
    forall k | 0 < k < |idx'|
      ensures idx'[k] < |s| && r'[k] == s[idx'[k]]
    {
      assert idx'[k] == idx[k - 1] && r'[k] == r[k - 1];
    }
    forall k, m | 0 <= k < m < |idx'|
      ensures idx'[k] < idx'[m]
    {
      assert idx'[m] == idx[m - 1];
    }
  }

  /** Every sequence is a subsequence of itself. */
  lemma SubsequenceOfSelf<T>(s: seq<T>)
    ensures IsSubsequence(s, s)
  {
    var idx := seq(|s|, k requires 0 <= k < |s| => k);
    assert IsEmbedding(idx, s, s);
  }

  /** Filtering keeps what it keeps in order: its result embeds into its input. */
  lemma {:induction false} FilterEmbeds<T(!new)>(keep: T -> bool, s: seq<T>) returns (idx: seq<nat>)
    ensures IsEmbedding(idx, Filter(keep, s), s)
  {
    if |s| == 0 {
      idx := [];
    } else {
      var rest := Filter(keep, s[1..]);
      var tail := FilterEmbeds(keep, s[1..]);
      ShiftEmbedding(tail, rest, s);
      if keep(s[0]) {
        ConsEmbedding(Shift(tail), rest, s);
        idx := [0] + Shift(tail);
      } else {
        idx := Shift(tail);
      }
    }
  }

  /** Filtering keeps every occurrence of a kept element and no occurrence of
      any other. */
  lemma {:induction false} FilterMultiset<T(!new)>(keep: T -> bool, s: seq<T>)
    ensures forall x :: multiset(Filter(keep, s))[x] == if keep(x) then multiset(s)[x] else 0
  {
    if |s| > 0 {
      FilterMultiset(keep, s[1..]);
      assert s == [s[0]] + s[1..];
    }
  }

  lemma FilterIsSubsequence<T(!new)>(keep: T -> bool, s: seq<T>)
    ensures IsSubsequence(Filter(keep, s), s)
  {
    var idx := FilterEmbeds(keep, s);
  }

  /** Filtering a duplicate-free sequence gives a duplicate-free sequence. */
  lemma {:induction false} FilterDistinct<T(!new)>(keep: T -> bool, s: seq<T>)
    requires Distinct(s)
    ensures Distinct(Filter(keep, s))
  {
    if |s| > 0 {
      FilterDistinct(keep, s[1..]);
      assert s[0] !in s[1..];
    }
  }

  /** Filtering changes nothing when every element is kept. */
  lemma {:induction false} FilterKeepsAll<T(!new)>(keep: T -> bool, s: seq<T>)
    requires forall x :: x in s ==> keep(x)
    ensures Filter(keep, s) == s
  {
    if |s| > 0 {
      FilterKeepsAll(keep, s[1..]);
      assert s == [s[0]] + s[1..];
    }
  }

  /** Filtering by `p` and then by `q` is filtering once by any `r` that holds
      exactly where both do. */
  lemma {:induction false} FilterFilter<T(!new)>(p: T -> bool, q: T -> bool, r: T -> bool, s: seq<T>)
    requires forall x :: x in s ==> (r(x) <==> p(x) && q(x))
    ensures Filter(q, Filter(p, s)) == Filter(r, s)
  {
    if |s| > 0 {
      FilterFilter(p, q, r, s[1..]);
    }
  }
}

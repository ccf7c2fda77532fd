/**
 * `selectRandomQuestions(pool, count)`: return the pool itself when the count
 * covers it, otherwise copy the pool, reorder the copy at random and keep its
 * first `count` items. The random reordering is a parameter here: `perm`
 * lists, for each position of the reordered copy, the pool position it holds.
 */
module Helpers {
  import opened Types

  /** `perm` is a permutation of the positions 0 .. n-1. */
  predicate IsPermutation(perm: seq<nat>, n: nat) {
    && |perm| == n
    && (forall i :: 0 <= i < n ==> perm[i] < n)
    && (forall i, j :: 0 <= i < j < n ==> perm[i] != perm[j])
  }

  /** `idx` names positions below `n`, none of them twice. */
  predicate DistinctIndices(idx: seq<nat>, n: nat) {
    && (forall i :: 0 <= i < |idx| ==> idx[i] < n)
    && (forall i, j :: 0 <= i < j < |idx| ==> idx[i] != idx[j])
  }

  /** No two items share an id. */
  predicate DistinctIds(items: seq<QuestionItem>) {
    forall i, j :: 0 <= i < j < |items| ==> items[i].id != items[j].id
  }

  /** The items of `s` at the positions `idx`, in that order. */
  function Pick<T>(s: seq<T>, idx: seq<nat>): (r: seq<T>)
    requires forall i :: 0 <= i < |idx| ==> idx[i] < |s|
    ensures |r| == |idx|
  {
    seq(|idx|, i requires 0 <= i < |idx| => s[idx[i]])
  }

  /** Items taken at distinct positions form a sub-multiset of the sequence: nothing is taken twice. */
  lemma {:induction false} PickSubMultiset<T>(s: seq<T>, idx: seq<nat>)
    requires DistinctIndices(idx, |s|)
    ensures multiset(Pick(s, idx)) <= multiset(s)
    decreases |s|
  {
    if idx == [] {
      assert Pick(s, idx) == [];
    } else {
      assert idx[0] < |s|;
      var n := |s| - 1;
      assert s == s[..n] + [s[n]];
      if k :| 0 <= k < |idx| && idx[k] == n {
        var rest := WithoutAt(idx, k);
        PickWithLast(s, idx, k);
        PickSubMultiset(s[..n], rest);
      } else {
        assert DistinctIndices(idx, n);
        assert Pick(s, idx) == Pick(s[..n], idx);
        PickSubMultiset(s[..n], idx);
      }
    }
  }

  /** `idx` with its `k`-th entry removed. */
  function WithoutAt(idx: seq<nat>, k: nat): (r: seq<nat>)
    requires k < |idx|
    ensures |r| == |idx| - 1
    ensures forall i :: 0 <= i < |r| ==> r[i] == if i < k then idx[i] else idx[i + 1]
  {
    idx[..k] + idx[k + 1..]
  }

  /**
   * When the last position of `s` is picked at `k`, the picked items are
   * that last item plus the items the other positions pick from the rest of `s`.
   */
  lemma PickWithLast<T>(s: seq<T>, idx: seq<nat>, k: nat)
    requires DistinctIndices(idx, |s|)
    requires k < |idx| && idx[k] == |s| - 1
    ensures DistinctIndices(WithoutAt(idx, k), |s| - 1)
    ensures multiset(Pick(s, idx)) == multiset(Pick(s[..|s| - 1], WithoutAt(idx, k))) + multiset{s[|s| - 1]}
  {
    var n := |s| - 1;
    var rest := WithoutAt(idx, k);
    assert DistinctIndices(rest, n);
    var p := Pick(s[..n], rest);
    assert Pick(s, idx) == p[..k] + [s[n]] + p[k..];
    assert p == p[..k] + p[k..];
  }

  /**
   * End position of `slice(0, count)` on a sequence of length `len`: a
   * negative count counts back from the end, a large one is clipped.
   */
  function SliceEnd(count: int, len: nat): (e: nat)
    ensures e <= len
    ensures 0 <= count ==> e == if count < len then count else len
    ensures count < 0 ==> e == if len + count < 0 then 0 else len + count
  {
    if count < 0 then (if len + count < 0 then 0 else len + count)
    else if count < len then count
    else len
  }

  /** The reordered copy `[...pool].sort(random)`, with the order given by `perm`. */
  function Shuffle(pool: seq<QuestionItem>, perm: seq<nat>): (r: seq<QuestionItem>)
    requires IsPermutation(perm, |pool|)
    ensures |r| == |pool|
    ensures multiset(r) == multiset(pool)
  {
    PickSubMultiset(pool, perm);
    var r := Pick(pool, perm);
    SameSizeSubMultiset(multiset(r), multiset(pool));
    r
  }

  /** A sub-multiset as large as the whole is the whole. */
  lemma SameSizeSubMultiset<T>(a: multiset<T>, b: multiset<T>)
    requires a <= b && |a| == |b|
    ensures a == b
  {
    var d := b - a;
    assert b == a + d;
    assert |d| == 0;
  }

  /**
   * `selectRandomQuestions(pool, count)` with the random order supplied as
   * `perm`: the pool itself, in its order, when `count >= pool.length`;
   * otherwise the first `count` items of the reordered copy (JavaScript
   * `slice` semantics for a negative count). Each returned item is taken
   * from its own pool position, so the result is a sub-multiset of the pool.
   */
  function SelectRandomQuestions(pool: seq<QuestionItem>, count: int, perm: seq<nat>): (r: seq<QuestionItem>)
    requires IsPermutation(perm, |pool|)
    ensures count >= |pool| ==> r == pool
    ensures 0 <= count < |pool| ==> |r| == count
    ensures count < 0 ==> |r| == if |pool| + count < 0 then 0 else |pool| + count
    ensures multiset(r) <= multiset(pool)
    ensures forall q :: q in r ==> q in pool
  {
    if count >= |pool| then pool
    else
      var e := SliceEnd(count, |pool|);
      var r := Shuffle(pool, perm)[..e];
      assert r == Pick(pool, perm[..e]);
      PickSubMultiset(pool, perm[..e]);
      assert forall q :: q in r ==> q in multiset(r);
      r
  }

  /** With pairwise distinct pool ids, the selected ids are pairwise distinct too. */
  lemma SelectionIdsDistinct(pool: seq<QuestionItem>, count: int, perm: seq<nat>)
    requires IsPermutation(perm, |pool|)
    requires DistinctIds(pool)
    ensures DistinctIds(SelectRandomQuestions(pool, count, perm))
  {
    var r := SelectRandomQuestions(pool, count, perm);
    if count < |pool| {
      forall i, j | 0 <= i < j < |r|
        ensures r[i].id != r[j].id
      {
        assert r[i] == pool[perm[i]] && r[j] == pool[perm[j]];
      }
    }
  }
}

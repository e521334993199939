/**
 * Selection of the `k` largest entries of a flat score vector, returned as
 * positions ordered by non-increasing value.  This is the behaviour the
 * predictor relies on from `torch.topk(..., dim=1)`; the order among equal
 * values is implementation-defined there, so only ordering and dominance are
 * specified and the definition below picks the first maximum.
 */
module TopK {

  /** Every position in `idx` addresses an entry of `v`. */
  predicate InBounds(v: seq<real>, idx: seq<nat>) {
    forall i :: 0 <= i < |idx| ==> idx[i] < |v|
  }

  /** The positions in `idx` are pairwise different. */
  predicate Distinct(idx: seq<nat>) {
    forall i, j :: 0 <= i < j < |idx| ==> idx[i] != idx[j]
  }

  /** The values addressed by `idx` never increase along `idx`. */
  predicate Descending(v: seq<real>, idx: seq<nat>)
    requires InBounds(v, idx)
  {
    forall i, j :: 0 <= i < j < |idx| ==> v[idx[i]] >= v[idx[j]]
  }

  /** The positions 0, 1, ..., n-1 in order. */
  function Range(n: nat): (r: seq<nat>)
    ensures |r| == n
    ensures forall i :: 0 <= i < n ==> r[i] == i
  {
    if n == 0 then [] else Range(n - 1) + [n - 1]
  }

  /** Position in `idx` (not in `v`) of the first largest addressed value. */
  function ArgMax(v: seq<real>, idx: seq<nat>): (m: nat)
    requires InBounds(v, idx) && |idx| > 0
    ensures m < |idx|
    ensures forall i :: 0 <= i < |idx| ==> v[idx[m]] >= v[idx[i]]
  {
    if |idx| == 1 then 0
    else
      var m' := ArgMax(v, idx[1..]);
      if v[idx[0]] >= v[idx[1 + m']] then 0 else 1 + m'
  }

  /**
   * Selection sort of the positions `idx` by decreasing value: the result is a
   * rearrangement of `idx`, it is descending, and it has no repeated position
   * when `idx` has none.
   */
  function SortByValue(v: seq<real>, idx: seq<nat>): (r: seq<nat>)
    requires InBounds(v, idx)
    ensures |r| == |idx| && multiset(r) == multiset(idx)
    ensures InBounds(v, r) && Descending(v, r)
    ensures Distinct(idx) ==> Distinct(r)
    decreases |idx|
  {
    if idx == [] then []
    else
      var m := ArgMax(v, idx);
      var rest := idx[..m] + idx[m + 1..];
      var tail := SortByValue(v, rest);
      SelectStep(v, idx, m, rest, tail);
      [idx[m]] + tail
  }

  /**
   * One selection step: putting the maximum in front of a sorted rearrangement
   * of the other positions gives a sorted rearrangement of all of them.
   */
  lemma SelectStep(v: seq<real>, idx: seq<nat>, m: nat, rest: seq<nat>, tail: seq<nat>)
    requires InBounds(v, idx) && m < |idx|
    requires forall i :: 0 <= i < |idx| ==> v[idx[m]] >= v[idx[i]]
    requires rest == idx[..m] + idx[m + 1..]
    requires |tail| == |rest| && multiset(tail) == multiset(rest)
    requires InBounds(v, tail) && Descending(v, tail)
    requires Distinct(rest) ==> Distinct(tail)
    ensures multiset([idx[m]] + tail) == multiset(idx)
    ensures InBounds(v, [idx[m]] + tail) && Descending(v, [idx[m]] + tail)
    ensures Distinct(idx) ==> Distinct([idx[m]] + tail)
  {
    assert idx == idx[..m] + [idx[m]] + idx[m + 1..];
    calc {
      multiset(idx);
      multiset(idx[..m]) + multiset([idx[m]]) + multiset(idx[m + 1..]);
      multiset([idx[m]]) + multiset(rest);
    }
    TailBelow(v, idx, m, rest, tail);
    HeadNotInTail(idx, m, rest, tail);
    var r := [idx[m]] + tail;
    forall i, j | 0 <= i < j < |r| ensures v[r[i]] >= v[r[j]] {
      if i > 0 { assert r[i] == tail[i - 1] && r[j] == tail[j - 1]; }
    }
    if Distinct(idx) {
      forall i, j | 0 <= i < j < |r| ensures r[i] != r[j] {
        if i > 0 { assert r[i] == tail[i - 1] && r[j] == tail[j - 1]; }
        else { assert r[j] == tail[j - 1] && r[j] in tail; }
      }
    }
  }

  /** Every element of the sorted remainder is at most the selected maximum. */
  lemma TailBelow(v: seq<real>, idx: seq<nat>, m: nat, rest: seq<nat>, tail: seq<nat>)
    requires InBounds(v, idx) && m < |idx|
    requires forall i :: 0 <= i < |idx| ==> v[idx[m]] >= v[idx[i]]
    requires rest == idx[..m] + idx[m + 1..]
    requires multiset(tail) == multiset(rest)
    ensures InBounds(v, tail)
    ensures forall i :: 0 <= i < |tail| ==> v[idx[m]] >= v[tail[i]]
  {
    forall i | 0 <= i < |tail|
      ensures tail[i] < |v| && v[idx[m]] >= v[tail[i]]
    {
      assert tail[i] in multiset(tail);
      assert tail[i] in rest;
      var q :| 0 <= q < |rest| && rest[q] == tail[i];
      if q < m { assert rest[q] == idx[q]; } else { assert rest[q] == idx[q + 1]; }
    }
  }

  /** With no repeats in `idx`, the selected position is not in the remainder. */
  lemma HeadNotInTail(idx: seq<nat>, m: nat, rest: seq<nat>, tail: seq<nat>)
    requires m < |idx|
    requires rest == idx[..m] + idx[m + 1..]
    requires multiset(tail) == multiset(rest)
    ensures Distinct(idx) ==> Distinct(rest) && idx[m] !in tail
  {
    if !Distinct(idx) { return; }
    forall i, j | 0 <= i < j < |rest| ensures rest[i] != rest[j] {
      var i' := if i < m then i else i + 1;
      var j' := if j < m then j else j + 1;
      assert rest[i] == idx[i'] && rest[j] == idx[j'];
    }
    forall q | 0 <= q < |rest| ensures rest[q] != idx[m] {
      if q < m { assert rest[q] == idx[q]; } else { assert rest[q] == idx[q + 1]; }
    }
    assert idx[m] !in rest;
    assert idx[m] !in multiset(tail);
  }

  /** The positions of the `k` largest entries of `v`, largest first. */
  function TopIndices(v: seq<real>, k: nat): (r: seq<nat>)
    requires k <= |v|
    ensures |r| == k && InBounds(v, r)
  {
    SortByValue(v, Range(|v|))[..k]
  }

  /**
   * What top-k selection promises: `k` distinct positions of `v`, ordered by
   * non-increasing value, and every selected value is at least every value
   * that was not selected.
   */
  lemma TopIndicesSpec(v: seq<real>, k: nat)
    requires k <= |v|
    ensures Distinct(TopIndices(v, k))
    ensures Descending(v, TopIndices(v, k))
    ensures forall i, p :: 0 <= i < k && 0 <= p < |v| && p !in TopIndices(v, k) ==>
              v[TopIndices(v, k)[i]] >= v[p]
  {
    var all := Range(|v|);
    var s := SortByValue(v, all);
    var r := TopIndices(v, k);
    assert r == s[..k];
    assert Distinct(all);
    forall i, p | 0 <= i < k && 0 <= p < |v| && p !in r
      ensures v[r[i]] >= v[p]
    {
      assert all[p] == p;
      assert p in multiset(all);
      assert p in s;
      var q :| 0 <= q < |s| && s[q] == p;
      PrefixMember(s, k, q);
    }
  }

  /** A position before k holds an element of the first k. */
  lemma PrefixMember(s: seq<nat>, k: nat, q: nat)
    requires k <= |s| && q < |s|
    ensures q < k ==> s[q] in s[..k]
  {
    if q < k {
      assert s[..k][q] == s[q];
    }
  }

  /** Instance of the dominance clause of TopIndicesSpec for one rank and one unselected position. */
  lemma TopIndexDominates(v: seq<real>, k: nat, i: nat, p: nat)
    requires k <= |v| && i < k && p < |v| && p !in TopIndices(v, k)
    ensures v[TopIndices(v, k)[i]] >= v[p]
  {
    TopIndicesSpec(v, k);
  }
}

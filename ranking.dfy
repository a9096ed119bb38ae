/** Activity ranking: neurons ordered by mean activity over trials and bins,
    and the most active ones selected. */
module Ranking {
  import opened Tensors
  import opened Binarizer

  function RowSum(row: seq<real>): real {
    if row == [] then 0.0 else RowSum(row[..|row| - 1]) + row[|row| - 1]
  }

  /** All the activity of neuron `j`, summed over every trial and bin. */
  function NeuronTotal(a: Cells3, j: nat): real
    requires forall c :: 0 <= c < |a| ==> j < |a[c]|
  {
    if a == [] then 0.0 else NeuronTotal(a[..|a| - 1], j) + RowSum(a[|a| - 1][j])
  }

  /** `arr.mean(axis=0).mean(axis=1)`: the mean over trials of the mean over
      bins, which for a T × N × M box is each neuron's total over T·M. On a
      0/1 tensor every entry is a firing rate between 0 and 1. */
  function Activity(a: Cells3, t: nat, n: nat, m: nat): (r: seq<real>)
    requires IsCube(a, t, n, m) && t > 0 && m > 0
    ensures |r| == n
    ensures AllBits3(a) ==> forall j :: 0 <= j < n ==> 0.0 <= r[j] <= 1.0
  {
    NeuronRates(a, t, n, m);
    seq(n, j requires 0 <= j < n => NeuronTotal(a, j) / ((t * m) as real))
  }

  lemma {:induction false} RowSumBounds(row: seq<real>)
    requires forall i :: 0 <= i < |row| ==> IsBit(row[i])
    ensures 0.0 <= RowSum(row) <= |row| as real
  {
    if row != [] {
      RowSumBounds(row[..|row| - 1]);
    }
  }

  lemma {:induction false} NeuronTotalBounds(a: Cells3, t: nat, n: nat, m: nat, j: nat)
    requires IsCube(a, t, n, m) && AllBits3(a) && j < n
    ensures 0.0 <= NeuronTotal(a, j) <= (t * m) as real
  {
    if a != [] {
      var front := a[..|a| - 1];
      assert forall c :: 0 <= c < |front| ==> front[c] == a[c];
      NeuronTotalBounds(front, t - 1, n, m, j);
      RowSumBounds(a[|a| - 1][j]);
      assert (t - 1) * m + m == t * m;
    }
  }

  /** On a binary tensor each neuron's total over T·M is a firing rate: the
      fraction of (trial, bin) cells holding a spike, between 0 and 1. */
  lemma NeuronRates(a: Cells3, t: nat, n: nat, m: nat)
    requires IsCube(a, t, n, m) && t > 0 && m > 0
    ensures AllBits3(a) ==> forall j :: 0 <= j < n ==> 0.0 <= NeuronTotal(a, j) / ((t * m) as real) <= 1.0
  {
    if AllBits3(a) {
      PositiveProduct(t, m);
      forall j | 0 <= j < n ensures 0.0 <= NeuronTotal(a, j) / ((t * m) as real) <= 1.0 {
        NeuronTotalBounds(a, t, n, m, j);
        FractionBounds(NeuronTotal(a, j), (t * m) as real);
      }
    }
  }

  lemma PositiveProduct(t: nat, m: nat)
    requires t > 0 && m > 0
    ensures t * m > 0
  {
  }

  /** A part of a positive whole, divided by the whole, is between 0 and 1. */
  lemma FractionBounds(x: real, d: real)
    requires 0.0 <= x <= d && d > 0.0
    ensures 0.0 <= x / d <= 1.0
  {
    assert (x / d) * d == x;
  }

  /** `p` lists every index below `n` exactly once. */
  predicate IsIndexPermutation(p: seq<nat>, n: nat) {
    && |p| == n
    && (forall k :: 0 <= k < |p| ==> p[k] < n)
    && (forall k1, k2 :: 0 <= k1 < k2 < |p| ==> p[k1] != p[k2])
    && (forall x :: 0 <= x < n ==> x in p)
  }

  /** The keys of the listed indices never decrease along `p`. */
  predicate SortedBy(p: seq<nat>, key: seq<real>)
    requires forall k :: 0 <= k < |p| ==> p[k] < |key|
  {
    forall k1, k2 :: 0 <= k1 < k2 < |p| ==> key[p[k1]] <= key[p[k2]]
  }

  /** `argsort`: an ordering of all indices by ascending key. numpy's default
      sort is not stable, so the order among equal keys is left open. */
  method ArgSort(key: seq<real>) returns (p: seq<nat>)
    ensures IsIndexPermutation(p, |key|)
    ensures SortedBy(p, key)
  {
    p := [];
    for i := 0 to |key|
      invariant IsIndexPermutation(p, i)
      invariant SortedBy(p, key)
    {
      var j := |p|;
      while j > 0 && key[p[j - 1]] > key[i]
        invariant 0 <= j <= |p|
        invariant forall q :: j <= q < |p| ==> key[p[q]] > key[i]
      {
        j := j - 1;
      }
      InsertKeepsOrder(key, p, i, j);
      p := p[..j] + [i] + p[j..];
    }
  }

  /** Inserting the next index where the keys before it do not exceed its
      own and the keys after it do keeps an ascending ordering. */
  lemma InsertKeepsOrder(key: seq<real>, p: seq<nat>, i: nat, j: nat)
    requires i < |key| && IsIndexPermutation(p, i) && SortedBy(p, key) && j <= |p|
    requires j > 0 ==> key[p[j - 1]] <= key[i]
    requires forall q :: j <= q < |p| ==> key[p[q]] > key[i]
    ensures IsIndexPermutation(p[..j] + [i] + p[j..], i + 1)
    ensures SortedBy(p[..j] + [i] + p[j..], key)
  {
    InsertIsPermutation(p, i, j);
    var r := p[..j] + [i] + p[j..];
    assert forall q :: 0 <= q < |r| ==> r[q] == if q < j then p[q] else if q == j then i else p[q - 1];
    forall q1, q2 | 0 <= q1 < q2 < |r| ensures key[r[q1]] <= key[r[q2]] {
      if q2 < j {
      } else if q2 == j {
        assert key[p[q1]] <= key[p[j - 1]];
      } else if q1 < j {
        assert key[p[q1]] <= key[p[q2 - 1]];
      } else if q1 > j {
        assert key[p[q1 - 1]] <= key[p[q2 - 1]];
      }
    }
  }

  /** Inserting the next index anywhere in a permutation of the smaller ones
      gives a permutation of one more. */
  lemma InsertIsPermutation(p: seq<nat>, i: nat, j: nat)
    requires IsIndexPermutation(p, i) && j <= |p|
    ensures IsIndexPermutation(p[..j] + [i] + p[j..], i + 1)
  {
    var r := p[..j] + [i] + p[j..];
    assert |r| == i + 1;
    forall q | 0 <= q < |r| ensures r[q] == if q < j then p[q] else if q == j then i else p[q - 1] {
    }
    forall q1, q2 | 0 <= q1 < q2 < |r| ensures r[q1] != r[q2] {
      if q2 < j {
        assert r[q1] == p[q1] && r[q2] == p[q2];
      } else if q1 > j {
        assert r[q1] == p[q1 - 1] && r[q2] == p[q2 - 1];
      } else if q1 < j {
        assert r[q1] == p[q1] && r[q1] < i;
      } else {
        assert r[q2] == p[q2 - 1] && r[q2] < i;
      }
    }
    forall x | 0 <= x < i + 1 ensures x in r {
      if x < i {
        assert x in p;
        var q :| 0 <= q < |p| && p[q] == x;
        if q < j { assert r[q] == x; } else { assert r[q + 1] == x; }
      } else {
        assert r[j] == x;
      }
    }
  }

  /** `idx[-K:]`: the last `k` entries of an ascending activity ordering.
      They are the `k` most active neurons: distinct, still in ascending
      order, and no neuron left out is more active than one kept. With `k`
      equal to the count they are all the neurons. */
  function MostActive(key: seq<real>, p: seq<nat>, k: nat): (r: seq<nat>)
    requires IsIndexPermutation(p, |key|) && SortedBy(p, key) && k <= |p|
    ensures |r| == k
    ensures forall q :: 0 <= q < k ==> r[q] < |key|
    ensures forall q1, q2 :: 0 <= q1 < q2 < k ==> r[q1] != r[q2]
    ensures SortedBy(r, key)
    ensures forall x, q :: 0 <= x < |key| && x !in r && 0 <= q < k ==> key[x] <= key[r[q]]
    ensures k == |key| ==> IsIndexPermutation(r, |key|)
  {
    MostActiveAreTop(key, p, k, p[|p| - k..]);
    p[|p| - k..]
  }

  /** The tail `s` of an ascending permutation is distinct, ascending and
      dominates every index left out; a full-length tail is a permutation. */
  lemma MostActiveAreTop(key: seq<real>, p: seq<nat>, k: nat, s: seq<nat>)
    requires IsIndexPermutation(p, |key|) && SortedBy(p, key) && k <= |p| && s == p[|p| - k..]
    ensures forall q :: 0 <= q < k ==> s[q] < |key|
    ensures forall q1, q2 :: 0 <= q1 < q2 < k ==> s[q1] != s[q2]
    ensures SortedBy(s, key)
    ensures forall x, q :: 0 <= x < |key| && x !in s && 0 <= q < k ==> key[x] <= key[s[q]]
    ensures k == |key| ==> IsIndexPermutation(s, |key|)
  {
    var cut := |p| - k;
    assert forall q :: 0 <= q < k ==> s[q] == p[cut + q];
    assert forall q :: cut <= q < |p| ==> p[q] == s[q - cut] && p[q] in s;
    TailDominates(key, p, k, s);
  }

  /** An index missing from the tail sits before it, so its key is no larger
      than any key in the tail. */
  lemma TailDominates(key: seq<real>, p: seq<nat>, k: nat, s: seq<nat>)
    requires IsIndexPermutation(p, |key|) && SortedBy(p, key) && k <= |p| && s == p[|p| - k..]
    ensures forall x, q :: 0 <= x < |key| && x !in s && 0 <= q < k ==> key[x] <= key[s[q]]
  {
    var cut := |p| - k;
    assert forall q :: cut <= q < |p| ==> p[q] == s[q - cut] && p[q] in s;
    forall x, q | 0 <= x < |key| && x !in s && 0 <= q < k
      ensures key[x] <= key[s[q]]
    {
      assert s[q] == p[cut + q];
      assert x in p;
      var px :| 0 <= px < |p| && p[px] == x;
      assert px < cut + q;
    }
  }

  /** The ranking step: argsort the activities, keep the last `k` of the
      ordering, and look up their activities. The kept neurons are
      distinct, ascending in activity, and at least as active as any
      neuron left out; their activities are listed in the same order. */
  method SelectMostActive(a: Cells3, t: nat, n: nat, m: nat, k: nat) returns (sel: seq<nat>, acts: seq<real>)
    requires IsCube(a, t, n, m) && t > 0 && m > 0 && k <= n
    ensures |sel| == k && |acts| == k
    ensures forall q :: 0 <= q < k ==> sel[q] < n
    ensures forall q1, q2 :: 0 <= q1 < q2 < k ==> sel[q1] != sel[q2]
    ensures SortedBy(sel, Activity(a, t, n, m))
    ensures forall x, q :: 0 <= x < n && x !in sel && 0 <= q < k ==> Activity(a, t, n, m)[x] <= Activity(a, t, n, m)[sel[q]]
    ensures k == n ==> IsIndexPermutation(sel, n)
    ensures forall q :: 0 <= q < k ==> acts[q] == Activity(a, t, n, m)[sel[q]]
    ensures forall q1, q2 :: 0 <= q1 < q2 < k ==> acts[q1] <= acts[q2]
  {
    var activity := Activity(a, t, n, m);
    var order := ArgSort(activity);
    sel := MostActive(activity, order, k);
    acts := seq(k, q requires 0 <= q < k => activity[sel[q]]);
  }

  /** `arr[:, idx, :]`: neuron `j` of the result is neuron `sel[j]` of `a`. */
  function SelectNeurons(a: Cells3, t: nat, n: nat, m: nat, sel: seq<nat>): (r: Cells3)
    requires IsCube(a, t, n, m) && forall j :: 0 <= j < |sel| ==> sel[j] < n
    ensures IsCube(r, t, |sel|, m)
    ensures forall c, j :: 0 <= c < t && 0 <= j < |sel| ==> r[c][j] == a[c][sel[j]]
  {
    seq(t, c requires 0 <= c < t => seq(|sel|, j requires 0 <= j < |sel| => a[c][sel[j]]))
  }
}

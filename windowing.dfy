/** Windowed feature extraction: for each chosen trial and each window
    position, the `ws` consecutive bins of every neuron, flattened neuron by
    neuron; and the reshape of those windows into one row per sample. */
module Windowing {
  import opened Tensors

  /** `plane[:, i:i+ws]`: bins `i` to `i + ws` of every neuron. */
  function Window(plane: seq<seq<real>>, i: nat, ws: nat): (s: seq<seq<real>>)
    requires forall j :: 0 <= j < |plane| ==> i + ws <= |plane[j]|
    ensures |s| == |plane|
    ensures forall j :: 0 <= j < |s| ==> s[j] == plane[j][i..i + ws]
  {
    seq(|plane|, j requires 0 <= j < |plane| => plane[j][i..i + ws])
  }

  /** The windowed tensor the extractor promises: trial `c` of the result,
      feature `r`, position `i` is entry `r` of the flattened window at `i`
      of trial `trials[c]`. There are `m - ws + 1` positions. */
  function Windowed(a: Cells3, t: nat, n: nat, m: nat, trials: seq<nat>, ws: nat): (x: Cells3)
    requires IsCube(a, t, n, m) && ws <= m + 1
    requires ws <= m ==> TrialsOk(trials, t)
    ensures IsCube(x, |trials|, ws * n, m - ws + 1)
  {
    seq(|trials|, c requires 0 <= c < |trials| =>
      seq(ws * n, r requires 0 <= r < ws * n =>
        seq(m - ws + 1, i requires 0 <= i < m - ws + 1 =>
          Flatten(Window(a[trials[c]], i, ws), ws)[r])))
  }

  /** Source-major, time-minor layout: feature `j * ws + k` of position `i`
      is neuron `j` at bin `i + k`. */
  lemma WindowedAt(a: Cells3, t: nat, n: nat, m: nat, trials: seq<nat>, ws: nat, c: nat, j: nat, k: nat, i: nat)
    requires IsCube(a, t, n, m) && ws <= m + 1
    requires ws <= m ==> TrialsOk(trials, t)
    requires c < |trials| && j < n && k < ws && i < m - ws + 1
    ensures j * ws + k < ws * n
    ensures Windowed(a, t, n, m, trials, ws)[c][j * ws + k][i] == a[trials[c]][j][i + k]
  {
    var w := Window(a[trials[c]], i, ws);
    FlattenAt(w, ws, j, k);
    assert j * ws + k < ws * n by {
      assert n * ws == ws * n;
    }
    assert w[j][k] == a[trials[c]][j][i + k];
    assert Windowed(a, t, n, m, trials, ws)[c][j * ws + k][i] == Flatten(w, ws)[j * ws + k];
  }

  /** A window of one bin gives back the chosen trials unchanged. */
  lemma WindowSizeOneSelects(a: Cells3, t: nat, n: nat, m: nat, trials: seq<nat>, c: nat)
    requires IsCube(a, t, n, m) && TrialsOk(trials, t) && c < |trials|
    ensures Windowed(a, t, n, m, trials, 1)[c] == a[trials[c]]
  {
    var x := Windowed(a, t, n, m, trials, 1);
    forall j, i | 0 <= j < n && 0 <= i < m ensures x[c][j][i] == a[trials[c]][j][i] {
      WindowedAt(a, t, n, m, trials, 1, c, j, 0, i);
    }
    forall j | 0 <= j < n ensures x[c][j] == a[trials[c]][j] {
    }
  }

  /** Over all trials, a window of one bin is the identity. */
  lemma WindowSizeOneIsIdentity(a: Cells3, t: nat, n: nat, m: nat)
    requires IsCube(a, t, n, m)
    ensures Windowed(a, t, n, m, Range(t), 1) == a
  {
    var x := Windowed(a, t, n, m, Range(t), 1);
    forall c | 0 <= c < t ensures x[c] == a[c] {
      WindowSizeOneSelects(a, t, n, m, Range(t), c);
    }
  }

  /** The first double loop of `to_windowed`: a zeroed |trials| × (ws·N) ×
      (M − ws + 1) array whose column `i` of plane `c` receives the
      flattened window at `i` of trial `trials[c]`. */
  method FillWindows(a: Cells3, t: nat, n: nat, m: nat, trials: seq<nat>, ws: nat) returns (x: array3<real>)
    requires IsCube(a, t, n, m) && ws <= m + 1
    requires ws <= m ==> TrialsOk(trials, t)
    ensures fresh(x)
    ensures x.Length0 == |trials| && x.Length1 == ws * n && x.Length2 == m - ws + 1
    ensures forall c, r, i :: 0 <= c < |trials| && 0 <= r < ws * n && 0 <= i < m - ws + 1 ==>
      x[c, r, i] == Windowed(a, t, n, m, trials, ws)[c][r][i]
  {
    var w := m - ws + 1;
    x := new real[|trials|, ws * n, w]((_, _, _) => 0.0);
    ghost var target := Windowed(a, t, n, m, trials, ws);
    for c := 0 to |trials|
      invariant forall c', r, i :: 0 <= c' < c && 0 <= r < ws * n && 0 <= i < w ==>
        x[c', r, i] == target[c'][r][i]
    {
      for i := 0 to w
        invariant forall c', r, i' :: 0 <= c' < c && 0 <= r < ws * n && 0 <= i' < w ==>
          x[c', r, i'] == target[c'][r][i']
        invariant forall r, i' :: 0 <= r < ws * n && 0 <= i' < i ==> x[c, r, i'] == target[c][r][i']
      {
        var column := Flatten(Window(a[trials[c]], i, ws), ws);
        assert forall r :: 0 <= r < ws * n ==> target[c][r][i] == column[r];
        FillColumn(x, c, i, column);
      }
    }
  }

  /** One pass of the inner loop: column `i` of plane `c` receives `column`. */
  method FillColumn(x: array3<real>, c: nat, i: nat, column: seq<real>)
    requires c < x.Length0 && i < x.Length2 && |column| == x.Length1
    modifies x
    ensures forall c', r, i' :: 0 <= c' < x.Length0 && 0 <= r < x.Length1 && 0 <= i' < x.Length2 && (c' != c || i' != i) ==>
      x[c', r, i'] == old(x[c', r, i'])
    ensures forall r :: 0 <= r < x.Length1 ==> x[c, r, i] == column[r]
  {
    forall r | 0 <= r < x.Length1 {
      x[c, r, i] := column[r];
    }
  }

  /** Bin `j` of every row of a plane. */
  function Column(plane: seq<seq<real>>, j: nat): (col: seq<real>)
    requires forall r :: 0 <= r < |plane| ==> j < |plane[r]|
    ensures |col| == |plane| && forall r :: 0 <= r < |plane| ==> col[r] == plane[r][j]
  {
    seq(|plane|, r requires 0 <= r < |plane| => plane[r][j])
  }

  /** The reshaped sample matrix: one row per (trial, position) pair, trial
      by trial, each row the feature column at that position. */
  function Samples(x: Cells3, d: nat, rows: nat, w: nat): (y: seq<seq<real>>)
    requires IsCube(x, d, rows, w)
    ensures IsMatrix(y, d * w, rows)
  {
    var blocks := seq(d, c requires 0 <= c < d => seq(w, j requires 0 <= j < w => Column(x[c], j)));
    var y := Flatten(blocks, w);
    assert forall k :: 0 <= k < |y| ==> |y[k]| == rows by {
      forall k | 0 <= k < |y| ensures |y[k]| == rows {
        FlattenElements(blocks, w, rows, k);
      }
    }
    y
  }

  /** Every element of a flattening is an element of some piece. */
  lemma {:induction false} FlattenElements(s: seq<seq<seq<real>>>, w: nat, len: nat, k: nat)
    requires forall p :: 0 <= p < |s| ==> |s[p]| == w
    requires forall p, q :: 0 <= p < |s| && 0 <= q < w ==> |s[p][q]| == len
    requires k < |Flatten(s, w)|
    ensures |Flatten(s, w)[k]| == len
  {
    if k >= w {
      FlattenElements(s[1..], w, len, k - w);
    }
  }

  /** Row `c * w + j` of the samples is position `j` of trial `c`. */
  lemma SamplesAt(x: Cells3, d: nat, rows: nat, w: nat, c: nat, j: nat)
    requires IsCube(x, d, rows, w) && c < d && j < w
    ensures c * w + j < d * w
    ensures Samples(x, d, rows, w)[c * w + j] == Column(x[c], j)
  {
    var blocks := seq(d, c requires 0 <= c < d => seq(w, j requires 0 <= j < w => Column(x[c], j)));
    FlattenAt(blocks, w, c, j);
  }

  /** The `reshape` loop: a running row counter walks the trials, and within
      each trial the positions, copying each feature column into the next
      row; the result is the sample matrix of the windowed array. */
  method SampleRows(x: array3<real>) returns (y: array2<real>)
    ensures fresh(y)
    ensures y.Length0 == x.Length0 * x.Length2 && y.Length1 == x.Length1
    ensures forall k, r :: 0 <= k < y.Length0 && 0 <= r < y.Length1 ==>
      y[k, r] == Samples(Cells3Of(x), x.Length0, x.Length1, x.Length2)[k][r]
  {
    var d, w := x.Length0, x.Length2;
    y := new real[d * w, x.Length1]((_, _) => 0.0);
    ghost var cells := Cells3Of(x);
    ghost var target := Samples(cells, d, x.Length1, w);
    var tot := 0;
    for c := 0 to d
      invariant tot == c * w
      invariant forall k, r :: 0 <= k < tot && 0 <= r < x.Length1 ==> y[k, r] == target[k][r]
    {
      SamplesBlock(cells, d, x.Length1, w, c, tot);
      tot := CopyBlock(x, y, c, tot);
      assert tot == (c + 1) * w;
    }
  }

  /** The rows of trial `c` start at `b = c * w`: they hold its positions in
      order, and they lie inside the sample matrix. */
  lemma SamplesBlock(x: Cells3, d: nat, rows: nat, w: nat, c: nat, b: nat)
    requires IsCube(x, d, rows, w) && c < d && b == c * w
    ensures b + w <= d * w
    ensures forall k, r :: b <= k < b + w && 0 <= r < rows ==> Samples(x, d, rows, w)[k][r] == x[c][r][k - b]
  {
    if w > 0 {
      SamplesAt(x, d, rows, w, c, w - 1);
    }
    forall k, r | b <= k < b + w && 0 <= r < rows ensures Samples(x, d, rows, w)[k][r] == x[c][r][k - b] {
      SamplesAt(x, d, rows, w, c, k - b);
    }
  }

  /** One pass of the inner loop: the columns of plane `c` go to the rows
      from `tot` on, and the counter ends one past the last row written. */
  method CopyBlock(x: array3<real>, y: array2<real>, c: nat, tot: nat) returns (next: nat)
    requires c < x.Length0 && tot + x.Length2 <= y.Length0 && y.Length1 == x.Length1
    modifies y
    ensures next == tot + x.Length2
    ensures forall k, r :: 0 <= k < y.Length0 && (k < tot || k >= next) && 0 <= r < y.Length1 ==>
      y[k, r] == old(y[k, r])
    ensures forall k, r :: tot <= k < next && 0 <= r < x.Length1 ==> y[k, r] == x[c, r, k - tot]
  {
    next := tot;
    for j := 0 to x.Length2
      invariant next == tot + j
      invariant forall k, r :: 0 <= k < y.Length0 && (k < tot || k >= next) && 0 <= r < y.Length1 ==>
        y[k, r] == old(y[k, r])
      invariant forall k, r :: tot <= k < next && 0 <= r < x.Length1 ==> y[k, r] == x[c, r, k - tot]
    {
      forall r | 0 <= r < x.Length1 {
        y[next, r] := x[c, r, j];
      }
      next := next + 1;
    }
  }

  /** End to end: in the sample matrix of a windowing with `w` positions,
      the row of trial `c` at position `i` holds, at feature `j * ws + k`,
      neuron `j` of trial `trials[c]` at bin `i + k`. */
  lemma WindowedSampleAt(a: Cells3, t: nat, n: nat, m: nat, trials: seq<nat>, ws: nat, w: nat, c: nat, i: nat, j: nat, k: nat)
    requires IsCube(a, t, n, m) && ws <= m + 1 && w == m - ws + 1
    requires ws <= m ==> TrialsOk(trials, t)
    requires c < |trials| && i < w && j < n && k < ws
    ensures c * w + i < |trials| * w && j * ws + k < ws * n
    ensures Samples(Windowed(a, t, n, m, trials, ws), |trials|, ws * n, w)[c * w + i][j * ws + k] == a[trials[c]][j][i + k]
  {
    var x := Windowed(a, t, n, m, trials, ws);
    SamplesAt(x, |trials|, ws * n, w, c, i);
    WindowedAt(a, t, n, m, trials, ws, c, j, k, i);
  }
}

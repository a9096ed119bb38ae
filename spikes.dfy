/** The spike container: a held array with its trial, neuron and bin counts,
    built from an array or from spike times, and the views derived from it. */
module SpikeTrains {
  import opened Tensors
  import opened Binarizer
  import opened Binning
  import opened TrialShape
  import opened Ranking
  import opened Windowing
  import opened Rasters

  /** `stop or M`: a stop of 0 (or none) means the end of the bins. */
  function StopOr(stop: nat, m: nat): (s: nat)
    ensures stop == 0 ==> s == m
    ensures stop != 0 ==> s == stop
  {
    if stop == 0 then m else stop
  }

  /** How many neurons `idx[-N:]` keeps out of `n` once the count is set
      from `top`: a negative slice start past the front keeps everything. */
  function Kept(top: nat, n: nat): (k: nat)
    ensures k <= n
    ensures top == 0 || top >= n ==> k == n
    ensures 0 < top <= n ==> k == top
  {
    if top == 0 || top > n then n else top
  }

  class Spikes {
    /** `_spikes_arr`: the held array. */
    var arr: NdArray
    /** `_T`, `_N`, `_M`: the trial, neuron and bin counts. */
    var t: nat
    var n: nat
    var m: nat
    /** `idx`, `mean_activities`: set by the activity ranking. */
    var idx: seq<nat>
    var meanActivities: seq<real>
    /** `max_millisec`: set by binning. */
    var maxMillisec: real
    /** `bin_size`: set when built from spike times. */
    var binSize: nat

    /** The held array is a well-formed T × N × M tensor whose shape the
        counts record. */
    ghost predicate Valid()
      reads this
    {
      arr.Cube? && arr.WellFormed() && arr.depth == t && arr.rows == n && arr.cols == m
    }

    /** `Spikes(spikes_arr=…, preprocess=…)`: the array is given a trial axis
        if it has none, the counts are read from its shape, and when asked
        the cells are binarized. */
    constructor FromArray(raw: NdArray, preprocess: bool)
      requires raw.WellFormed()
      ensures Valid()
      ensures arr == if preprocess then BinarizeNd(Normalize(raw)) else Normalize(raw)
      ensures t == Normalize(raw).depth && n == Normalize(raw).rows && m == Normalize(raw).cols
      ensures idx == [] && meanActivities == []
    {
      arr := raw;
      t, n, m := 0, 0, 0;
      idx, meanActivities := [], [];
      maxMillisec, binSize := 0.0, 0;
      new;
      NormalizeShape();
      if preprocess {
        Preprocess();
      }
    }

    /** `Spikes(spk_files=…)` once the files are read: the spike times are
        binned (a bin size of 0 means 1), the N × W grid becomes a one-trial
        tensor and, when asked, is binarized, which leaves a 0/1 grid as it is. */
    constructor FromSpikeTimes(lists: seq<seq<nat>>, binSize: nat, preprocess: bool)
      requires |lists| > 0 && AllNonEmpty(lists)
      ensures Valid()
      ensures this.binSize == if binSize == 0 then 1 else binSize
      ensures t == 1 && n == |lists| && m == BinWidth(lists, this.binSize)
      ensures arr == Cube(1, |lists|, BinWidth(lists, this.binSize), [BinGrid(lists, this.binSize)])
      ensures maxMillisec == Millis(MaxLast(lists))
    {
      arr := Matrix(0, 0, []);
      t, n, m := 0, 0, 0;
      idx, meanActivities := [], [];
      maxMillisec := 0.0;
      this.binSize := if binSize == 0 then 1 else binSize;
      new;
      LoadFromSpikeTimes(lists, this.binSize);
      NormalizeShape();
      if preprocess {
        Preprocess();
        ghost var grid := BinGrid(lists, this.binSize);
        forall c, a | 0 <= c < |grid| && 0 <= a < |grid[c]| ensures IsBit(grid[c][a]) {
          BinGridCell(lists, this.binSize, c, a);
        }
        BinarizeKeepsBinary(Cube(1, |lists|, BinWidth(lists, this.binSize), [grid]));
      }
    }

    /** The shape step of the constructor: a grid becomes a one-trial tensor
        and the counts are taken from the result's three axes. */
    method NormalizeShape()
      requires arr.WellFormed()
      modifies this
      ensures Valid()
      ensures arr == Normalize(old(arr))
      ensures t == arr.depth && n == arr.rows && m == arr.cols
      ensures idx == old(idx) && meanActivities == old(meanActivities)
      ensures maxMillisec == old(maxMillisec) && binSize == old(binSize)
    {
      arr := Normalize(arr);
      t := arr.depth;
      n := arr.rows;
      m := arr.cols;
    }

    /** `load_from_spikes_times`: with no lists nothing changes; otherwise the
        held array becomes the N × W grid of the spike times (no trial axis
        yet) and the maximum last time is kept. The counts are not touched. */
    method LoadFromSpikeTimes(lists: seq<seq<nat>>, binSize: nat)
      requires AllNonEmpty(lists)
      requires |lists| > 0 ==> binSize > 0
      modifies this
      ensures |lists| == 0 ==> arr == old(arr) && maxMillisec == old(maxMillisec)
      ensures |lists| > 0 ==> arr == Matrix(|lists|, BinWidth(lists, binSize), BinGrid(lists, binSize))
      ensures |lists| > 0 ==> arr.WellFormed() && maxMillisec == Millis(MaxLast(lists))
      ensures t == old(t) && n == old(n) && m == old(m)
      ensures idx == old(idx) && meanActivities == old(meanActivities) && this.binSize == old(this.binSize)
    {
      if |lists| == 0 {
        return;
      }
      var millis, grid := Bin(lists, binSize);
      maxMillisec := millis;
      arr := Matrix(grid.Length0, grid.Length1, Cells2(grid));
      SameGrid(Cells2(grid), BinGrid(lists, binSize), |lists|, grid.Length1);
    }

    /** `preprocess`: every cell becomes 1 if positive and 0 otherwise, in
        place of the old array; shape and counts stay. */
    method Preprocess()
      requires arr.WellFormed()
      modifies this
      ensures arr == BinarizeNd(old(arr))
      ensures t == old(t) && n == old(n) && m == old(m)
      ensures idx == old(idx) && meanActivities == old(meanActivities)
      ensures maxMillisec == old(maxMillisec) && binSize == old(binSize)
      ensures old(Valid()) ==> Valid()
    {
      arr := BinarizeNd(arr);
    }

    /** `restrict_to_most_active_neurons(top)`: the neuron count becomes
        `top` (kept as it was when `top` is 0), and the last that many
        neurons of the ascending activity ordering of the held array are
        kept, which is all of them when the count is 0 or not below the
        array's neuron axis. `idx` is that selection, `meanActivities` their
        activities, and neuron `j` of the new array is old neuron `idx[j]`.
        Only the array is read; the count may disagree with it before and
        after, as a `top` above N leaves it. */
    method RestrictToMostActiveNeurons(top: nat)
      requires arr.Cube? && arr.WellFormed() && arr.depth > 0 && arr.cols > 0
      modifies this
      ensures n == if top == 0 then old(n) else top
      ensures t == old(t) && m == old(m)
      ensures |idx| == Kept(n, old(arr).rows)
      ensures forall q :: 0 <= q < |idx| ==> idx[q] < old(arr).rows
      ensures forall q1, q2 :: 0 <= q1 < q2 < |idx| ==> idx[q1] != idx[q2]
      ensures SortedBy(idx, Activity(old(arr).planes, old(arr).depth, old(arr).rows, old(arr).cols))
      ensures forall x, q :: 0 <= x < old(arr).rows && x !in idx && 0 <= q < |idx| ==>
        Activity(old(arr).planes, old(arr).depth, old(arr).rows, old(arr).cols)[x]
          <= Activity(old(arr).planes, old(arr).depth, old(arr).rows, old(arr).cols)[idx[q]]
      ensures |idx| == old(arr).rows ==> IsIndexPermutation(idx, old(arr).rows)
      ensures |meanActivities| == |idx|
      ensures forall q :: 0 <= q < |idx| ==>
        meanActivities[q] == Activity(old(arr).planes, old(arr).depth, old(arr).rows, old(arr).cols)[idx[q]]
      ensures forall q1, q2 :: 0 <= q1 < q2 < |idx| ==> meanActivities[q1] <= meanActivities[q2]
      ensures arr == Cube(old(arr).depth, |idx|, old(arr).cols,
                          SelectNeurons(old(arr).planes, old(arr).depth, old(arr).rows, old(arr).cols, idx))
      ensures arr.WellFormed()
      ensures old(Valid()) ==> (Valid() <==> top <= old(n))
      ensures maxMillisec == old(maxMillisec) && binSize == old(binSize)
    {
      var count := if top == 0 then n else top;
      var k := Kept(count, arr.rows);
      var selected, acts := SelectMostActive(arr.planes, arr.depth, arr.rows, arr.cols, k);
      var cells := SelectNeurons(arr.planes, arr.depth, arr.rows, arr.cols, selected);
      n := count;
      idx := selected;
      meanActivities := acts;
      arr := Cube(arr.depth, k, arr.cols, cells);
    }

    /** `to_windowed(ws, trials)`: a new container over the windowed tensor
        (binarized by its constructor), one trial per chosen trial, ws·N
        features, M − ws + 1 positions. */
    method ToWindowed(ws: nat, trials: seq<nat>) returns (s: Spikes)
      requires Valid() && ws <= m + 1
      requires ws <= m ==> TrialsOk(trials, t)
      ensures fresh(s) && s.Valid()
      ensures s.t == |EffectiveTrials(trials, t)| && s.n == ws * n && s.m == m - ws + 1
      ensures s.arr == BinarizeNd(Cube(s.t, s.n, s.m, Windowed(arr.planes, t, n, m, EffectiveTrials(trials, t), ws)))
    {
      var chosen := EffectiveTrials(trials, t);
      var x := FillWindows(arr.planes, t, n, m, chosen, ws);
      ghost var windowed := Windowed(arr.planes, t, n, m, chosen, ws);
      assert Cells3Of(x) == windowed by {
        SameCells(Cells3Of(x), windowed, |chosen|, ws * n, m - ws + 1);
      }
      s := new Spikes.FromArray(Cube(x.Length0, x.Length1, x.Length2, Cells3Of(x)), true);
    }

    /** `to_windowed(ws, trials, reshape=True)`: the sample matrix, one row
        per (chosen trial, position), trial-major, each row the ws·N
        features at that position. */
    method ToWindowedSamples(ws: nat, trials: seq<nat>) returns (y: array2<real>)
      requires Valid() && ws <= m + 1
      requires ws <= m ==> TrialsOk(trials, t)
      ensures fresh(y)
    ensures y.Length0 == |EffectiveTrials(trials, t)| * (m - ws + 1) && y.Length1 == ws * n
      ensures forall k, r :: 0 <= k < y.Length0 && 0 <= r < y.Length1 ==>
        y[k, r] == Samples(Windowed(arr.planes, t, n, m, EffectiveTrials(trials, t), ws),
                           |EffectiveTrials(trials, t)|, ws * n, m - ws + 1)[k][r]
    {
      var chosen := EffectiveTrials(trials, t);
      var x := FillWindows(arr.planes, t, n, m, chosen, ws);
      ghost var windowed := Windowed(arr.planes, t, n, m, chosen, ws);
      assert Cells3Of(x) == windowed by {
        SameCells(Cells3Of(x), windowed, |chosen|, ws * n, m - ws + 1);
      }
      y := SampleRows(x);
    }

    /** `rasterize(trials, start, stop)`: the chosen trials' bins
        `start..stop` stacked into one row per (trial, neuron), trial-major:
        row `c * N + j` is neuron `j` of trial `trials[c]`. A start past the
        stop makes the reshape width negative, which numpy treats as the one
        inferred axis of the empty slice: every row is then empty. With no
        rows at all, a stop past M still reshapes the empty slice, to no rows. */
    function Rasterize(trials: seq<nat>, start: nat, stop: nat): (r: seq<seq<real>>)
      reads this
      requires Valid() && TrialsOk(trials, t)
      requires || start <= StopOr(stop, m) <= m
               || (start > StopOr(stop, m) && |EffectiveTrials(trials, t)| * n > 0)
               || (start <= StopOr(stop, m) && |EffectiveTrials(trials, t)| * n == 0)
      ensures |r| == |EffectiveTrials(trials, t)| * n
      ensures start <= StopOr(stop, m) <= m ==> r == Raster(arr.planes, t, n, m, EffectiveTrials(trials, t), start, StopOr(stop, m))
      ensures start > StopOr(stop, m) ==> forall q :: 0 <= q < |r| ==> r[q] == []
    {
      var last := StopOr(stop, m);
      if start <= last then
        if last <= m then Raster(arr.planes, t, n, m, EffectiveTrials(trials, t), start, last) else []
      else
        EmptyRaster(arr.planes, t, n, m, EffectiveTrials(trials, t), 0);
        Raster(arr.planes, t, n, m, EffectiveTrials(trials, t), 0, 0)
    }
  }

  /** Two grids of the same shape that agree cell by cell are equal. */
  lemma SameGrid(a: seq<seq<real>>, b: seq<seq<real>>, rows: nat, cols: nat)
    requires IsMatrix(a, rows, cols) && IsMatrix(b, rows, cols)
    requires forall r, i :: 0 <= r < rows && 0 <= i < cols ==> a[r][i] == b[r][i]
    ensures a == b
  {
    forall r | 0 <= r < rows ensures a[r] == b[r] {
    }
  }

  /** Two boxes of the same shape that agree cell by cell are equal. */
  lemma SameCells(a: Cells3, b: Cells3, d: nat, rows: nat, cols: nat)
    requires IsCube(a, d, rows, cols) && IsCube(b, d, rows, cols)
    requires forall c, r, i :: 0 <= c < d && 0 <= r < rows && 0 <= i < cols ==> a[c][r][i] == b[c][r][i]
    ensures a == b
  {
    forall c | 0 <= c < d ensures a[c] == b[c] {
      forall r | 0 <= r < rows ensures a[c][r] == b[c][r] {
      }
    }
  }
}

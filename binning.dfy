/** Temporal binning: per-neuron lists of microsecond spike times become an
    N × W occupancy grid with bins of `binSize` milliseconds. */
module Binning {
  import opened Tensors

  /** Every neuron has at least one spike time (the last one is read). */
  predicate AllNonEmpty(lists: seq<seq<nat>>) {
    forall c :: 0 <= c < |lists| ==> |lists[c]| > 0
  }

  /** `spike_times[-1]`. */
  function Last(times: seq<nat>): nat
    requires |times| > 0
  {
    times[|times| - 1]
  }

  /** The largest LAST spike time over all neurons: only the final entry of
      each list is consulted, the other entries never set the horizon. */
  function MaxLast(lists: seq<seq<nat>>): (r: nat)
    requires |lists| > 0 && AllNonEmpty(lists)
    ensures forall c :: 0 <= c < |lists| ==> Last(lists[c]) <= r
    ensures exists c :: 0 <= c < |lists| && Last(lists[c]) == r
  {
    if |lists| == 1 then Last(lists[0])
    else
      var front := lists[..|lists| - 1];
      assert forall c :: 0 <= c < |front| ==> front[c] == lists[c];
      var best := MaxLast(front);
      var last := Last(lists[|lists| - 1]);
      if last > best then last else best
  }

  /** `1. * t / 10**3`: a spike time in milliseconds. */
  function Millis(t: nat): (r: real)
    ensures r >= 0.0 && r * 1000.0 == t as real
  {
    (t as real) / 1000.0
  }

  /** `int(t / (1000. * bin_size))`: the bin a spike time falls in. */
  function BinOf(t: nat, binSize: nat): nat
    requires binSize > 0
  {
    DivNonNegative(t, 1000 * binSize);
    t / (1000 * binSize)
  }

  /** The number of bins: one more than the bin of the largest last spike time. */
  function BinWidth(lists: seq<seq<nat>>, binSize: nat): (w: nat)
    requires |lists| > 0 && AllNonEmpty(lists) && binSize > 0
    ensures w >= 1
  {
    BinOf(MaxLast(lists), binSize) + 1
  }

  /** Bin `BinOf(t, binSize)` covers the `1000 · binSize` microseconds
      starting at that many times its index. */
  lemma BinOfBounds(t: nat, binSize: nat)
    requires binSize > 0
    ensures 1000 * binSize * BinOf(t, binSize) <= t < 1000 * binSize * BinOf(t, binSize) + 1000 * binSize
  {
    DivBounds(t, 1000 * binSize);
  }

  /** Every neuron's last spike falls inside the grid, and the horizon's spike
      falls in its final bin. */
  lemma LastSpikesFit(lists: seq<seq<nat>>, binSize: nat)
    requires |lists| > 0 && AllNonEmpty(lists) && binSize > 0
    ensures forall c :: 0 <= c < |lists| ==> BinOf(Last(lists[c]), binSize) < BinWidth(lists, binSize)
    ensures exists c :: 0 <= c < |lists| && BinOf(Last(lists[c]), binSize) == BinWidth(lists, binSize) - 1
  {
    forall c | 0 <= c < |lists| ensures BinOf(Last(lists[c]), binSize) < BinWidth(lists, binSize) {
      DivMonotone(Last(lists[c]), MaxLast(lists), 1000 * binSize);
    }
    var h :| 0 <= h < |lists| && Last(lists[h]) == MaxLast(lists);
    assert BinOf(Last(lists[h]), binSize) == BinWidth(lists, binSize) - 1;
  }

  /** Some spike time of `times` falls in bin `a`. */
  predicate Occupied(times: seq<nat>, a: nat, binSize: nat)
    requires binSize > 0
  {
    |times| > 0 && (Occupied(times[..|times| - 1], a, binSize) || BinOf(Last(times), binSize) == a)
  }

  lemma {:induction false} OccupiedIff(times: seq<nat>, a: nat, binSize: nat)
    requires binSize > 0
    ensures Occupied(times, a, binSize) <==> exists k :: 0 <= k < |times| && BinOf(times[k], binSize) == a
  {
    if |times| > 0 {
      var front := times[..|times| - 1];
      OccupiedIff(front, a, binSize);
      if Occupied(front, a, binSize) {
        var k :| 0 <= k < |front| && BinOf(front[k], binSize) == a;
        assert times[k] == front[k];
      }
      if k :| 0 <= k < |times| && BinOf(times[k], binSize) == a {
        if k < |front| {
          assert front[k] == times[k];
        }
      }
    }
  }

  /** The grid binning promises: cell (c, a) is 1 when some spike of neuron
      `c` falls in bin `a`, else 0. */
  function BinGrid(lists: seq<seq<nat>>, binSize: nat): (g: seq<seq<real>>)
    requires |lists| > 0 && AllNonEmpty(lists) && binSize > 0
    ensures IsMatrix(g, |lists|, BinWidth(lists, binSize))
  {
    var w := BinWidth(lists, binSize);
    seq(|lists|, c requires 0 <= c < |lists| =>
      seq(w, a requires 0 <= a < w => if Occupied(lists[c], a, binSize) then 1.0 else 0.0))
  }

  /** Each cell is 0 or 1, and it is 1 exactly when a spike of that neuron
      lands in that bin; a spike whose bin is past the width leaves no mark. */
  lemma BinGridCell(lists: seq<seq<nat>>, binSize: nat, c: nat, a: nat)
    requires |lists| > 0 && AllNonEmpty(lists) && binSize > 0
    requires c < |lists| && a < BinWidth(lists, binSize)
    ensures BinGrid(lists, binSize)[c][a] == 0.0 || BinGrid(lists, binSize)[c][a] == 1.0
    ensures BinGrid(lists, binSize)[c][a] == 1.0 <==>
      exists k :: 0 <= k < |lists[c]| && BinOf(lists[c][k], binSize) == a
  {
    OccupiedIff(lists[c], a, binSize);
  }

  /** When every list is in time order, as recordings are, no spike is lost:
      each one lands inside the grid and marks its bin. */
  lemma SortedListsLoseNoSpike(lists: seq<seq<nat>>, binSize: nat, c: nat, k: nat)
    requires |lists| > 0 && AllNonEmpty(lists) && binSize > 0
    requires forall d, i, j :: 0 <= d < |lists| && 0 <= i <= j < |lists[d]| ==> lists[d][i] <= lists[d][j]
    requires c < |lists| && k < |lists[c]|
    ensures BinOf(lists[c][k], binSize) < BinWidth(lists, binSize)
    ensures BinGrid(lists, binSize)[c][BinOf(lists[c][k], binSize)] == 1.0
  {
    var t := lists[c][k];
    var d := 1000 * binSize;
    assert t <= Last(lists[c]) <= MaxLast(lists);
    DivMonotone(t, MaxLast(lists), d);
    BinGridCell(lists, binSize, c, BinOf(t, binSize));
  }

  /** An out-of-order list loses the spikes past its last one: with one
      neuron at 5000 µs then 1000 µs and 1 ms bins the grid has two bins,
      the spike in bin 5 is dropped and only bin 1 is set. */
  lemma UnsortedListDropsSpike()
    ensures BinWidth([[5000, 1000]], 1) == 2
    ensures BinOf(5000, 1) == 5
    ensures BinGrid([[5000, 1000]], 1) == [[0.0, 1.0]]
  {
    var times: seq<nat> := [5000, 1000];
    assert times[..1] == [5000] && [5000][..0] == [];
    assert !Occupied(times, 0, 1) && Occupied(times, 1, 1);
    var g := BinGrid([times], 1);
    assert |g| == 1 && g[0] == [0.0, 1.0];
  }

  /** Two neurons at [1000, 2000] and [1500] µs with 1 ms bins give a
      2 × 3 grid with bins {1, 2} set for the first and {1} for the second. */
  lemma TwoNeuronExample()
    ensures BinGrid([[1000, 2000], [1500]], 1) == [[0.0, 1.0, 1.0], [0.0, 1.0, 0.0]]
  {
    var first: seq<nat> := [1000, 2000];
    var second: seq<nat> := [1500];
    assert first[..1] == [1000] && [1000][..0] == [] && second[..0] == [];
    assert !Occupied(first, 0, 1) && Occupied(first, 1, 1) && Occupied(first, 2, 1);
    assert !Occupied(second, 0, 1) && Occupied(second, 1, 1) && !Occupied(second, 2, 1);
    assert BinWidth([first, second], 1) == 3;
    var g := BinGrid([first, second], 1);
    assert |g| == 2 && g[0] == [0.0, 1.0, 1.0] && g[1] == [0.0, 1.0, 0.0];
  }

  /** The floor of a millisecond value is the whole-millisecond count. */
  lemma FloorMillis(t: nat)
    ensures Millis(t).Floor == t / 1000
  {
    var q, r := t / 1000, t % 1000;
    assert t == 1000 * q + r;
    assert Millis(t) == q as real + (r as real) / 1000.0;
  }

  /** Whole milliseconds divided by the bin size, as the width computation
      does, is one division by the bin length in microseconds. */
  lemma NestedDivision(t: nat, binSize: nat)
    requires binSize > 0
    ensures t / 1000 / binSize == t / (1000 * binSize)
  {
    var d := 1000 * binSize;
    DivBounds(t, d);
    var q := t / d;
    var r := t - d * q;
    var r1, r2 := r / 1000, r % 1000;
    assert r == 1000 * r1 + r2;
    assert t == 1000 * (binSize * q + r1) + r2;
    DivUnique(t, 1000, binSize * q + r1, r2);
    MulLtCancel(r1, binSize, 1000);
    DivUnique(binSize * q + r1, binSize, q, r1);
  }

  lemma MulLtCancel(a: int, b: int, d: int)
    requires d > 0 && a * d < b * d
    ensures a < b
  {
  }

  lemma DivBounds(x: int, d: int)
    requires d > 0
    ensures d * (x / d) <= x < d * (x / d) + d
  {
  }

  lemma DivNonNegative(x: nat, d: nat)
    requires d > 0
    ensures x / d >= 0
  {
    DivBounds(x, d);
    MulLtCancel(0, x / d + 1, d);
  }

  lemma DivUnique(x: int, d: int, q: int, r: int)
    requires d > 0 && 0 <= r < d && x == d * q + r
    ensures x / d == q
  {
    DivBounds(x, d);
    MulLtCancel(x / d, q + 1, d);
    MulLtCancel(q, x / d + 1, d);
  }

  lemma DivMonotone(x: int, y: int, d: int)
    requires d > 0 && x <= y
    ensures x / d <= y / d
  {
    DivBounds(x, d);
    DivBounds(y, d);
    MulLtCancel(x / d, y / d + 1, d);
  }

  /** The first loop of `load_from_spikes_times`: the running maximum, in
      milliseconds, of each neuron's last spike time. */
  method MaxLastMillis(lists: seq<seq<nat>>) returns (maxMillisec: real)
    requires |lists| > 0 && AllNonEmpty(lists)
    ensures maxMillisec == Millis(MaxLast(lists))
    ensures forall c :: 0 <= c < |lists| ==> Millis(Last(lists[c])) <= maxMillisec
  {
    // The source starts its maximum at minus infinity; the first candidate
    // always replaces it, so the loop starts from that candidate.
    maxMillisec := Millis(Last(lists[0]));
    var i := 1;
    assert lists[..1] == [lists[0]];
    while i < |lists|
      invariant 1 <= i <= |lists|
      invariant AllNonEmpty(lists[..i])
      invariant maxMillisec == Millis(MaxLast(lists[..i]))
    {
      var millisec := Millis(Last(lists[i]));
      maxMillisec := if millisec > maxMillisec then millisec else maxMillisec;
      ghost var prefix := lists[..i + 1];
      assert prefix[..i] == lists[..i] && prefix[i] == lists[i];
      MaxLastStep(prefix);
      i := i + 1;
    }
    assert lists[..i] == lists;
  }

  /** The largest last time of a longer prefix, in milliseconds, is the
      larger of the shorter prefix's and the new neuron's. */
  lemma MaxLastStep(lists: seq<seq<nat>>)
    requires |lists| > 1 && AllNonEmpty(lists)
    ensures var front := lists[..|lists| - 1];
      AllNonEmpty(front) &&
      Millis(MaxLast(lists)) == if Millis(Last(lists[|lists| - 1])) > Millis(MaxLast(front))
        then Millis(Last(lists[|lists| - 1])) else Millis(MaxLast(front))
  {
  }

  /** `load_from_spikes_times` past its empty-input check: the maximum of
      the last spike times in milliseconds, then a zeroed grid into which
      every spike whose bin is inside the width writes a 1. */
  method Bin(lists: seq<seq<nat>>, binSize: nat) returns (maxMillisec: real, grid: array2<real>)
    requires |lists| > 0 && AllNonEmpty(lists) && binSize > 0
    ensures maxMillisec == Millis(MaxLast(lists))
    ensures fresh(grid)
    ensures grid.Length0 == |lists| && grid.Length1 == BinWidth(lists, binSize)
    ensures forall c, a :: 0 <= c < |lists| && 0 <= a < grid.Length1 ==>
      grid[c, a] == BinGrid(lists, binSize)[c][a]
  {
    maxMillisec := MaxLastMillis(lists);
    var width := WidthOf(maxMillisec, binSize);
    assert width == BinWidth(lists, binSize) by {
      FloorMillis(MaxLast(lists));
      NestedDivision(MaxLast(lists), binSize);
    }
    grid := new real[|lists|, width]((_, _) => 0.0);
    for c := 0 to |lists|
      invariant forall c', a :: 0 <= c' < c && 0 <= a < width ==>
        grid[c', a] == BinGrid(lists, binSize)[c'][a]
      invariant forall c', a :: c <= c' < |lists| && 0 <= a < width ==> grid[c', a] == 0.0
    {
      MarkRow(grid, c, lists[c], binSize);
    }
  }

  /** `np.int(max_millisec) / bin_size + 1`: truncate the milliseconds, then
      divide by the bin size. */
  function WidthOf(maxMillisec: real, binSize: nat): (w: nat)
    requires maxMillisec >= 0.0 && binSize > 0
    ensures w >= 1
  {
    DivNonNegative(maxMillisec.Floor, binSize);
    maxMillisec.Floor / binSize + 1
  }

  /** The inner loop: every spike of one neuron whose bin is inside the
      grid sets that bin of the neuron's row; other rows are untouched. */
  method MarkRow(grid: array2<real>, c: nat, times: seq<nat>, binSize: nat)
    requires c < grid.Length0 && binSize > 0
    requires forall a :: 0 <= a < grid.Length1 ==> grid[c, a] == 0.0
    modifies grid
    ensures forall c', a :: 0 <= c' < grid.Length0 && c' != c && 0 <= a < grid.Length1 ==>
      grid[c', a] == old(grid[c', a])
    ensures forall a :: 0 <= a < grid.Length1 ==>
      grid[c, a] == if Occupied(times, a, binSize) then 1.0 else 0.0
  {
    for k := 0 to |times|
      invariant forall c', a :: 0 <= c' < grid.Length0 && c' != c && 0 <= a < grid.Length1 ==>
        grid[c', a] == old(grid[c', a])
      invariant forall a :: 0 <= a < grid.Length1 ==>
        grid[c, a] == if Occupied(times[..k], a, binSize) then 1.0 else 0.0
    {
      var a := BinOf(times[k], binSize);
      if a < grid.Length1 {
        grid[c, a] := 1.0;
      }
      assert times[..k + 1][..k] == times[..k] && Last(times[..k + 1]) == times[k];
    }
    assert times[..|times|] == times;
  }
}

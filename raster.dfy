/** The raster view: chosen trials and a range of bins, stacked trial by
    trial into one row per (trial, neuron). */
module Rasters {
  import opened Tensors

  /** The chosen trials' bins `start..end`, one row per (trial, neuron). */
  function Raster(a: Cells3, t: nat, n: nat, m: nat, chosen: seq<nat>, start: nat, end: nat): (r: seq<seq<real>>)
    requires IsCube(a, t, n, m) && TrialsOk(chosen, t) && start <= end <= m
    ensures |r| == |chosen| * n
  {
    Flatten(RasterBlocks(a, t, n, m, chosen, start, end), n)
  }

  function RasterBlocks(a: Cells3, t: nat, n: nat, m: nat, chosen: seq<nat>, start: nat, end: nat): (b: seq<seq<seq<real>>>)
    requires IsCube(a, t, n, m) && TrialsOk(chosen, t) && start <= end <= m
    ensures |b| == |chosen| && forall c :: 0 <= c < |b| ==> |b[c]| == n
    ensures forall c, j :: 0 <= c < |chosen| && 0 <= j < n ==> b[c][j] == a[chosen[c]][j][start..end]
  {
    seq(|chosen|, c requires 0 <= c < |chosen| => seq(n, j requires 0 <= j < n => a[chosen[c]][j][start..end]))
  }

  /** Row `c * n + j` of the raster is neuron `j` of trial `chosen[c]`. */
  lemma RasterAt(a: Cells3, t: nat, n: nat, m: nat, chosen: seq<nat>, start: nat, end: nat, c: nat, j: nat)
    requires IsCube(a, t, n, m) && TrialsOk(chosen, t) && start <= end <= m
    requires c < |chosen| && j < n
    ensures c * n + j < |chosen| * n
    ensures Raster(a, t, n, m, chosen, start, end)[c * n + j] == a[chosen[c]][j][start..end]
  {
    FlattenAt(RasterBlocks(a, t, n, m, chosen, start, end), n, c, j);
  }

  /** An empty bin range leaves every row of the raster empty. */
  lemma EmptyRaster(a: Cells3, t: nat, n: nat, m: nat, chosen: seq<nat>, s: nat)
    requires IsCube(a, t, n, m) && TrialsOk(chosen, t) && s <= m
    ensures forall q :: 0 <= q < |chosen| * n ==> Raster(a, t, n, m, chosen, s, s)[q] == []
  {
    var b := RasterBlocks(a, t, n, m, chosen, s, s);
    forall c, j | 0 <= c < |b| && 0 <= j < n ensures b[c][j] == [] {
    }
    FlattenConstant(b, n, []);
  }
}

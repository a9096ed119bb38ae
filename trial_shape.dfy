/** Trial-shape normalisation: the held array always has a trial axis. */
module TrialShape {
  import opened Tensors

  /** A two-axis N × M array is taken as one trial and reshaped to 1 × N × M;
      a three-axis array is kept as it is. */
  function Normalize(a: NdArray): (r: NdArray)
    requires a.WellFormed()
    ensures r.Cube? && r.WellFormed()
    ensures a.Matrix? ==> r.depth == 1 && r.rows == a.rows && r.cols == a.cols
    ensures a.Matrix? ==> forall i, j :: 0 <= i < a.rows && 0 <= j < a.cols ==>
      r.planes[0][i][j] == a.cells[i][j]
    ensures a.Cube? ==> r == a
  {
    match a
    case Matrix(rows, cols, g) => Cube(1, rows, cols, [g])
    case Cube(_, _, _, _) => a
  }

  /** Dropping the trial axis of a one-trial tensor. */
  function Squeeze(a: NdArray): (r: NdArray)
    requires a.Cube? && a.WellFormed() && a.depth == 1
    ensures r.Matrix? && r.WellFormed()
  {
    Matrix(a.rows, a.cols, a.planes[0])
  }

  /** Normalising a grid and squeezing the trial axis back gives the grid. */
  lemma SqueezeAfterNormalize(a: NdArray)
    requires a.Matrix? && a.WellFormed()
    ensures Squeeze(Normalize(a)) == a
  {
  }

  /** Normalising twice is normalising once. */
  lemma NormalizeIdempotent(a: NdArray)
    requires a.WellFormed()
    ensures Normalize(Normalize(a)) == Normalize(a)
  {
  }
}

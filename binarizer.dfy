/** The preprocessing step that turns raw array content into {0, 1}: every
    cell `x` becomes `(sign(x) + 1) // 2`. */
module Binarizer {
  import opened Tensors

  /** numpy's `sign` on a real value. */
  function Sign(x: real): (r: real)
    ensures r == 1.0 || r == 0.0 || r == -1.0
    ensures (r > 0.0 <==> x > 0.0) && (r < 0.0 <==> x < 0.0)
  {
    if x > 0.0 then 1.0 else if x < 0.0 then -1.0 else 0.0
  }

  /** `(sign(x) + 1) // 2` with floor division: a positive cell is a spike,
      zero and negative cells alike are not. */
  function Binarize(x: real): (r: real)
    ensures r == 1.0 <==> x > 0.0
    ensures r == 0.0 <==> x <= 0.0
  {
    ((Sign(x) + 1.0) / 2.0).Floor as real
  }

  /** A value the binarizer can produce. */
  predicate IsBit(x: real) {
    x == 0.0 || x == 1.0
  }

  /** Every cell of a grid is 0 or 1. */
  predicate AllBits2(g: seq<seq<real>>) {
    forall i, j :: 0 <= i < |g| && 0 <= j < |g[i]| ==> IsBit(g[i][j])
  }

  /** Every cell of a tensor is 0 or 1. */
  predicate AllBits3(a: Cells3) {
    forall c, i, j :: 0 <= c < |a| && 0 <= i < |a[c]| && 0 <= j < |a[c][i]| ==> IsBit(a[c][i][j])
  }

  /** All bits: the array's cells, whatever its rank. */
  predicate IsBinary(a: NdArray) {
    match a
    case Matrix(_, _, g) => AllBits2(g)
    case Cube(_, _, _, p) => AllBits3(p)
  }

  function BinarizeRow(row: seq<real>): seq<real> {
    seq(|row|, j requires 0 <= j < |row| => Binarize(row[j]))
  }

  function BinarizeGrid(g: seq<seq<real>>): seq<seq<real>> {
    seq(|g|, i requires 0 <= i < |g| => BinarizeRow(g[i]))
  }

  /** `preprocess`: the element map over the whole array. The rank and shape
      are kept and each cell is 1 exactly where the input cell is positive. */
  function BinarizeNd(a: NdArray): (r: NdArray)
    requires a.WellFormed()
    ensures r.WellFormed() && IsBinary(r)
    ensures r.Matrix? == a.Matrix? && r.rows == a.rows && r.cols == a.cols
    ensures a.Cube? ==> r.depth == a.depth
    ensures a.Matrix? ==> forall i, j :: 0 <= i < a.rows && 0 <= j < a.cols ==>
      (r.cells[i][j] == 1.0 <==> a.cells[i][j] > 0.0)
    ensures a.Cube? ==> forall c, i, j :: 0 <= c < a.depth && 0 <= i < a.rows && 0 <= j < a.cols ==>
      (r.planes[c][i][j] == 1.0 <==> a.planes[c][i][j] > 0.0)
  {
    match a
    case Matrix(rows, cols, g) => Matrix(rows, cols, BinarizeGrid(g))
    case Cube(d, rows, cols, p) =>
      Cube(d, rows, cols, seq(|p|, c requires 0 <= c < |p| => BinarizeGrid(p[c])))
  }

  /** An array that is already all bits passes through the binarizer unchanged. */
  lemma BinarizeKeepsBinary(a: NdArray)
    requires a.WellFormed() && IsBinary(a)
    ensures BinarizeNd(a) == a
  {
    match a
    case Matrix(rows, cols, g) =>
      forall i | 0 <= i < |g| ensures BinarizeRow(g[i]) == g[i] {
        assert forall j :: 0 <= j < |g[i]| ==> IsBit(g[i][j]);
      }
      assert BinarizeGrid(g) == g;
    case Cube(d, rows, cols, p) =>
      forall c | 0 <= c < |p| ensures BinarizeGrid(p[c]) == p[c] {
        forall i | 0 <= i < |p[c]| ensures BinarizeRow(p[c][i]) == p[c][i] {
          assert forall j :: 0 <= j < |p[c][i]| ==> IsBit(p[c][i][j]);
        }
      }
      assert seq(|p|, c requires 0 <= c < |p| => BinarizeGrid(p[c])) == p;
  }

  /** Preprocessing twice is preprocessing once. */
  lemma BinarizeIdempotent(a: NdArray)
    requires a.WellFormed()
    ensures BinarizeNd(BinarizeNd(a)) == BinarizeNd(a)
  {
    BinarizeKeepsBinary(BinarizeNd(a));
  }
}

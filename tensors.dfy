/** Dense arrays as the spike tensor holds them: cells of `real`, with the
    shape carried beside the cells as numpy carries it beside its buffer. */
module Tensors {

  /** A trials × neurons × bins block of cells. */
  type Cells3 = seq<seq<seq<real>>>

  /** `g` is a `rows` × `cols` rectangle. */
  predicate IsMatrix(g: seq<seq<real>>, rows: nat, cols: nat) {
    |g| == rows && forall i :: 0 <= i < rows ==> |g[i]| == cols
  }

  /** `a` is a `depth` × `rows` × `cols` box. */
  predicate IsCube(a: Cells3, depth: nat, rows: nat, cols: nat) {
    |a| == depth && forall k :: 0 <= k < depth ==> IsMatrix(a[k], rows, cols)
  }

  /** The two array ranks the spike container can hold: the N × M grid that
      binning produces or a caller passes in, and the canonical T × N × M
      tensor. The shape is explicit so that a 0 × M grid keeps its M. */
  datatype NdArray =
    | Matrix(rows: nat, cols: nat, cells: seq<seq<real>>)
    | Cube(depth: nat, rows: nat, cols: nat, planes: Cells3)
  {
    /** The cells agree with the declared shape. */
    predicate WellFormed() {
      match this
      case Matrix(r, c, g) => IsMatrix(g, r, c)
      case Cube(d, r, c, a) => IsCube(a, d, r, c)
    }
  }

  /** Every trial index names an existing trial. */
  predicate TrialsOk(trials: seq<nat>, t: nat) {
    forall k :: 0 <= k < |trials| ==> trials[k] < t
  }

  /** `range(t)`. */
  function Range(t: nat): (r: seq<nat>)
    ensures |r| == t && forall i :: 0 <= i < t ==> r[i] == i
  {
    seq(t, i requires 0 <= i < t => i)
  }

  /** `trials or range(T)`: an empty trial list stands for every trial. */
  function EffectiveTrials(trials: seq<nat>, t: nat): (r: seq<nat>)
    ensures TrialsOk(trials, t) ==> TrialsOk(r, t)
    ensures trials == [] ==> r == Range(t)
    ensures trials != [] ==> r == trials
  {
    if trials == [] then Range(t) else trials
  }

  /** Row-major concatenation of equally long pieces, which is what numpy's
      `ravel` of a sliced block and `reshape` of leading axes both do. */
  function Flatten<X>(s: seq<seq<X>>, w: nat): (r: seq<X>)
    requires forall p :: 0 <= p < |s| ==> |s[p]| == w
    ensures |r| == |s| * w
  {
    if s == [] then [] else s[0] + Flatten(s[1..], w)
  }

  /** Piece `p`, element `k` of a flattening lands at position `p * w + k`. */
  lemma {:induction false} FlattenAt<X>(s: seq<seq<X>>, w: nat, p: nat, k: nat)
    requires forall q :: 0 <= q < |s| ==> |s[q]| == w
    requires p < |s| && k < w
    ensures p * w + k < |s| * w
    ensures Flatten(s, w)[p * w + k] == s[p][k]
  {
    if p > 0 {
      FlattenAt(s[1..], w, p - 1, k);
      assert (p - 1) * w == p * w - w && (|s| - 1) * w == |s| * w - w;
      assert Flatten(s, w) == s[0] + Flatten(s[1..], w);
    }
  }

  /** When every element of every piece is `v`, so is every element of the
      flattening. */
  lemma {:induction false} FlattenConstant<X>(s: seq<seq<X>>, w: nat, v: X)
    requires forall q :: 0 <= q < |s| ==> |s[q]| == w
    requires forall p, q :: 0 <= p < |s| && 0 <= q < w ==> s[p][q] == v
    ensures forall k :: 0 <= k < |s| * w ==> Flatten(s, w)[k] == v
  {
    if s != [] {
      FlattenConstant(s[1..], w, v);
      assert (|s| - 1) * w == |s| * w - w;
      assert Flatten(s, w) == s[0] + Flatten(s[1..], w);
    }
  }

  /** The cells of a two-axis array, row by row. */
  function Cells2(g: array2<real>): (s: seq<seq<real>>)
    reads g
    ensures IsMatrix(s, g.Length0, g.Length1)
    ensures forall i, j :: 0 <= i < g.Length0 && 0 <= j < g.Length1 ==> s[i][j] == g[i, j]
  {
    seq(g.Length0, i requires 0 <= i < g.Length0 reads g =>
      seq(g.Length1, j requires 0 <= j < g.Length1 reads g => g[i, j]))
  }

  /** The cells of a three-axis array, plane by plane. */
  function Cells3Of(x: array3<real>): (s: Cells3)
    reads x
    ensures IsCube(s, x.Length0, x.Length1, x.Length2)
    ensures forall c, r, i :: 0 <= c < x.Length0 && 0 <= r < x.Length1 && 0 <= i < x.Length2 ==>
      s[c][r][i] == x[c, r, i]
  {
    seq(x.Length0, c requires 0 <= c < x.Length0 reads x =>
      seq(x.Length1, r requires 0 <= r < x.Length1 reads x =>
        seq(x.Length2, i requires 0 <= i < x.Length2 reads x => x[c, r, i])))
  }
}

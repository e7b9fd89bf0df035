/** The terrain mask as a value: a grid of pixel values indexed [x][y]. */
module Terrain {

  type Grid = seq<seq<int>>

  /** Pixel value of erased (empty) terrain. */
  const Empty := 0
  /** Pixel value of applied (solid) terrain. */
  const Solid := 255

  predicate InGrid(g: Grid, x: int, y: int)
  {
    0 <= x < |g| && 0 <= y < |g[x]|
  }

  /** Two grids of the same shape. */
  predicate SameShape(g: Grid, h: Grid)
  {
    |g| == |h| && forall i :: 0 <= i < |g| ==> |g[i]| == |h[i]|
  }

  /** The grid currently held by a two-dimensional pixel array. */
  ghost function Snapshot(a: array2<int>): (g: Grid)
    reads a
    ensures |g| == a.Length0
    ensures forall i :: 0 <= i < |g| ==> |g[i]| == a.Length1
    ensures forall i, j :: 0 <= i < a.Length0 && 0 <= j < a.Length1 ==> g[i][j] == a[i, j]
  {
    seq(a.Length0, i requires 0 <= i < a.Length0 reads a =>
      seq(a.Length1, j requires 0 <= j < a.Length1 reads a => a[i, j]))
  }

  /** Writing one pixel. */
  function SetPixel(g: Grid, x: int, y: int, v: int): (r: Grid)
    requires InGrid(g, x, y)
    ensures SameShape(g, r)
    ensures r[x][y] == v
    ensures forall i, j :: InGrid(g, i, j) && (i != x || j != y) ==> r[i][j] == g[i][j]
  {
    g[x := g[x][y := v]]
  }

  /** Writing the same value to the same pixel twice is writing it once. */
  lemma SetPixelIdempotent(g: Grid, x: int, y: int, v: int)
    requires InGrid(g, x, y)
    ensures SetPixel(SetPixel(g, x, y, v), x, y, v) == SetPixel(g, x, y, v)
  {
    var once := SetPixel(g, x, y, v);
    assert once[x][y := v] == once[x];
  }

  /** A terrain edit coming from the input layer. */
  datatype Edit = Erase(x: int, y: int) | Apply(x: int, y: int)

  function ApplyEdit(g: Grid, e: Edit): (r: Grid)
    requires InGrid(g, e.x, e.y)
    ensures SameShape(g, r)
    // an erase empties the pixel, an apply makes it solid
    ensures r[e.x][e.y] == (if e.Erase? then Empty else Solid)
    // no other pixel changes
    ensures forall i, j :: InGrid(g, i, j) && (i != e.x || j != e.y) ==> r[i][j] == g[i][j]
  {
    match e
    case Erase(x, y) => SetPixel(g, x, y, Empty)
    case Apply(x, y) => SetPixel(g, x, y, Solid)
  }

  predicate EditsInGrid(g: Grid, edits: seq<Edit>)
  {
    forall k :: 0 <= k < |edits| ==> InGrid(g, edits[k].x, edits[k].y)
  }

  /** Applying a sequence of edits in order. */
  function ApplyEdits(g: Grid, edits: seq<Edit>): (r: Grid)
    requires EditsInGrid(g, edits)
    ensures SameShape(g, r)
    decreases |edits|
  {
    if edits == [] then g
    else
      var h := ApplyEdit(g, edits[0]);
      assert EditsInGrid(h, edits[1..]) by {
        forall k | 0 <= k < |edits[1..]| ensures InGrid(h, edits[1..][k].x, edits[1..][k].y) {
          assert edits[1..][k] == edits[k + 1];
        }
      }
      ApplyEdits(h, edits[1..])
  }

  /** An erased pixel stays empty through any edits that never apply solid terrain to it. */
  lemma {:induction false} ErasedStaysEmpty(g: Grid, edits: seq<Edit>, x: int, y: int)
    requires EditsInGrid(g, edits)
    requires InGrid(g, x, y) && g[x][y] == Empty
    requires forall k :: 0 <= k < |edits| ==> edits[k] != Apply(x, y)
    ensures ApplyEdits(g, edits)[x][y] == Empty
    decreases |edits|
  {
    if edits != [] {
      var h := ApplyEdit(g, edits[0]);
      assert EditsInGrid(h, edits[1..]) by {
        forall k | 0 <= k < |edits[1..]| ensures InGrid(h, edits[1..][k].x, edits[1..][k].y) {
          assert edits[1..][k] == edits[k + 1];
        }
      }
      assert h[x][y] == Empty;
      forall k | 0 <= k < |edits[1..]| ensures edits[1..][k] != Apply(x, y) {
        assert edits[1..][k] == edits[k + 1];
      }
      ErasedStaysEmpty(h, edits[1..], x, y);
    }
  }
}

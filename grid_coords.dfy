/** The Cartesian coordinates of the radar grid (events.py lines 55, 67-70) and the
    geographic grid obtained from them through an inverse projection (line 73). */
module GridCoords {

  /** The grid constants of line 55: cell size in metres and cell counts. */
  datatype Geometry = Geometry(xscale: real, xsize: nat, yscale: real, ysize: nat)

  const Odc: Geometry := Geometry(2000.0, 1900, 2000.0, 2200)

  /** The least integer at or above x. */
  function Ceil(x: real): (c: int)
    ensures c as real - 1.0 < x <= c as real
  {
    -((-x).Floor)
  }

  /** np.arange(start, stop, step): the values start + k*step that lie strictly before
      stop in the direction of step, and no more. */
  function Arange(start: real, stop: real, step: real): (r: seq<real>)
    requires step != 0.0
    ensures forall k :: 0 <= k < |r| ==> r[k] == start + k as real * step
    ensures step > 0.0 ==> forall k :: 0 <= k < |r| ==> r[k] < stop
    ensures step < 0.0 ==> forall k :: 0 <= k < |r| ==> r[k] > stop
    ensures step > 0.0 ==> start + |r| as real * step >= stop
    ensures step < 0.0 ==> start + |r| as real * step <= stop
  {
    var n := Ceil((stop - start) / step);
    var len := if n < 0 then 0 else n;
    var r := seq(len, k requires 0 <= k < len => start + k as real * step);
    ArangeBounds(start, stop, step, r);
    r
  }

  lemma ArangeBounds(start: real, stop: real, step: real, r: seq<real>)
    requires step != 0.0
    requires |r| == (if Ceil((stop - start) / step) < 0 then 0 else Ceil((stop - start) / step))
    requires forall k :: 0 <= k < |r| ==> r[k] == start + k as real * step
    ensures step > 0.0 ==> forall k :: 0 <= k < |r| ==> r[k] < stop
    ensures step < 0.0 ==> forall k :: 0 <= k < |r| ==> r[k] > stop
    ensures step > 0.0 ==> start + |r| as real * step >= stop
    ensures step < 0.0 ==> start + |r| as real * step <= stop
  {
    var q := (stop - start) / step;
    assert q * step == stop - start;
    forall k | 0 <= k < |r|
      ensures step > 0.0 ==> r[k] < stop
      ensures step < 0.0 ==> r[k] > stop
    {
      assert k as real < q;
      if step > 0.0 {
        assert k as real * step < q * step;
      } else {
        assert k as real * step > q * step;
      }
    }
    assert |r| as real >= q;
    if step > 0.0 {
      assert |r| as real * step >= q * step;
    } else {
      assert |r| as real * step <= q * step;
    }
  }

  /** The n values 0, scale, 2*scale, ... */
  function Steps(n: nat, scale: real): (xs: seq<real>)
    ensures |xs| == n
  {
    seq(n, k requires 0 <= k < n => k as real * scale)
  }

  /** np.arange(0, n*scale, scale) is exactly Steps(n, scale): n elements, k*scale at k. */
  lemma {:induction false} StepsIsArange(n: nat, scale: real)
    requires scale != 0.0
    ensures Arange(0.0, n as real * scale, scale) == Steps(n, scale)
  {
    var a := Arange(0.0, n as real * scale, scale);
    assert (n as real * scale - 0.0) / scale == n as real;
    assert |a| == n;
    forall k | 0 <= k < n ensures a[k] == Steps(n, scale)[k] {
    }
  }

  /** s[::-1]. */
  function Reversed<T>(s: seq<T>): (r: seq<T>)
    ensures |r| == |s|
  {
    seq(|s|, k requires 0 <= k < |s| => s[|s| - 1 - k])
  }

  /** Reversing twice gives back the original sequence. */
  lemma ReversedInvolution<T>(s: seq<T>)
    ensures Reversed(Reversed(s)) == s
  {
    assert forall k :: 0 <= k < |s| ==> Reversed(Reversed(s))[k] == s[k];
  }

  /** np.meshgrid(xs, ys): |ys| rows of |xs| columns; the x grid repeats xs in every
      row, the y grid repeats ys[i] along row i. */
  function Meshgrid(xs: seq<real>, ys: seq<real>): (g: (seq<seq<real>>, seq<seq<real>>))
    ensures |g.0| == |ys| && |g.1| == |ys|
    ensures forall i :: 0 <= i < |ys| ==> |g.0[i]| == |xs| && |g.1[i]| == |xs|
    ensures forall i, j :: 0 <= i < |ys| && 0 <= j < |xs| ==> g.0[i][j] == xs[j] && g.1[i][j] == ys[i]
  {
    (seq(|ys|, i => xs), seq(|ys|, i requires 0 <= i < |ys| => seq(|xs|, j => ys[i])))
  }

  predicate IsGrid(g: seq<seq<real>>, rows: nat, cols: nat) {
    |g| == rows && forall i :: 0 <= i < rows ==> |g[i]| == cols
  }

  /** x_coords of line 68, np.arange(0, xsize*xscale, xscale) (see StepsIsArange):
      0, xscale, 2*xscale, ..., xsize elements in all. */
  function XCoords(g: Geometry): (xs: seq<real>)
    ensures |xs| == g.xsize
    ensures forall k :: 0 <= k < |xs| ==> xs[k] == k as real * g.xscale
  {
    Steps(g.xsize, g.xscale)
  }

  /** y_coords of line 69: the same arange over the rows, reversed, so that element i
      is (ysize-1-i)*yscale. */
  function YCoords(g: Geometry): (ys: seq<real>)
    ensures |ys| == g.ysize
    ensures forall i :: 0 <= i < |ys| ==> ys[i] == (g.ysize - 1 - i) as real * g.yscale
  {
    var a := Steps(g.ysize, g.yscale);
    var r := Reversed(a);
    assert forall i :: 0 <= i < |r| ==> r[i] == a[g.ysize - 1 - i];
    r
  }

  /** x_grid, y_grid of lines 68-70: ysize rows of xsize columns, cell (i, j) at
      x = j*xscale and y = (ysize-1-i)*yscale, so the y axis is flipped. */
  function CartesianGrid(g: Geometry): (c: (seq<seq<real>>, seq<seq<real>>))
    ensures IsGrid(c.0, g.ysize, g.xsize) && IsGrid(c.1, g.ysize, g.xsize)
    ensures forall i, j :: 0 <= i < g.ysize && 0 <= j < g.xsize ==>
      c.0[i][j] == j as real * g.xscale && c.1[i][j] == (g.ysize - 1 - i) as real * g.yscale
  {
    Meshgrid(XCoords(g), YCoords(g))
  }

  /** With a positive cell height the bottom row has y = 0, y strictly decreases down
      the rows, and row 0 (the northernmost) has the largest y. */
  lemma RowsRunNorthToSouth(g: Geometry, i: nat, k: nat, j: nat)
    requires g.yscale > 0.0
    requires i < k < g.ysize && j < g.xsize
    ensures CartesianGrid(g).1[g.ysize - 1][j] == 0.0
    ensures CartesianGrid(g).1[i][j] > CartesianGrid(g).1[k][j]
    ensures CartesianGrid(g).1[0][j] == (g.ysize - 1) as real * g.yscale
  {
    var c := CartesianGrid(g);
    var yi, yk := c.1[i][j], c.1[k][j];
    assert yi == (g.ysize - 1 - i) as real * g.yscale;
    assert yk == (g.ysize - 1 - k) as real * g.yscale;
    FlipDecreases(g.ysize, g.yscale, i, k);
  }

  lemma FlipDecreases(n: nat, s: real, i: nat, k: nat)
    requires s > 0.0 && i < k < n
    ensures (n - 1 - i) as real * s > (n - 1 - k) as real * s
  {
    assert (n - 1 - i) as real * s - (n - 1 - k) as real * s == (k - i) as real * s;
  }

  /** The x coordinate grows along a row and does not depend on the row. */
  lemma ColumnsRunWestToEast(g: Geometry, i: nat, j: nat, l: nat)
    requires g.xscale > 0.0
    requires i < g.ysize && j < l < g.xsize
    ensures CartesianGrid(g).0[i][0] == 0.0
    ensures CartesianGrid(g).0[i][j] < CartesianGrid(g).0[i][l]
    ensures CartesianGrid(g).0[i][j] == CartesianGrid(g).0[0][j]
  {
    var c := CartesianGrid(g);
    assert c.0[i][l] - c.0[i][j] == (l - j) as real * g.xscale;
  }

  /** A point of the geographic grid, as the projection's inverse returns it. */
  datatype LonLat = LonLat(lon: real, lat: real)

  /** The point the inverse projection gives for cell (i, j). */
  function GeoPoint(g: Geometry, inverse: (real, real) -> LonLat, i: nat, j: nat): LonLat {
    inverse(j as real * g.xscale, (g.ysize - 1 - i) as real * g.yscale)
  }

  /** Row i of the longitude grid. */
  function LonRow(g: Geometry, inverse: (real, real) -> LonLat, i: nat): (r: seq<real>)
    ensures |r| == g.xsize
    ensures forall j :: 0 <= j < |r| ==> r[j] == GeoPoint(g, inverse, i, j).lon
  {
    seq(g.xsize, j requires 0 <= j < g.xsize => GeoPoint(g, inverse, i, j).lon)
  }

  /** Row i of the latitude grid. */
  function LatRow(g: Geometry, inverse: (real, real) -> LonLat, i: nat): (r: seq<real>)
    ensures |r| == g.xsize
    ensures forall j :: 0 <= j < |r| ==> r[j] == GeoPoint(g, inverse, i, j).lat
  {
    seq(g.xsize, j requires 0 <= j < g.xsize => GeoPoint(g, inverse, i, j).lat)
  }

  /** lon_grid, lat_grid of line 73: the inverse projection, which is not part of this
      model, applied at the Cartesian point of every cell (see ProjectedFromCartesian). */
  function ProjectedGrid(g: Geometry, inverse: (real, real) -> LonLat): (p: (seq<seq<real>>, seq<seq<real>>))
    ensures IsGrid(p.0, g.ysize, g.xsize) && IsGrid(p.1, g.ysize, g.xsize)
    ensures forall i, j :: 0 <= i < g.ysize && 0 <= j < g.xsize ==>
      p.0[i][j] == GeoPoint(g, inverse, i, j).lon && p.1[i][j] == GeoPoint(g, inverse, i, j).lat
  {
    (seq(g.ysize, i requires 0 <= i < g.ysize => LonRow(g, inverse, i)),
     seq(g.ysize, i requires 0 <= i < g.ysize => LatRow(g, inverse, i)))
  }

  /** Every geographic cell is the inverse projection of the same cell of the
      Cartesian grid, as in inv(x_grid, y_grid). */
  lemma ProjectedFromCartesian(g: Geometry, inverse: (real, real) -> LonLat, i: nat, j: nat)
    requires i < g.ysize && j < g.xsize
    ensures ProjectedGrid(g, inverse).0[i][j] == inverse(CartesianGrid(g).0[i][j], CartesianGrid(g).1[i][j]).lon
    ensures ProjectedGrid(g, inverse).1[i][j] == inverse(CartesianGrid(g).0[i][j], CartesianGrid(g).1[i][j]).lat
  {
  }

  /** The script's grid has 2200 rows of 1900 columns; its top row lies 4398 km north
      of its bottom row. */
  lemma OdcGridSize()
    ensures IsGrid(CartesianGrid(Odc).0, 2200, 1900)
    ensures CartesianGrid(Odc).1[0][0] == 4398000.0
    ensures CartesianGrid(Odc).0[0][1899] == 3798000.0
  {
  }
}

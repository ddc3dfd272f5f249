/** Reflectivity cleaning and the hail mask of one scan (events.py lines 47-52). */
module HailMask {
  import opened Readings

  /** A 2-D array as a sequence of rows. */
  type Grid<T> = seq<seq<T>>

  /** The reflectivity band [dbzMin, dbzMax) and the inclusive quality minimum. */
  datatype Thresholds = Thresholds(dbzMin: real, dbzMax: real, qindMin: real)

  /** The literals the script uses: 65 dBZ, 80 dBZ, quality 0.8. */
  const Default: Thresholds := Thresholds(65.0, 80.0, 0.8)

  predicate SameShape<A, B>(a: Grid<A>, b: Grid<B>) {
    |a| == |b| && forall i :: 0 <= i < |a| ==> |a[i]| == |b[i]|
  }

  /** np.where(np.isinf(v), np.nan, v) for one cell: never infinite afterwards, NaN
      exactly when the value was infinite or NaN, and a finite value is kept. */
  function Clean(v: Reading): (r: Reading)
    ensures !IsInf(r)
    ensures IsNaN(r) <==> IsInf(v) || IsNaN(v)
    ensures v.Finite? ==> r == v
  {
    if IsInf(v) then NaN else v
  }

  /** ds1 after line 50: every infinity becomes NaN, every other value stays,
      and the shape is kept. */
  function CleanGrid(g: Grid<Reading>): (r: Grid<Reading>)
    ensures SameShape(g, r)
    ensures forall i, j :: 0 <= i < |g| && 0 <= j < |g[i]| ==>
      (IsInf(g[i][j]) ==> r[i][j] == NaN) && (!IsInf(g[i][j]) ==> r[i][j] == g[i][j])
  {
    seq(|g|, i requires 0 <= i < |g| => seq(|g[i]|, j requires 0 <= j < |g[i]| => Clean(g[i][j])))
  }

  /** The element-wise conjunction of line 52 for one cell: with IEEE comparisons it
      holds exactly for a finite reflectivity in the band and a passing quality. */
  predicate Flag(dbz: Reading, qind: Reading, t: Thresholds): (b: bool)
    ensures b <==> dbz.Finite? && t.dbzMin <= dbz.r < t.dbzMax && QualityPasses(qind, t.qindMin)
  {
    AtLeast(dbz, t.dbzMin) && Below(dbz, t.dbzMax) && AtLeast(qind, t.qindMin) && !IsNaN(dbz)
  }

  /** The quality test on a raw value: only +inf and finite values at least the minimum pass. */
  predicate QualityPasses(q: Reading, qmin: real) {
    q.PosInf? || (q.Finite? && q.r >= qmin)
  }

  /** hail_mask of line 52 over the cleaned reflectivity: a cell is set iff its
      reflectivity is a finite value in [dbzMin, dbzMax) and its quality passes. */
  function MaskGrid(dbz: Grid<Reading>, qind: Grid<Reading>, t: Thresholds): (m: Grid<bool>)
    requires SameShape(dbz, qind)
    ensures SameShape(dbz, m)
    ensures forall i, j :: 0 <= i < |dbz| && 0 <= j < |dbz[i]| ==>
      (m[i][j] <==> dbz[i][j].Finite? && t.dbzMin <= dbz[i][j].r < t.dbzMax
                    && QualityPasses(qind[i][j], t.qindMin))
  {
    seq(|dbz|, i requires 0 <= i < |dbz| =>
      seq(|dbz[i]|, j requires 0 <= j < |dbz[i]| => Flag(dbz[i][j], qind[i][j], t)))
  }

  /** The mask read against the RAW reflectivity, before cleaning: a cell is set iff
      the raw value is finite, lies in the band and its quality passes. */
  lemma MaskOfRaw(raw: Grid<Reading>, qind: Grid<Reading>, t: Thresholds, i: nat, j: nat)
    requires SameShape(raw, qind)
    requires i < |raw| && j < |raw[i]|
    ensures SameShape(CleanGrid(raw), qind)
    ensures MaskGrid(CleanGrid(raw), qind, t)[i][j] <==>
      raw[i][j].Finite? && t.dbzMin <= raw[i][j].r < t.dbzMax && QualityPasses(qind[i][j], t.qindMin)
  {
    var c := CleanGrid(raw);
    assert SameShape(c, qind);
    assert IsInf(raw[i][j]) ==> c[i][j] == NaN;
  }

  /** No cell whose raw reflectivity is +inf or -inf is ever flagged, whatever its quality. */
  lemma InfiniteNeverFlagged(raw: Grid<Reading>, qind: Grid<Reading>, t: Thresholds, i: nat, j: nat)
    requires SameShape(raw, qind)
    requires i < |raw| && j < |raw[i]| && IsInf(raw[i][j])
    ensures SameShape(CleanGrid(raw), qind)
    ensures !MaskGrid(CleanGrid(raw), qind, t)[i][j]
  {
    MaskOfRaw(raw, qind, t, i, j);
  }

  /** A NaN quality never qualifies, whatever the reflectivity. */
  lemma NaNQualityNeverFlagged(dbz: Reading, t: Thresholds)
    ensures !Flag(dbz, NaN, t)
  {
  }

  /** With the default band, exactly 65 is in and exactly 80 is out. */
  lemma DefaultBandEdges(q: Reading)
    requires QualityPasses(q, Default.qindMin)
    ensures Flag(Finite(65.0), q, Default)
    ensures !Flag(Finite(80.0), q, Default)
    ensures Flag(Finite(79.9), q, Default)
    ensures !Flag(Finite(64.9), q, Default)
  {
  }

  /** The mask is decided cell by cell: a cell's flag depends only on its own two values. */
  lemma MaskIsCellwise(d1: Grid<Reading>, q1: Grid<Reading>, d2: Grid<Reading>, q2: Grid<Reading>,
                       t: Thresholds, i: nat, j: nat, k: nat, l: nat)
    requires SameShape(d1, q1) && SameShape(d2, q2)
    requires i < |d1| && j < |d1[i]| && k < |d2| && l < |d2[k]|
    requires d1[i][j] == d2[k][l] && q1[i][j] == q2[k][l]
    ensures MaskGrid(d1, q1, t)[i][j] == MaskGrid(d2, q2, t)[k][l]
  {
  }
}

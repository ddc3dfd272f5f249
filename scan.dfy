/** One run of the script over a loaded product (events.py lines 44-96): timestamp,
    cleaning, mask, event list and the conditional save. */
module Scan {
  import opened Readings
  import opened HailMask
  import opened Extraction
  import opened EventStore
  import Timestamps
  import GridCoords

  /** How the run ends: events saved, "No hail events detected.", or an exception
      caught by the handler of lines 98-103 before anything was written. */
  datatype Outcome = Saved(count: nat) | NoEvents | Failed

  /** np.argwhere(hail_mask) for the raw arrays. */
  function FlaggedCells(dbz: Grid<Reading>, qind: Grid<Reading>, t: Thresholds): (cs: seq<Cell>)
    requires SameShape(dbz, qind)
    ensures forall k :: 0 <= k < |cs| ==> cs[k].0 < |dbz| && cs[k].1 < |dbz[cs[k].0]|
  {
    var m := MaskGrid(CleanGrid(dbz), qind, t);
    var cs := ArgWhere(m);
    assert forall k :: 0 <= k < |cs| ==> IsSet(m, cs[k]);
    cs
  }

  predicate AllCovered(cells: seq<Cell>, lat: seq<seq<real>>, lon: seq<seq<real>>) {
    forall k :: 0 <= k < |cells| ==> Covers(lat, lon, cells[k])
  }

  /** The records of a run whose coordinate grids cover every flagged cell. */
  function ScanEvents(dbz: Grid<Reading>, qind: Grid<Reading>, t: Thresholds, timestamp: string,
                      lat: seq<seq<real>>, lon: seq<seq<real>>): seq<HailEvent>
    requires SameShape(dbz, qind) && AllCovered(FlaggedCells(dbz, qind, t), lat, lon)
  {
    var c := CleanGrid(dbz);
    EventsAt(FlaggedCells(dbz, qind, t), timestamp, lat, lon, c)
  }

  /** The event list has one entry per flagged cell, in row-major order; each entry
      carries the timestamp, its own cell's latitude and longitude, and a reflectivity in
      the band that is the raw value itself (cleaning only touches infinities). */
  lemma ScanEventsMeaning(dbz: Grid<Reading>, qind: Grid<Reading>, t: Thresholds, timestamp: string,
                          lat: seq<seq<real>>, lon: seq<seq<real>>)
    requires SameShape(dbz, qind) && AllCovered(FlaggedCells(dbz, qind, t), lat, lon)
    ensures var cs := FlaggedCells(dbz, qind, t);
      var es := ScanEvents(dbz, qind, t, timestamp, lat, lon);
      && |es| == |cs| == |SetCells(MaskGrid(CleanGrid(dbz), qind, t))|
      && StrictlyRowMajor(cs)
      && forall k :: 0 <= k < |es| ==>
           var c := cs[k];
           && es[k].timestamp == timestamp
           && es[k].latitude == lat[c.0][c.1] && es[k].longitude == lon[c.0][c.1]
           && es[k].dbzh == dbz[c.0][c.1]
           && dbz[c.0][c.1].Finite? && t.dbzMin <= dbz[c.0][c.1].r < t.dbzMax
           && QualityPasses(qind[c.0][c.1], t.qindMin)
  {
    var m := MaskGrid(CleanGrid(dbz), qind, t);
    var cs := FlaggedCells(dbz, qind, t);
    ArgWhereCount(m);
    forall k | 0 <= k < |cs|
      ensures dbz[cs[k].0][cs[k].1].Finite? && t.dbzMin <= dbz[cs[k].0][cs[k].1].r < t.dbzMax
      ensures QualityPasses(qind[cs[k].0][cs[k].1], t.qindMin)
      ensures CleanGrid(dbz)[cs[k].0][cs[k].1] == dbz[cs[k].0][cs[k].1]
    {
      assert IsSet(m, cs[k]);
      MaskOfRaw(dbz, qind, t, cs[k].0, cs[k].1);
    }
  }

  /** A scan in which no cell qualifies yields no events. */
  lemma QuietScanHasNoEvents(dbz: Grid<Reading>, qind: Grid<Reading>, t: Thresholds)
    requires SameShape(dbz, qind)
    requires forall i, j :: 0 <= i < |dbz| && 0 <= j < |dbz[i]| ==>
      !(dbz[i][j].Finite? && t.dbzMin <= dbz[i][j].r < t.dbzMax && QualityPasses(qind[i][j], t.qindMin))
    ensures FlaggedCells(dbz, qind, t) == []
  {
    var m := MaskGrid(CleanGrid(dbz), qind, t);
    ArgWhereCount(m);
    forall c | c in SetCells(m) ensures false {
      MaskOfRaw(dbz, qind, t, c.0, c.1);
    }
    assert SetCells(m) == {};
  }

  /** A 4x4 scan whose only qualifying cell is row 1, column 2 at 70 dBZ and quality 0.9
      flags exactly that cell, whatever the other cells hold: NaN, an infinity, a value
      outside the band or a failing quality. */
  lemma SingleCellFlagged(dbz: Grid<Reading>, qind: Grid<Reading>)
    requires |dbz| == 4 && |qind| == 4
    requires forall i :: 0 <= i < 4 ==> |dbz[i]| == 4 && |qind[i]| == 4
    requires dbz[1][2] == Finite(70.0) && qind[1][2] == Finite(0.9)
    requires forall i, j :: 0 <= i < 4 && 0 <= j < 4 && (i, j) != (1, 2) ==>
      !(dbz[i][j].Finite? && Default.dbzMin <= dbz[i][j].r < Default.dbzMax
        && QualityPasses(qind[i][j], Default.qindMin))
    ensures SameShape(dbz, qind)
    ensures FlaggedCells(dbz, qind, Default) == [(1, 2)]
  {
    var m := MaskGrid(CleanGrid(dbz), qind, Default);
    OnlyCellSet(dbz, qind);
    ArgWhereSingle(m, (1, 2));
  }

  lemma OnlyCellSet(dbz: Grid<Reading>, qind: Grid<Reading>)
    requires |dbz| == 4 && |qind| == 4
    requires forall i :: 0 <= i < 4 ==> |dbz[i]| == 4 && |qind[i]| == 4
    requires dbz[1][2] == Finite(70.0) && qind[1][2] == Finite(0.9)
    requires forall i, j :: 0 <= i < 4 && 0 <= j < 4 && (i, j) != (1, 2) ==>
      !(dbz[i][j].Finite? && Default.dbzMin <= dbz[i][j].r < Default.dbzMax
        && QualityPasses(qind[i][j], Default.qindMin))
    ensures SameShape(dbz, qind)
    ensures SetCells(MaskGrid(CleanGrid(dbz), qind, Default)) == {(1, 2)}
  {
    var m := MaskGrid(CleanGrid(dbz), qind, Default);
    forall c | c in SetCells(m) ensures c == (1, 2) {
      MaskOfRaw(dbz, qind, Default, c.0, c.1);
    }
    MaskOfRaw(dbz, qind, Default, 1, 2);
    assert (1, 2) in SetCells(m);
  }

  /** ... and yields exactly one event, for that cell and with reflectivity 70. */
  lemma SingleCellScan(dbz: Grid<Reading>, qind: Grid<Reading>, timestamp: string,
                       lat: seq<seq<real>>, lon: seq<seq<real>>)
    requires |dbz| == 4 && |qind| == 4 && |lat| == 4 && |lon| == 4
    requires forall i :: 0 <= i < 4 ==> |dbz[i]| == 4 && |qind[i]| == 4 && |lat[i]| == 4 && |lon[i]| == 4
    requires dbz[1][2] == Finite(70.0) && qind[1][2] == Finite(0.9)
    requires forall i, j :: 0 <= i < 4 && 0 <= j < 4 && (i, j) != (1, 2) ==>
      !(dbz[i][j].Finite? && Default.dbzMin <= dbz[i][j].r < Default.dbzMax
        && QualityPasses(qind[i][j], Default.qindMin))
    ensures SameShape(dbz, qind)
    ensures AllCovered(FlaggedCells(dbz, qind, Default), lat, lon)
    ensures ScanEvents(dbz, qind, Default, timestamp, lat, lon)
      == [HailEvent(timestamp, lat[1][2], lon[1][2], Finite(70.0))]
  {
    SingleCellFlagged(dbz, qind);
    assert Covers(lat, lon, (1, 2));
    ScanEventsMeaning(dbz, qind, Default, timestamp, lat, lon);
  }

  /** The script's own grids: lon_grid and lat_grid of line 73 for the 2200 x 1900
      geometry, given the inverse projection. */
  function OdcGrids(inverse: (real, real) -> GridCoords.LonLat): (p: (seq<seq<real>>, seq<seq<real>>))
    ensures GridCoords.IsGrid(p.0, 2200, 1900) && GridCoords.IsGrid(p.1, 2200, 1900)
  {
    GridCoords.ProjectedGrid(GridCoords.Odc, inverse)
  }

  /** A cell lies in the script's grid. */
  predicate InOdcGrid(c: Cell) {
    c.0 < 2200 && c.1 < 1900
  }

  /** Indexing lat_grid and lon_grid (lines 80-81) succeeds for exactly the cells of the
      2200 x 1900 grid. */
  lemma OdcCoverage(inverse: (real, real) -> GridCoords.LonLat, cells: seq<Cell>)
    ensures AllCovered(cells, OdcGrids(inverse).1, OdcGrids(inverse).0)
      <==> forall k :: 0 <= k < |cells| ==> InOdcGrid(cells[k])
  {
    var p := OdcGrids(inverse);
    forall k | 0 <= k < |cells|
      ensures Covers(p.1, p.0, cells[k]) <==> InOdcGrid(cells[k])
    {
    }
  }

  /** Cell (i, j) of the script's grids is the inverse projection at x = j * 2000 m,
      y = (2199 - i) * 2000 m: the [::-1] of line 69 puts the northernmost row first. */
  lemma OdcPoint(inverse: (real, real) -> GridCoords.LonLat, i: nat, j: nat)
    requires i < 2200 && j < 1900
    ensures OdcGrids(inverse).0[i][j] == inverse(j as real * 2000.0, (2199 - i) as real * 2000.0).lon
    ensures OdcGrids(inverse).1[i][j] == inverse(j as real * 2000.0, (2199 - i) as real * 2000.0).lat
  {
    assert GridCoords.GeoPoint(GridCoords.Odc, inverse, i, j)
      == inverse(j as real * 2000.0, (2199 - i) as real * 2000.0);
  }

  /** The records built from cells of the script's grid sit at the inverse projection
      of their cells' Cartesian points. */
  lemma OdcEventsAt(cells: seq<Cell>, timestamp: string, dbz: seq<seq<Reading>>,
                    inverse: (real, real) -> GridCoords.LonLat)
    requires forall k :: 0 <= k < |cells| ==> InOdcGrid(cells[k])
    requires forall k :: 0 <= k < |cells| ==> cells[k].0 < |dbz| && cells[k].1 < |dbz[cells[k].0]|
    ensures AllCovered(cells, OdcGrids(inverse).1, OdcGrids(inverse).0)
    ensures forall k :: 0 <= k < |cells| ==>
      var e := EventsAt(cells, timestamp, OdcGrids(inverse).1, OdcGrids(inverse).0, dbz)[k];
      var pt := inverse(cells[k].1 as real * 2000.0, (2199 - cells[k].0) as real * 2000.0);
      e.latitude == pt.lat && e.longitude == pt.lon
  {
    var p := OdcGrids(inverse);
    OdcCoverage(inverse, cells);
    var es := EventsAt(cells, timestamp, p.1, p.0, dbz);
    forall k | 0 <= k < |cells|
      ensures var pt := inverse(cells[k].1 as real * 2000.0, (2199 - cells[k].0) as real * 2000.0);
        es[k].latitude == pt.lat && es[k].longitude == pt.lon
    {
      OdcPoint(inverse, cells[k].0, cells[k].1);
    }
  }

  /** Event k of a run sits at the inverse projection of its cell's Cartesian point. */
  lemma OdcEventPositions(dbz: Grid<Reading>, qind: Grid<Reading>, t: Thresholds, timestamp: string,
                          inverse: (real, real) -> GridCoords.LonLat)
    requires SameShape(dbz, qind)
    requires forall k :: 0 <= k < |FlaggedCells(dbz, qind, t)| ==> InOdcGrid(FlaggedCells(dbz, qind, t)[k])
    ensures AllCovered(FlaggedCells(dbz, qind, t), OdcGrids(inverse).1, OdcGrids(inverse).0)
    ensures var cs := FlaggedCells(dbz, qind, t);
      var es := ScanEvents(dbz, qind, t, timestamp, OdcGrids(inverse).1, OdcGrids(inverse).0);
      && |es| == |cs|
      && forall k :: 0 <= k < |es| ==>
           var pt := inverse(cs[k].1 as real * 2000.0, (2199 - cs[k].0) as real * 2000.0);
           es[k].latitude == pt.lat && es[k].longitude == pt.lon
  {
    var p, cs := OdcGrids(inverse), FlaggedCells(dbz, qind, t);
    OdcEventsAt(cs, timestamp, CleanGrid(dbz), inverse);
    assert ScanEvents(dbz, qind, t, timestamp, p.1, p.0) == EventsAt(cs, timestamp, p.1, p.0, CleanGrid(dbz));
  }

  /** Lines 44-96 for one product, the arrays and attributes already loaded and the
      inverse projection of the Basemap of lines 59-65 given. */
  method RunScan(store: Store, dbz: Grid<Reading>, qind: Grid<Reading>,
                 startdate: string, starttime: string,
                 inverse: (real, real) -> GridCoords.LonLat, t: Thresholds)
    returns (outcome: Outcome)
    requires store.Valid() && SameShape(dbz, qind)
    modifies store
    ensures store.Valid()
    ensures var cs := FlaggedCells(dbz, qind, t);
      if forall k :: 0 <= k < |cs| ==> InOdcGrid(cs[k]) then
        && AllCovered(cs, OdcGrids(inverse).1, OdcGrids(inverse).0)
        && outcome == (if |cs| == 0 then NoEvents else Saved(|cs|))
        && (store.fileExists, store.lines)
             == AfterSave(old(store.fileExists), old(store.lines),
                          ScanEvents(dbz, qind, t, Timestamps.RadarTimestamp(startdate, starttime),
                                     OdcGrids(inverse).1, OdcGrids(inverse).0))
      else
        outcome == Failed && store.fileExists == old(store.fileExists) && store.lines == old(store.lines)
  {
    var timestamp := Timestamps.RadarTimestamp(startdate, starttime);
    var grids := OdcGrids(inverse);
    var lon, lat := grids.0, grids.1;
    var cleaned := CleanGrid(dbz);
    var mask := MaskGrid(cleaned, qind, t);
    var cells := ArgWhere(mask);
    assert cells == FlaggedCells(dbz, qind, t);
    OdcCoverage(inverse, cells);
    var r := ExtractEvents(cells, timestamp, lat, lon, cleaned);
    match r
    case IndexError(_) =>
      outcome := Failed;
    case Extracted(events) =>
      store.Save(events);
      outcome := if |events| == 0 then NoEvents else Saved(|events|);
  }
}

/** The event list of one scan (events.py lines 76-83): np.argwhere over the hail mask,
    then one record per flagged cell in that order. */
module Extraction {
  import opened Readings

  /** A (row, column) cell position. */
  type Cell = (nat, nat)

  /** Row-major order on cells: earlier row first, then earlier column. */
  predicate RowMajorBefore(a: Cell, b: Cell) {
    a.0 < b.0 || (a.0 == b.0 && a.1 < b.1)
  }

  /** Strictly increasing in row-major order (hence without repetition). */
  predicate StrictlyRowMajor(cs: seq<Cell>) {
    forall a, b :: 0 <= a < b < |cs| ==> RowMajorBefore(cs[a], cs[b])
  }

  predicate IsSet(m: seq<seq<bool>>, c: Cell) {
    c.0 < |m| && c.1 < |m[c.0]| && m[c.0][c.1]
  }

  /** The positions of the set entries of row i, left to right. */
  function RowHits(row: seq<bool>, i: nat): (cs: seq<Cell>)
    ensures forall k :: 0 <= k < |cs| ==> cs[k].0 == i && cs[k].1 < |row| && row[cs[k].1]
    ensures forall a, b :: 0 <= a < b < |cs| ==> cs[a].1 < cs[b].1
  {
    if |row| == 0 then []
    else
      var n := |row| - 1;
      RowHits(row[..n], i) + (if row[n] then [(i, n)] else [])
  }

  /** np.argwhere(mask): every set cell, in row-major order. */
  function ArgWhere(m: seq<seq<bool>>): (cs: seq<Cell>)
    ensures forall k :: 0 <= k < |cs| ==> IsSet(m, cs[k])
    ensures StrictlyRowMajor(cs)
  {
    if |m| == 0 then []
    else
      var n := |m| - 1;
      var front := ArgWhere(m[..n]);
      var last := RowHits(m[n], n);
      assert forall k :: 0 <= k < |front| ==> IsSet(m[..n], front[k]) && front[k].0 < n;
      front + last
  }

  lemma {:induction false} RowHitsComplete(row: seq<bool>, i: nat, j: nat)
    requires j < |row| && row[j]
    ensures (i, j) in RowHits(row, i)
  {
    var n := |row| - 1;
    if j < n {
      assert row[..n][j] == row[j];
      RowHitsComplete(row[..n], i, j);
    }
  }

  /** Every set cell is listed by argwhere. */
  lemma {:induction false} ArgWhereComplete(m: seq<seq<bool>>, c: Cell)
    requires IsSet(m, c)
    ensures c in ArgWhere(m)
  {
    var n := |m| - 1;
    if c.0 < n {
      assert m[..n][c.0] == m[c.0];
      ArgWhereComplete(m[..n], c);
    } else {
      RowHitsComplete(m[n], n, c.1);
    }
  }

  /** The set cells of a mask, as a set. */
  ghost function SetCells(m: seq<seq<bool>>): set<Cell> {
    set i: nat, j: nat | i < |m| && j < |m[i]| && m[i][j] :: (i, j)
  }

  lemma {:induction false} DistinctCount(cs: seq<Cell>)
    requires StrictlyRowMajor(cs)
    ensures |set k | 0 <= k < |cs| :: cs[k]| == |cs|
  {
    if |cs| > 0 {
      var n := |cs| - 1;
      var front := cs[..n];
      assert StrictlyRowMajor(front);
      DistinctCount(front);
      var sf := set k | 0 <= k < |front| :: front[k];
      var s := set k | 0 <= k < |cs| :: cs[k];
      assert s == sf + {cs[n]};
      assert cs[n] !in sf by {
        forall k | 0 <= k < |front| ensures front[k] != cs[n] {
          assert RowMajorBefore(cs[k], cs[n]);
        }
      }
    }
  }

  /** argwhere lists exactly the set cells, each once: its length is the number of
      set cells of the mask. */
  lemma ArgWhereCount(m: seq<seq<bool>>)
    ensures (set k | 0 <= k < |ArgWhere(m)| :: ArgWhere(m)[k]) == SetCells(m)
    ensures |ArgWhere(m)| == |SetCells(m)|
  {
    var cs := ArgWhere(m);
    var s := set k | 0 <= k < |cs| :: cs[k];
    forall c | c in SetCells(m) ensures c in s {
      ArgWhereComplete(m, c);
      var k :| 0 <= k < |cs| && cs[k] == c;
    }
    assert s == SetCells(m);
    DistinctCount(cs);
  }

  /** A mask with a single set cell has that cell as its whole argwhere. */
  lemma ArgWhereSingle(m: seq<seq<bool>>, c: Cell)
    requires SetCells(m) == {c}
    ensures ArgWhere(m) == [c]
  {
    var cs := ArgWhere(m);
    ArgWhereCount(m);
    assert cs[0] in (set k | 0 <= k < |cs| :: cs[k]);
  }

  /** One row of the event table. */
  datatype HailEvent = HailEvent(timestamp: string, latitude: real, longitude: real, dbzh: Reading)

  /** lat_grid[i, j] and lon_grid[i, j] are in range. */
  predicate Covers(lat: seq<seq<real>>, lon: seq<seq<real>>, c: Cell) {
    c.0 < |lat| && c.1 < |lat[c.0]| && c.0 < |lon| && c.1 < |lon[c.0]|
  }

  /** The records the loop appends when every index is in range. */
  function EventsAt(cells: seq<Cell>, timestamp: string, lat: seq<seq<real>>, lon: seq<seq<real>>,
                    dbz: seq<seq<Reading>>): (es: seq<HailEvent>)
    requires forall k :: 0 <= k < |cells| ==> Covers(lat, lon, cells[k])
    requires forall k :: 0 <= k < |cells| ==> cells[k].0 < |dbz| && cells[k].1 < |dbz[cells[k].0]|
    ensures |es| == |cells|
    ensures forall k :: 0 <= k < |es| ==>
      Covers(lat, lon, cells[k]) &&
      es[k] == HailEvent(timestamp, lat[cells[k].0][cells[k].1], lon[cells[k].0][cells[k].1],
                         dbz[cells[k].0][cells[k].1])
  {
    seq(|cells|, k requires 0 <= k < |cells| =>
      var c := cells[k];
      assert Covers(lat, lon, c);
      HailEvent(timestamp, lat[c.0][c.1], lon[c.0][c.1], dbz[c.0][c.1]))
  }

  /** The outcome of the loop: the records, or the IndexError raised at a cell that
      one of the coordinate grids does not cover. */
  datatype LoopResult = Extracted(events: seq<HailEvent>) | IndexError(cell: Cell)

  /** The loop of lines 76-83 over the argwhere cells. */
  method ExtractEvents(cells: seq<Cell>, timestamp: string, lat: seq<seq<real>>, lon: seq<seq<real>>,
                       dbz: seq<seq<Reading>>) returns (r: LoopResult)
    requires forall k :: 0 <= k < |cells| ==> cells[k].0 < |dbz| && cells[k].1 < |dbz[cells[k].0]|
    ensures r.Extracted? <==> forall k :: 0 <= k < |cells| ==> Covers(lat, lon, cells[k])
    ensures r.Extracted? ==> r.events == EventsAt(cells, timestamp, lat, lon, dbz)
    ensures r.IndexError? ==> !Covers(lat, lon, r.cell)
    ensures r.IndexError? ==>
      exists k :: 0 <= k < |cells| && cells[k] == r.cell && forall l :: 0 <= l < k ==> Covers(lat, lon, cells[l])
  {
    var events: seq<HailEvent> := [];
    var k := 0;
    while k < |cells|
      invariant 0 <= k <= |cells|
      invariant forall l :: 0 <= l < k ==> Covers(lat, lon, cells[l])
      invariant events == EventsAt(cells[..k], timestamp, lat, lon, dbz)
    {
      var c := cells[k];
      if !Covers(lat, lon, c) {
        return IndexError(c);
      }
      events := events + [HailEvent(timestamp, lat[c.0][c.1], lon[c.0][c.1], dbz[c.0][c.1])];
      k := k + 1;
    }
    assert cells[..k] == cells;
    r := Extracted(events);
  }
}

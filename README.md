# Hail events from an ODC reflectivity product, in Dafny

`events.py` reads one reflectivity product, the HDF5 file `ODC.REF_<id>.h5`
(line 31). It holds a reflectivity array (DBZH) and a quality-index array (QIND).
The script then:

1. marks every cell whose reflectivity is a finite value in [65, 80) dBZ and whose
   quality is at least 0.8;
2. turns each marked cell into a record: the radar image timestamp, the cell's
   latitude and longitude, and its reflectivity;
3. appends the records to `hail_events.csv`, writing the header only when it
   creates the file.

When no product id is passed on the command line, the id is the quarter hour at or
before "now minus 12 minutes", written `YYYYMMDDHHMM`.

The model is split into modules as follows:

- `Readings` (`readings.dfy`): one floating-point cell value. It is a finite real,
  plus infinity, minus infinity or NaN, with the IEEE meaning of `>=` and `<`
  against a finite threshold.
- `HailMask` (`hail_mask.dfy`): the cleaning step, which replaces infinities by NaN,
  and the element-wise hail mask, over grids held as sequences of rows.
- `GridCoords` (`grid_coords.dfy`):
  - `np.arange`, the reversed y axis, and `np.meshgrid` over the geometry
    constants;
  - the geographic grid, as the inverse projection applied at every Cartesian
    point. The projection is passed in as a function.
- `Extraction` (`extraction.dfy`):
  - `np.argwhere` as a function with its order and completeness proved;
  - the record-building loop as a method, which raises `IndexError` when a
    coordinate grid does not cover a flagged cell.
- `EventStore` (`event_store.dfy`): the CSV file is a class `Store`. Its state is
  whether the file exists and the sequence of its lines (a header or a data row).
  `Save` performs the conditional write/append.
- `Timestamps` (`timestamps.dfy`):
  - the radar timestamp built by slicing `starttime`;
  - the subtraction of a timedelta of fewer than 60 minutes, with calendar borrow
    and the overflow below `datetime.min`;
  - rounding down to the quarter hour, `zfill`, the default id, and the choice
    between the command-line argument and the default.
- `Scan` (`scan.dfy`): one run over a loaded product. It combines the parts above:
  the mask, the geographic grids of the script's 2200 × 1900 geometry built from the
  inverse projection, the record loop and the save. A run ends in one of three
  outcomes: saved, no events, or an error caught by the handler.

## Model

| member | source | states |
|---|---|---|
| `HailMask.Clean` | events.py:50 | one cell of the `np.where`: the result is never infinite, it is NaN exactly when the value was ±inf or NaN, and a finite value is kept |
| `HailMask.CleanGrid` | events.py:50 | the shape is kept; every infinite cell becomes NaN and every other cell is unchanged |
| `HailMask.Default` | events.py:47-49 | the literal thresholds 65, 80 and 0.8; stated by `DefaultBandEdges` |
| `HailMask.QualityPasses` | events.py:52 | definition of what `ds2 >= qind_threshold` accepts for a raw quality (+inf or a finite value at least the minimum); stated by `Flag` and `NaNQualityNeverFlagged` |
| `HailMask.Flag` | events.py:52 | the conjunction of line 52 for one cell, under IEEE comparisons: holds exactly for a finite reflectivity in [min, max) with a passing quality |
| `HailMask.MaskGrid` | events.py:52 | same shape as the input; a cell is set iff its reflectivity is finite, at least the lower threshold and below the upper, and its quality is +inf or a finite value at least the quality threshold |
| `HailMask.MaskOfRaw` | events.py:47-52 | the mask of the cleaned array, read against the raw values: set iff the raw reflectivity is finite and in [65, 80) and the quality passes |
| `HailMask.InfiniteNeverFlagged` | events.py:50-52 | a cell whose raw reflectivity is +inf or -inf is never flagged, whatever its quality |
| `HailMask.NaNQualityNeverFlagged` | events.py:52 | a NaN quality never qualifies a cell |
| `HailMask.DefaultBandEdges` | events.py:47-49 | with the literal thresholds, 65 is inside the band (inclusive), 80 is outside (exclusive), 79.9 is inside and 64.9 outside |
| `HailMask.MaskIsCellwise` | events.py:52 | a cell's flag depends only on that cell's two values |
| `Readings.IsInf` | events.py:50 | definition of `np.isinf` for one value: true for +inf and −inf only; stated through `HailMask.Clean` and `InfiniteNeverFlagged` |
| `Readings.IsNaN` | events.py:52 | definition of `np.isnan` for one value; stated through `HailMask.Clean` and `HailMask.Flag` |
| `Readings.AtLeast` | events.py:52 | definition of IEEE `>=` against a finite threshold; stated by `NaNComparesFalse` and `HailMask.Flag` |
| `Readings.Below` | events.py:52 | definition of IEEE `<` against a finite threshold; stated by `NaNComparesFalse` and `HailMask.Flag` |
| `Readings.NaNComparesFalse` | events.py:52 | both comparisons against NaN are false, which is why NaN never enters the mask |
| `GridCoords.Arange` | events.py:68-69 | `np.arange`: element k is start + k·step, all elements lie strictly before stop in the step's direction, and one more step would reach stop |
| `GridCoords.Steps` | events.py:68-69 | n values; `StepsIsArange` shows they are `np.arange(0, n·scale, scale)` |
| `GridCoords.Reversed` | events.py:69 | `[::-1]`: same length; `YCoords` states its elements for the y axis and `ReversedInvolution` that reversing twice gives back the original |
| `GridCoords.ReversedInvolution` | events.py:69 | reversing twice is the identity |
| `GridCoords.StepsIsArange` | events.py:68-69 | `np.arange(0, n*scale, scale)` has exactly n elements, the k-th being k·scale |
| `GridCoords.Odc` | events.py:55 | the script's geometry constants; stated by `OdcGridSize` |
| `GridCoords.XCoords` | events.py:68 | xsize values, the k-th being k·xscale |
| `GridCoords.YCoords` | events.py:69 | ysize values, reversed: the i-th is (ysize−1−i)·yscale |
| `GridCoords.Meshgrid` | events.py:70 | one row per element of ys, one column per element of xs; the x grid repeats xs in every row, the y grid holds ys[i] along row i |
| `GridCoords.CartesianGrid` | events.py:55-70 | ysize rows of xsize columns; cell (i, j) sits at x = j·xscale, y = (ysize−1−i)·yscale |
| `GridCoords.RowsRunNorthToSouth` | events.py:69 | the bottom row has y = 0, y strictly decreases down the rows, and row 0 has the largest y |
| `GridCoords.ColumnsRunWestToEast` | events.py:68-70 | x is 0 in the first column, grows along a row, and is the same in every row |
| `GridCoords.GeoPoint` | events.py:59-73 | definition: the inverse projection at cell (i, j)'s Cartesian point; stated by `ProjectedGrid`, `ProjectedFromCartesian` and `Scan.OdcPoint` |
| `GridCoords.ProjectedGrid` | events.py:73 | both geographic grids have the radar grid's shape; cell (i, j) is the inverse projection of that cell's Cartesian point |
| `GridCoords.ProjectedFromCartesian` | events.py:70-73 | each geographic cell equals the inverse applied to the Cartesian grids' values at the same cell |
| `GridCoords.OdcGridSize` | events.py:55 | the script's grid is 2200 rows by 1900 columns; the top row lies at y = 4398 km and the last column at x = 3798 km |
| `Extraction.RowHits` | events.py:77 | the set positions of one row, each one set and in range, with strictly increasing columns |
| `Extraction.ArgWhere` | events.py:77 | every listed cell is set in the mask, and the list is strictly increasing in row-major order |
| `Extraction.ArgWhereComplete` | events.py:77 | every set cell of the mask appears in the argwhere list |
| `Extraction.ArgWhereCount` | events.py:77 | the argwhere list holds exactly the set cells, each once, so its length is the number of set cells |
| `Extraction.ArgWhereSingle` | events.py:77 | a mask with a single set cell gives that cell as the whole list |
| `Extraction.Covers` | events.py:80-81 | definition of the bounds under which `lat_grid[i, j]` and `lon_grid[i, j]` do not raise; stated by `ExtractEvents` and `Scan.OdcCoverage` |
| `Extraction.EventsAt` | events.py:76-83 | one record per cell, in the cells' order, holding the timestamp, lat_grid and lon_grid at the cell, and the cleaned reflectivity at the cell |
| `Extraction.ExtractEvents` | events.py:76-83 | the loop: succeeds iff both coordinate grids cover every cell, and then its records are `EventsAt`; otherwise it reports a listed cell that is not covered, like numpy's IndexError |
| `EventStore.HeaderCount` | events.py:90-92 | number of header lines, at most the number of lines |
| `EventStore.Records` | events.py:90-92 | the data rows' records in file order, at most one per line |
| `EventStore.RowsOf` | events.py:90-92 | one data row per record, in order (`index=False`: no index column) |
| `EventStore.CountsOfConcat` | events.py:90 | appending lines adds their headers and records after the existing ones |
| `EventStore.RowsCounts` | events.py:90-92 | the data rows of records contain no header and give back exactly those records |
| `EventStore.AfterSave` | events.py:87-92 | definition of the create-or-append rule; stated by `SaveKeepsOneHeader`, `FirstSaveLayout` and `Store.Save` |
| `EventStore.SaveKeepsOneHeader` | events.py:86-92 | after a save the file is well formed (absent, or exactly one header and it comes first); it exists iff it already did or there were events; its records are the old ones followed by the new; the old lines are a prefix of the new |
| `EventStore.FirstSaveLayout` | events.py:91-92 | a first save of n ≥ 1 records gives a header line followed by exactly those n rows |
| `EventStore.Store.Absent` | events.py:89 | a store starts with no file and no lines, which is well formed |
| `EventStore.Store.Save` | events.py:86-92 | keeps the store well formed; the new state is `AfterSave` of the old: unchanged for no events, rows appended to an existing file, header plus rows for a new file; records grow by exactly the events; old lines are kept as a prefix |
| `Timestamps.Slice` | events.py:44 | Python's `s[a:b]` with bounds clamped to the length: the length is as Python computes it, and each character is `s[a+k]` |
| `Timestamps.RadarTimestamp` | events.py:44 | the date, a space, then up to six time characters with ':' at the positions after the second and the fourth; time character k lands at offset 1 + k + k/2 after the date |
| `Timestamps.RadarTimestampExample` | events.py:42-44 | "20240115" and "143005" give "20240115 14:30:05" |
| `Timestamps.YearLength` | events.py:10 | consecutive year starts are DaysInYear apart in the proleptic Gregorian ordinal |
| `Timestamps.MonthLength` | events.py:10 | consecutive month starts are DaysInMonth apart |
| `Timestamps.OrdinalBounds` | events.py:10 | the ordinal of a valid date is at least 1; it exceeds 365 after year 1 and exceeds the year's first day after January |
| `Timestamps.PrevDay` | events.py:10 | the calendar day before a valid date, with the time of day kept; missing exactly for 0001-01-01 |
| `Timestamps.PrevDayOrdinal` | events.py:10 | the day before has the ordinal one less |
| `Timestamps.Lag` | events.py:10 | the 12-minute lag; stated by `DefaultIdDefined` and `DefaultIdTime` |
| `Timestamps.MinusMinutes` | events.py:10 | `t - timedelta(minutes=n)` for 0 ≤ n < 60: overflows (None) exactly at 0001-01-01 00:mm with mm < n; otherwise a valid datetime with the same seconds and microseconds |
| `Timestamps.MinusMinutesDefined` | events.py:10 | the subtraction overflows iff the instant n minutes earlier is before `datetime.min` |
| `Timestamps.MinusMinutesShift` | events.py:10 | the result is exactly n minutes earlier, on the minute scale and on the microsecond scale |
| `Timestamps.RoundDownToQuarter` | events.py:11-15 | a valid datetime on minute 0, 15, 30 or 45 with zero seconds and microseconds, the same date and hour, less than 15 minutes before t (its minute is at most 14 below t's) |
| `Timestamps.RoundDownShift` | events.py:11-15 | the rounding is the subtraction of timedelta(minutes=minute%15, seconds, microseconds) and moves t back by less than 15 minutes |
| `Timestamps.RoundDownIdempotent` | events.py:11-15 | rounding an already rounded time changes nothing |
| `Timestamps.Decimal` | events.py:17-21 | `str(n)` for n ≥ 0 is a non-empty string of digits |
| `Timestamps.ValueOfDecimal` | events.py:17-21 | `str(n)` reads back as n |
| `Timestamps.ZFill` | events.py:17-21 | `zfill(width)`: length is the larger of the string's length and width; the string is the suffix and the prefix is '0's |
| `Timestamps.ValueIgnoresLeadingZeros` | events.py:17-21 | leading '0's do not change the number a digit string denotes |
| `Timestamps.ZFillDecimal` | events.py:17-21 | for n < 10^w, `str(n).zfill(w)` is exactly w digits that read back as n |
| `Timestamps.IdOf` | events.py:17-22 | definition of the id string; stated by `IdOfLayout` |
| `Timestamps.IdOfLayout` | events.py:17-22 | the id of a valid time is 12 digits, YYYYMMDDHHMM, each field reading back as the time's year, month, day, hour and minute |
| `Timestamps.DefaultId` | events.py:10-22 | definition of the default product id; stated by `DefaultIdDefined`, `DefaultIdLayout` and `DefaultIdTime` |
| `Timestamps.DefaultIdDefined` | events.py:10 | the default id is missing only when now − 12 minutes is before `datetime.min` |
| `Timestamps.DefaultIdLayout` | events.py:10-22 | a computed default id is 12 digits naming the quarter hour at or before now − 12 minutes, field by field |
| `Timestamps.DefaultIdTime` | events.py:10-15 | that quarter hour lies at or before now − 12 minutes and less than 15 minutes before it |
| `Timestamps.ResolveProductId` | events.py:10-28 | fails iff the default fails (it is computed first); otherwise a given argument is used verbatim, and without one the default id is used |
| `Scan.FlaggedCells` | events.py:77 | the argwhere cells of the cleaned mask all lie inside the reflectivity grid |
| `Scan.ScanEvents` | events.py:50-83 | definition of one run's event list; stated by `ScanEventsMeaning`, `OdcEventPositions` and `SingleCellScan` |
| `Scan.ScanEventsMeaning` | events.py:47-83 | one record per set cell of the mask, in row-major order; each record has the radar timestamp, its cell's latitude and longitude, and the raw reflectivity, which is finite and in the band, with quality that passes |
| `Scan.QuietScanHasNoEvents` | events.py:52-77 | a scan with no qualifying cell flags nothing |
| `Scan.SingleCellFlagged` | events.py:52-77 | a 4×4 scan whose only qualifying cell is (1, 2) at 70 dBZ and quality 0.9 flags exactly [(1, 2)]; every other cell only has to fail the test, so it may be NaN, ±inf, out of the band or of failing quality |
| `Scan.OnlyCellSet` | events.py:52 | in that scan the mask's set cells are exactly {(1, 2)} |
| `Scan.SingleCellScan` | events.py:76-83 | that scan yields exactly one record: (1, 2)'s latitude and longitude with 70 dBZ |
| `Scan.OdcGrids` | events.py:55-73 | the script's longitude and latitude grids both have 2200 rows of 1900 columns |
| `Scan.OdcCoverage` | events.py:73-83 | indexing both geographic grids succeeds for a list of cells iff every cell has row < 2200 and column < 1900 |
| `Scan.OdcPoint` | events.py:59-73 | cell (i, j) of the script's longitude and latitude grids is the inverse projection at x = j·2000, y = (2199 − i)·2000 |
| `Scan.OdcEventsAt` | events.py:76-83 | records built from cells inside the 2200 × 1900 grid can all be built, and record k lies at the inverse projection of cell k's Cartesian point |
| `Scan.OdcEventPositions` | events.py:59-83 | when every flagged cell is in the grid, record k holds the latitude and longitude of the inverse projection at x = column·2000, y = (2199 − row)·2000 of its cell |
| `Scan.RunScan` | events.py:44-103 | with the grids of line 73 for the given inverse projection: when every flagged cell lies in the 2200 × 1900 grid, the outcome is "no events" for an empty list or "saved n" for n flagged cells, and the store becomes `AfterSave` of the scan's records; when some flagged cell lies outside, the run fails and the store is left unchanged |

## Left out

- Reading the HDF5 file (lines 35-43) is not modelled. This covers the dataset and
  attribute look-ups, the UTF-8 decoding and the path built from the product id.
  `RunScan` takes the two arrays and the `startdate`/`starttime` strings as
  parameters. The FileNotFoundError and KeyError paths (lines 98-101) belong to that
  I/O and are not modelled. Of the exceptions that can arise inside the modelled
  code, the `IndexError` from a coordinate grid that does not cover a flagged cell
  is modelled, as `Outcome.Failed`. The messages printed are not modelled.
- `EventStore.Store.Save`: the write can fail. `to_csv` (lines 90 and 92) can raise
  an `OSError`, for example for a full disk or a missing permission. The handler of
  lines 102-103 catches it, and an append may by then have left a truncated row at
  the end of the file. `Save` always completes, so neither the failure nor a partial
  append is modelled.
- `EventStore.Store`: only files this program writes can be represented. `Absent`
  is the only constructor, and `Save` requires `Valid()`, which holds only for no
  file or for a file whose first and only header line is the script's. The script
  would also append rows to an existing file that it did not write, such as an empty
  file or one without a header (lines 89-90).
- The Lambert azimuthal equal-area projection is not modelled. That is the Basemap
  construction of lines 56-65, with its centre and corner constants, and its
  inverse. `ProjectedGrid`, and through it `RunScan`, take the inverse as a function
  parameter.
- Floating point is modelled with exact reals. This leaves out rounding in
  `arange`, the binary value of 0.8, and the float32/float64 conversion of the
  HDF5 data. IEEE infinities and NaN are kept as distinct values of `Reading`.
- CSV text formatting is not modelled: pandas' float printing, quoting and line
  endings. A line is a header or a record. The header's column names are
  `EventStore.Columns`, in the record's key order.
- `datetime.now()` (line 10) and `sys.argv` (lines 25-26) are not read. The current
  time and the optional argument are parameters of `DefaultId` and
  `ResolveProductId`.
- `Timestamps.ZFill` models `zfill` only for strings without a leading sign. Every
  string it receives is a `str` of a non-negative number.
- `GridCoords.Steps`, which `XCoords` and `YCoords` use, does not model the
  error that `np.arange` raises for a zero step. `Arange` itself
  requires a non-zero step, and `StepsIsArange` relates the two for a non-zero
  scale. The script's scale is 2000.
- `HailMask.MaskGrid` requires the two arrays to have the same shape. For other
  shapes numpy either broadcasts or raises. The model assumes that both datasets of
  a product have one shape.
- `main.py`, `plot.py`, `lat-lon.py` and `inspect-h5.py` are not part of this model.
  They cover scheduling, plotting, coordinate printing and HDF5 inspection.

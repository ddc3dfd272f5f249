/** The append-only CSV file hail_events.csv (events.py lines 85-92), as whether the
    file exists and the sequence of its lines. */
module EventStore {
  import opened Extraction

  /** The header pandas writes from the record keys, in insertion order. */
  const Columns: seq<string> := ["Radar Image Timestamp", "Latitude", "Longitude", "DBZH"]

  datatype Line = Header(columns: seq<string>) | Row(event: HailEvent)

  function HeaderCount(lines: seq<Line>): (n: nat)
    ensures n <= |lines|
  {
    if |lines| == 0 then 0
    else HeaderCount(lines[..|lines| - 1]) + (if lines[|lines| - 1].Header? then 1 else 0)
  }

  /** The records held in the data lines, in file order. */
  function Records(lines: seq<Line>): (es: seq<HailEvent>)
    ensures |es| <= |lines|
  {
    if |lines| == 0 then []
    else
      var last := lines[|lines| - 1];
      Records(lines[..|lines| - 1]) + (if last.Row? then [last.event] else [])
  }

  function RowsOf(events: seq<HailEvent>): (ls: seq<Line>)
    ensures |ls| == |events|
    ensures forall k :: 0 <= k < |ls| ==> ls[k] == Row(events[k])
  {
    seq(|events|, k requires 0 <= k < |events| => Row(events[k]))
  }

  lemma {:induction false} CountsOfConcat(a: seq<Line>, b: seq<Line>)
    ensures HeaderCount(a + b) == HeaderCount(a) + HeaderCount(b)
    ensures Records(a + b) == Records(a) + Records(b)
  {
    if |b| > 0 {
      var n := |b| - 1;
      assert (a + b)[..|a + b| - 1] == a + b[..n];
      CountsOfConcat(a, b[..n]);
    } else {
      assert a + b == a;
    }
  }

  lemma {:induction false} RowsCounts(events: seq<HailEvent>)
    ensures HeaderCount(RowsOf(events)) == 0
    ensures Records(RowsOf(events)) == events
  {
    if |events| > 0 {
      var n := |events| - 1;
      assert RowsOf(events)[..n] == RowsOf(events[..n]);
      RowsCounts(events[..n]);
      assert events == events[..n] + [events[n]];
    }
  }

  /** The file as this program leaves it: absent, or one header line first and no other. */
  ghost predicate WellFormed(fileExists: bool, lines: seq<Line>) {
    if fileExists then |lines| > 0 && lines[0] == Header(Columns) && HeaderCount(lines) == 1
    else lines == []
  }

  /** The file after one save of `events`: nothing is written for no events; a new file
      gets the header and the rows; an existing one gets the rows after its content. */
  function AfterSave(fileExists: bool, lines: seq<Line>, events: seq<HailEvent>): (bool, seq<Line>) {
    if |events| == 0 then (fileExists, lines)
    else if fileExists then (true, lines + RowsOf(events))
    else (true, [Header(Columns)] + RowsOf(events))
  }

  /** A save keeps the file well formed, with exactly one header once it exists, the old
      records first and the new ones after them, and the old lines untouched. */
  lemma SaveKeepsOneHeader(fileExists: bool, lines: seq<Line>, events: seq<HailEvent>)
    requires WellFormed(fileExists, lines)
    ensures WellFormed(AfterSave(fileExists, lines, events).0, AfterSave(fileExists, lines, events).1)
    ensures AfterSave(fileExists, lines, events).0 <==> fileExists || |events| > 0
    ensures Records(AfterSave(fileExists, lines, events).1) == Records(lines) + events
    ensures lines <= AfterSave(fileExists, lines, events).1
  {
    RowsCounts(events);
    if |events| > 0 {
      if fileExists {
        CountsOfConcat(lines, RowsOf(events));
      } else {
        CountsOfConcat([Header(Columns)], RowsOf(events));
        assert Records([Header(Columns)]) == [] by {
          assert [Header(Columns)][..0] == [];
        }
      }
    }
  }

  /** A first save to a missing file gives one header line followed by the records. */
  lemma FirstSaveLayout(events: seq<HailEvent>)
    requires |events| > 0
    ensures var (e, ls) := AfterSave(false, [], events);
      e && |ls| == |events| + 1 && ls[0] == Header(Columns)
      && forall k :: 0 <= k < |events| ==> ls[k + 1] == Row(events[k])
  {
  }

  class Store {
    var fileExists: bool
    var lines: seq<Line>

    ghost predicate Valid()
      reads this
    {
      WellFormed(fileExists, lines)
    }

    /** No file yet. */
    constructor Absent()
      ensures Valid() && !fileExists && lines == []
    {
      fileExists := false;
      lines := [];
    }

    /** Lines 87-92: write only when there are events; header plus rows into a new file,
        rows alone appended to an existing one. */
    method Save(events: seq<HailEvent>)
      requires Valid()
      modifies this
      ensures Valid()
      ensures (fileExists, lines) == AfterSave(old(fileExists), old(lines), events)
      ensures Records(lines) == Records(old(lines)) + events
      ensures old(lines) <= lines
    {
      SaveKeepsOneHeader(fileExists, lines, events);
      if |events| > 0 {
        var rows := RowsOf(events);
        if fileExists {
          lines := lines + rows;
        } else {
          fileExists := true;
          lines := [Header(Columns)] + rows;
        }
      }
    }
  }
}

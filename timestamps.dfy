/** Text built from times: the radar image timestamp (events.py line 44) and the
    default product id, the quarter hour before "now minus 12 minutes" (lines 9-22). */
module Timestamps {

  datatype Option<T> = None | Some(value: T)

  // ---------------------------------------------------------------- radar timestamp

  /** Python's s[a:b] for 0 <= a <= b: both bounds are clamped to the length. */
  function Slice(s: string, a: nat, b: nat): (r: string)
    requires a <= b
    ensures |r| == (if b <= |s| then b - a else if a <= |s| then |s| - a else 0)
    ensures forall k :: 0 <= k < |r| ==> r[k] == s[a + k]
  {
    if b <= |s| then s[a..b] else if a <= |s| then s[a..] else []
  }

  function Min(a: int, b: int): int {
    if a <= b then a else b
  }

  /** f"{startdate} {starttime[:2]}:{starttime[2:4]}:{starttime[4:6]}": the date, a space,
      then the first six characters of the time with ':' after the second and the fourth.
      Character k of the time lands at offset 1 + k + k/2 after the date. */
  function RadarTimestamp(startdate: string, starttime: string): (r: string)
    ensures |r| == |startdate| + 3 + Min(|starttime|, 6)
    ensures r[..|startdate|] == startdate && r[|startdate|] == ' '
    ensures r[|startdate| + 1 + Min(|starttime|, 2)] == ':'
    ensures r[|startdate| + 2 + Min(|starttime|, 4)] == ':'
    ensures forall k :: 0 <= k < Min(|starttime|, 6) ==> r[|startdate| + 1 + k + k / 2] == starttime[k]
  {
    var hh, mm, ss := Slice(starttime, 0, 2), Slice(starttime, 2, 4), Slice(starttime, 4, 6);
    var r := startdate + " " + hh + ":" + mm + ":" + ss;
    assert r == startdate + [' '] + hh + [':'] + mm + [':'] + ss;
    r
  }

  /** A starttime written "HHMMSS" gives "HH:MM:SS" after the date and the space. */
  lemma RadarTimestampExample()
    ensures RadarTimestamp("20240115", "143005") == "20240115 14:30:05"
  {
  }

  // ---------------------------------------------------------------- calendar

  /** A naive datetime as Python's datetime holds it. */
  datatype DateTime = DateTime(year: int, month: int, day: int, hour: int, minute: int,
                               second: int, microsecond: int)

  predicate IsLeapYear(y: int) {
    y % 4 == 0 && (y % 100 != 0 || y % 400 == 0)
  }

  function DaysInYear(y: int): int {
    if IsLeapYear(y) then 366 else 365
  }

  function DaysInMonth(y: int, m: int): int
    requires 1 <= m <= 12
  {
    if m == 2 then (if IsLeapYear(y) then 29 else 28)
    else if m == 4 || m == 6 || m == 9 || m == 11 then 30
    else 31
  }

  /** The range datetime accepts: years 1 to 9999 and in-range fields. */
  predicate ValidDateTime(t: DateTime) {
    && 1 <= t.year <= 9999 && 1 <= t.month <= 12 && 1 <= t.day <= DaysInMonth(t.year, t.month)
    && 0 <= t.hour < 24 && 0 <= t.minute < 60 && 0 <= t.second < 60
    && 0 <= t.microsecond < 1000000
  }

  /** Days before 1 January of year y, counted from 1 January of year 1. */
  function DaysBeforeYear(y: int): int
    requires y >= 1
  {
    var p := y - 1;
    p * 365 + p / 4 - p / 100 + p / 400
  }

  /** Days in year y before the first of month m. */
  function DaysBeforeMonth(y: int, m: int): int
    requires 1 <= m <= 12
  {
    var common :=
      if m <= 6 then
        (if m == 1 then 0 else if m == 2 then 31 else if m == 3 then 59
         else if m == 4 then 90 else if m == 5 then 120 else 151)
      else
        (if m == 7 then 181 else if m == 8 then 212 else if m == 9 then 243
         else if m == 10 then 273 else if m == 11 then 304 else 334);
    common + (if m > 2 && IsLeapYear(y) then 1 else 0)
  }

  /** The proleptic Gregorian ordinal: 1 January of year 1 is day 1. */
  function Ordinal(t: DateTime): int
    requires 1 <= t.year && 1 <= t.month <= 12
  {
    DayNumber(t.year, t.month, t.day)
  }

  /** The ordinal depends on the date alone. */
  function DayNumber(year: int, month: int, day: int): int
    requires 1 <= year && 1 <= month <= 12
  {
    DaysBeforeYear(year) + DaysBeforeMonth(year, month) + day
  }

  /** Whole minutes since midnight before day 0; seconds and microseconds apart. */
  function Minutes(t: DateTime): int
    requires 1 <= t.year && 1 <= t.month <= 12
  {
    (Ordinal(t) * 24 + t.hour) * 60 + t.minute
  }

  /** The instant in microseconds on the same scale. */
  function Micros(t: DateTime): int
    requires 1 <= t.year && 1 <= t.month <= 12
  {
    (Minutes(t) * 60 + t.second) * 1000000 + t.microsecond
  }

  /** datetime.min, 0001-01-01 00:00. */
  const Earliest: DateTime := DateTime(1, 1, 1, 0, 0, 0, 0)

  lemma {:induction false} YearLength(y: int)
    requires y >= 1
    ensures DaysBeforeYear(y + 1) == DaysBeforeYear(y) + DaysInYear(y)
  {
    var p := y - 1;
    NextQuarter(p);
    NextCentury(p);
    NextQuadCentury(p);
    Divisibility(y);
  }

  lemma Divisibility(y: int)
    ensures y % 400 == 0 ==> y % 100 == 0
    ensures y % 100 == 0 ==> y % 4 == 0
  {
    if y % 400 == 0 {
      var k := 4 * (y / 400);
      assert y == 100 * k;
      HundredsMod(k);
    }
    if y % 100 == 0 {
      var k := 25 * (y / 100);
      assert y == 4 * k;
      FoursMod(k);
    }
  }

  lemma HundredsMod(k: int)
    ensures (100 * k) % 100 == 0
  {
  }

  lemma FoursMod(k: int)
    ensures (4 * k) % 4 == 0
  {
  }

  // The quotient by 4, 100 or 400 grows by one exactly at a multiple.

  lemma NextQuarter(p: int)
    requires p >= 0
    ensures (p + 1) / 4 == p / 4 + (if (p + 1) % 4 == 0 then 1 else 0)
  {
  }

  lemma NextCentury(p: int)
    requires p >= 0
    ensures (p + 1) / 100 == p / 100 + (if (p + 1) % 100 == 0 then 1 else 0)
  {
  }

  lemma NextQuadCentury(p: int)
    requires p >= 0
    ensures (p + 1) / 400 == p / 400 + (if (p + 1) % 400 == 0 then 1 else 0)
  {
  }

  lemma MonthLength(y: int, m: int)
    requires 1 <= m < 12
    ensures DaysBeforeMonth(y, m + 1) == DaysBeforeMonth(y, m) + DaysInMonth(y, m)
  {
  }

  lemma OrdinalBounds(t: DateTime)
    requires ValidDateTime(t)
    ensures Ordinal(t) >= 1
    ensures t.year > 1 ==> Ordinal(t) > 365
    ensures t.month > 1 ==> Ordinal(t) > DaysBeforeYear(t.year) + 1
  {
    var p := t.year - 1;
    assert p / 4 - p / 100 + p / 400 >= 0;
  }

  /** The same time of day on the previous calendar day, borrowing from the month and
      the year; None on 1 January of year 1. */
  function PrevDay(t: DateTime): (r: Option<DateTime>)
    requires ValidDateTime(t)
    ensures r.None? <==> t.year == 1 && t.month == 1 && t.day == 1
    ensures r.Some? ==> ValidDateTime(r.value)
    ensures r.Some? ==>
      r.value.hour == t.hour && r.value.minute == t.minute
      && r.value.second == t.second && r.value.microsecond == t.microsecond
  {
    if t.day > 1 then Some(t.(day := t.day - 1))
    else if t.month > 1 then Some(t.(month := t.month - 1, day := DaysInMonth(t.year, t.month - 1)))
    else if t.year > 1 then Some(t.(year := t.year - 1, month := 12, day := 31))
    else None
  }

  /** The previous day is the previous ordinal. */
  lemma PrevDayOrdinal(t: DateTime)
    requires ValidDateTime(t) && PrevDay(t).Some?
    ensures Ordinal(PrevDay(t).value) == Ordinal(t) - 1
  {
    var r := PrevDay(t).value;
    if t.day == 1 && t.month > 1 {
      MonthBefore(t, r);
    } else if t.day == 1 {
      YearBefore(t, r);
    }
  }

  /** `t - timedelta(minutes=n)` for n below an hour: borrow from the hour, then from
      the day (PrevDay); below datetime.min the subtraction overflows (None).
      MinusMinutesShift states the arithmetic. */
  function MinusMinutes(t: DateTime, n: int): (r: Option<DateTime>)
    requires ValidDateTime(t) && 0 <= n < 60
    ensures r.None? <==> t.year == 1 && t.month == 1 && t.day == 1 && t.hour == 0 && t.minute < n
    ensures r.Some? ==> ValidDateTime(r.value)
    ensures r.Some? ==> r.value.second == t.second && r.value.microsecond == t.microsecond
  {
    if t.minute >= n then Some(t.(minute := t.minute - n))
    else
      var m := t.minute + 60 - n;
      if t.hour > 0 then Some(t.(hour := t.hour - 1, minute := m))
      else
        match PrevDay(t)
        case None => None
        case Some(d) => Some(d.(hour := 23, minute := m))
  }

  /** MinusMinutes overflows exactly when n minutes earlier is before datetime.min. */
  lemma MinusMinutesDefined(t: DateTime, n: int)
    requires ValidDateTime(t) && 0 <= n < 60
    ensures MinusMinutes(t, n).None? <==> Minutes(t) - n < Minutes(Earliest)
  {
    if MinusMinutes(t, n).Some? {
      BorrowShift(t, n);
    } else {
      EarliestDay(t, n);
    }
  }

  /** The result of MinusMinutes is exactly n minutes earlier, on the minute scale and
      on the microsecond scale. */
  lemma MinusMinutesShift(t: DateTime, n: int)
    requires ValidDateTime(t) && 0 <= n < 60 && MinusMinutes(t, n).Some?
    ensures Minutes(MinusMinutes(t, n).value) == Minutes(t) - n
    ensures Micros(MinusMinutes(t, n).value) == Micros(t) - n * 60000000
  {
    BorrowShift(t, n);
    ShiftedInstant(t, MinusMinutes(t, n).value, n);
  }

  lemma BorrowShift(t: DateTime, n: int)
    requires ValidDateTime(t) && 0 <= n < 60 && MinusMinutes(t, n).Some?
    ensures Minutes(MinusMinutes(t, n).value) == Minutes(t) - n
    ensures Minutes(t) - n >= Minutes(Earliest)
  {
    if t.minute >= n || t.hour > 0 {
      BorrowHour(t, n);
    } else {
      BorrowDay(t, n);
    }
  }

  lemma BorrowHour(t: DateTime, n: int)
    requires ValidDateTime(t) && 0 <= n < 60 && (t.minute >= n || t.hour > 0)
    ensures MinusMinutes(t, n).Some?
    ensures Minutes(MinusMinutes(t, n).value) == Minutes(t) - n
    ensures Minutes(t) - n >= Minutes(Earliest)
  {
    var r := MinusMinutes(t, n).value;
    assert r.year == t.year && r.month == t.month && r.day == t.day;
    assert r.hour * 60 + r.minute == t.hour * 60 + t.minute - n;
    SameDayShift(t, r, n);
  }

  lemma SameDayShift(t: DateTime, r: DateTime, n: int)
    requires ValidDateTime(t) && ValidDateTime(r)
    requires r.year == t.year && r.month == t.month && r.day == t.day
    requires r.hour * 60 + r.minute == t.hour * 60 + t.minute - n
    ensures Minutes(r) == Minutes(t) - n
    ensures Minutes(t) - n >= Minutes(Earliest)
  {
    SameDay(t, r);
  }

  lemma BorrowDay(t: DateTime, n: int)
    requires ValidDateTime(t) && 0 <= n < 60 && t.minute < n && t.hour == 0 && PrevDay(t).Some?
    ensures MinusMinutes(t, n).Some?
    ensures Minutes(MinusMinutes(t, n).value) == Minutes(t) - n
    ensures Minutes(t) - n >= Minutes(Earliest)
  {
    var r := MinusMinutes(t, n).value;
    PrevDayOrdinal(t);
    assert r == PrevDay(t).value.(hour := 23, minute := t.minute + 60 - n);
    DayBefore(t, r);
  }

  /** The last day of the previous month is the ordinal before the first of a month. */
  lemma MonthBefore(t: DateTime, r: DateTime)
    requires ValidDateTime(t) && t.month > 1 && t.day == 1
    requires r.year == t.year && r.month == t.month - 1 && r.day == DaysInMonth(t.year, t.month - 1)
    ensures Ordinal(r) == Ordinal(t) - 1
  {
    MonthLength(t.year, t.month - 1);
  }

  /** 31 December of the previous year is the ordinal before 1 January. */
  lemma YearBefore(t: DateTime, r: DateTime)
    requires ValidDateTime(t) && t.year > 1 && t.month == 1 && t.day == 1
    requires r.year == t.year - 1 && r.month == 12 && r.day == 31
    ensures Ordinal(r) == Ordinal(t) - 1
  {
    YearLength(t.year - 1);
  }

  lemma ShiftedInstant(t: DateTime, r: DateTime, n: int)
    requires ValidDateTime(t) && ValidDateTime(r)
    requires Minutes(r) == Minutes(t) - n && r.second == t.second && r.microsecond == t.microsecond
    ensures Micros(r) == Micros(t) - n * 60000000
  {
    Rescale(Minutes(r), Minutes(t), n, t.second, t.microsecond);
  }

  lemma Rescale(a: int, b: int, n: int, s: int, us: int)
    requires a == b - n
    ensures (a * 60 + s) * 1000000 + us == (b * 60 + s) * 1000000 + us - n * 60000000
  {
  }

  lemma SameDay(t: DateTime, r: DateTime)
    requires ValidDateTime(t) && ValidDateTime(r)
    requires r.year == t.year && r.month == t.month && r.day == t.day
    ensures Minutes(r) - Minutes(t) == (r.hour - t.hour) * 60 + r.minute - t.minute
    ensures Minutes(r) >= Minutes(Earliest) + r.hour * 60 + r.minute
  {
    OrdinalBounds(t);
  }

  lemma DayBefore(t: DateTime, r: DateTime)
    requires ValidDateTime(t) && ValidDateTime(r)
    requires Ordinal(r) == Ordinal(t) - 1 && r.hour == 23 && t.hour == 0
    ensures Minutes(r) - Minutes(t) == r.minute - t.minute - 60
    ensures Minutes(r) >= Minutes(Earliest)
  {
    OrdinalBounds(r);
  }

  lemma EarliestDay(t: DateTime, n: int)
    requires ValidDateTime(t) && t.year == 1 && t.month == 1 && t.day == 1 && t.hour == 0
    requires t.minute < n
    ensures Minutes(t) - n < Minutes(Earliest)
  {
  }

  /** Lines 11-15: subtract minute % 15 minutes and all seconds and microseconds, which
      lands on the quarter hour at or before t, within the same hour. */
  function RoundDownToQuarter(t: DateTime): (r: DateTime)
    requires ValidDateTime(t)
    ensures ValidDateTime(r)
    ensures r.minute in {0, 15, 30, 45} && r.second == 0 && r.microsecond == 0
    ensures r.year == t.year && r.month == t.month && r.day == t.day && r.hour == t.hour
    ensures r.minute <= t.minute < r.minute + 15
  {
    t.(minute := t.minute - t.minute % 15, second := 0, microsecond := 0)
  }

  /** The rounding is the subtraction of timedelta(minutes=minute % 15, seconds=second,
      microseconds=microsecond), and it moves back by less than 15 minutes. */
  lemma RoundDownShift(t: DateTime)
    requires ValidDateTime(t)
    ensures var r := RoundDownToQuarter(t);
      && Micros(r) == Micros(t) - ((t.minute % 15) * 60 + t.second) * 1000000 - t.microsecond
      && Micros(r) <= Micros(t) < Micros(r) + 15 * 60000000
  {
    SameDay(t, RoundDownToQuarter(t));
  }

  /** Rounding an already rounded time changes nothing. */
  lemma RoundDownIdempotent(t: DateTime)
    requires ValidDateTime(t)
    ensures RoundDownToQuarter(RoundDownToQuarter(t)) == RoundDownToQuarter(t)
  {
  }

  // ---------------------------------------------------------------- zero-padded digits

  predicate IsDigit(c: char) {
    '0' <= c <= '9'
  }

  predicate AllDigits(s: string) {
    forall k :: 0 <= k < |s| ==> IsDigit(s[k])
  }

  function DigitChar(d: int): (c: char)
    requires 0 <= d < 10
    ensures IsDigit(c) && c as int - '0' as int == d
  {
    ('0' as int + d) as char
  }

  /** str(n) for n >= 0: its decimal digits without leading zeros. */
  function Decimal(n: nat): (s: string)
    ensures |s| >= 1 && AllDigits(s)
  {
    if n < 10 then [DigitChar(n)] else Decimal(n / 10) + [DigitChar(n % 10)]
  }

  function Zeros(k: nat): (s: string)
    ensures |s| == k && forall i :: 0 <= i < k ==> s[i] == '0'
  {
    seq(k, i => '0')
  }

  /** str.zfill(width) on a string without a sign: '0's in front up to the width. */
  function ZFill(s: string, width: nat): (r: string)
    ensures |r| == if |s| >= width then |s| else width
    ensures r[|r| - |s|..] == s
    ensures forall i :: 0 <= i < |r| - |s| ==> r[i] == '0'
  {
    if |s| >= width then s else Zeros(width - |s|) + s
  }

  /** The number a string of digits denotes, read most significant digit first. */
  function Value(s: string): int
  {
    if |s| == 0 then 0 else Value(s[..|s| - 1]) * 10 + (s[|s| - 1] as int - '0' as int)
  }

  function Pow10(k: nat): (p: nat)
    ensures p >= 1
  {
    if k == 0 then 1 else 10 * Pow10(k - 1)
  }

  /** str(n) reads back as n. */
  lemma {:induction false} ValueOfDecimal(n: nat)
    ensures Value(Decimal(n)) == n
  {
    if n >= 10 {
      var s := Decimal(n);
      assert s[..|s| - 1] == Decimal(n / 10);
      ValueOfDecimal(n / 10);
    }
  }

  /** str(n) has at most w digits when n < 10^w. */
  lemma {:induction false} DecimalLength(n: nat, w: nat)
    requires w >= 1 && n < Pow10(w)
    ensures |Decimal(n)| <= w
  {
    if n >= 10 {
      DecimalLength(n / 10, w - 1);
    }
  }

  /** Leading '0's do not change the number. */
  lemma {:induction false} ValueIgnoresLeadingZeros(k: nat, s: string)
    requires AllDigits(s)
    ensures AllDigits(Zeros(k) + s)
    ensures Value(Zeros(k) + s) == Value(s)
    decreases |s|, k
  {
    var z := Zeros(k) + s;
    if |s| > 0 {
      var n := |s| - 1;
      assert z[..|z| - 1] == Zeros(k) + s[..n];
      ValueIgnoresLeadingZeros(k, s[..n]);
    } else if k > 0 {
      assert z[..|z| - 1] == Zeros(k - 1) + s;
      ValueIgnoresLeadingZeros(k - 1, s);
    }
  }

  /** str(n).zfill(w), for n < 10^w, is exactly w digits that read back as n. */
  lemma ZFillDecimal(n: nat, w: nat)
    requires w >= 1 && n < Pow10(w)
    ensures |ZFill(Decimal(n), w)| == w && AllDigits(ZFill(Decimal(n), w))
    ensures Value(ZFill(Decimal(n), w)) == n
  {
    var s := Decimal(n);
    DecimalLength(n, w);
    ValueOfDecimal(n);
    ValueIgnoresLeadingZeros(w - |s|, s);
    assert ZFill(s, w) == Zeros(w - |s|) + s;
  }

  // ---------------------------------------------------------------- default product id

  /** The lag of line 10. */
  const Lag := 12

  /** Lines 17-22: zero-padded year, month, day, hour and minute, concatenated. */
  function IdOf(q: DateTime): string
    requires ValidDateTime(q)
  {
    ZFill(Decimal(q.year), 4) + ZFill(Decimal(q.month), 2) + ZFill(Decimal(q.day), 2)
      + ZFill(Decimal(q.hour), 2) + ZFill(Decimal(q.minute), 2)
  }

  /** The id of a valid time is 12 digits, YYYYMMDDHHMM, that read back as its fields. */
  lemma IdOfLayout(q: DateTime)
    requires ValidDateTime(q)
    ensures var id := IdOf(q);
      && |id| == 12 && AllDigits(id)
      && Value(id[..4]) == q.year && Value(id[4..6]) == q.month && Value(id[6..8]) == q.day
      && Value(id[8..10]) == q.hour && Value(id[10..]) == q.minute
  {
    assert Pow10(2) == 100 && Pow10(4) == 10000;
    var y, mo, d := ZFill(Decimal(q.year), 4), ZFill(Decimal(q.month), 2), ZFill(Decimal(q.day), 2);
    var h, mi := ZFill(Decimal(q.hour), 2), ZFill(Decimal(q.minute), 2);
    ZFillDecimal(q.year, 4);
    ZFillDecimal(q.month, 2);
    ZFillDecimal(q.day, 2);
    ZFillDecimal(q.hour, 2);
    ZFillDecimal(q.minute, 2);
    FieldsLayout(y, mo, d, h, mi);
    assert IdOf(q) == y + mo + d + h + mi;
  }

  lemma FieldsLayout(y: string, mo: string, d: string, h: string, mi: string)
    requires |y| == 4 && |mo| == 2 && |d| == 2 && |h| == 2 && |mi| == 2
    requires AllDigits(y) && AllDigits(mo) && AllDigits(d) && AllDigits(h) && AllDigits(mi)
    ensures var id := y + mo + d + h + mi;
      && |id| == 12 && AllDigits(id)
      && id[..4] == y && id[4..6] == mo && id[6..8] == d && id[8..10] == h && id[10..] == mi
  {
    var id := y + mo + d + h + mi;
    assert id[..4] == y;
    assert id[4..6] == mo;
    assert id[6..8] == d;
    assert id[8..10] == h;
    assert id[10..] == mi;
    forall k | 0 <= k < 12 ensures IsDigit(id[k]) {
      if k < 4 { assert id[k] == y[k]; }
      else if k < 6 { assert id[k] == mo[k - 4]; }
      else if k < 8 { assert id[k] == d[k - 6]; }
      else if k < 10 { assert id[k] == h[k - 8]; }
      else { assert id[k] == mi[k - 10]; }
    }
  }

  /** Lines 10-22 with `now` supplied: the quarter hour at or before now - 12 minutes,
      as its id; None where datetime overflows. */
  function DefaultId(now: DateTime): Option<string>
    requires ValidDateTime(now)
  {
    match MinusMinutes(now, Lag)
    case None => None
    case Some(t) => Some(IdOf(RoundDownToQuarter(t)))
  }

  /** The default id is missing only when now - 12 minutes is before datetime.min. */
  lemma DefaultIdDefined(now: DateTime)
    requires ValidDateTime(now)
    ensures DefaultId(now).None? <==> Minutes(now) - Lag < Minutes(Earliest)
  {
    MinusMinutesDefined(now, Lag);
  }

  /** The default id is 12 digits, YYYYMMDDHHMM, that read back as the fields of the
      quarter hour at or before now - 12 minutes. */
  lemma DefaultIdLayout(now: DateTime)
    requires ValidDateTime(now) && DefaultId(now).Some?
    ensures MinusMinutes(now, Lag).Some?
    ensures var q := RoundDownToQuarter(MinusMinutes(now, Lag).value);
      var id := DefaultId(now).value;
      && |id| == 12 && AllDigits(id)
      && Value(id[..4]) == q.year && Value(id[4..6]) == q.month && Value(id[6..8]) == q.day
      && Value(id[8..10]) == q.hour && Value(id[10..]) == q.minute
  {
    var q := RoundDownToQuarter(MinusMinutes(now, Lag).value);
    assert DefaultId(now) == Some(IdOf(q));
    IdOfLayout(q);
  }

  /** The quarter hour the default id names lies within 15 minutes at or before
      now - 12 minutes. */
  lemma DefaultIdTime(now: DateTime)
    requires ValidDateTime(now) && MinusMinutes(now, Lag).Some?
    ensures var q := RoundDownToQuarter(MinusMinutes(now, Lag).value);
      Micros(q) <= Micros(now) - Lag * 60000000 < Micros(q) + 15 * 60000000
  {
    MinusMinutesShift(now, Lag);
    RoundDownShift(MinusMinutes(now, Lag).value);
  }

  /** Lines 24-28: a command-line argument, when given, replaces the default id; the
      default is computed first, so an overflow there fails the run either way. */
  function ResolveProductId(arg: Option<string>, now: DateTime): (r: Option<string>)
    requires ValidDateTime(now)
    ensures r.None? <==> DefaultId(now).None?
    ensures r.Some? && arg.Some? ==> r.value == arg.value
    ensures arg.None? ==> r == DefaultId(now)
  {
    match DefaultId(now)
    case None => None
    case Some(dat) => if arg.Some? then Some(arg.value) else Some(dat)
  }
}

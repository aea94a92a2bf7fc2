/** date_converter.py `convert_to_date` and table.py `sort_by_date`: a local
    date-time `YYYY-MM-DDTHH:MM:SS` shifted by the `±HHMM` offset written after
    it, read by position. Dates are proleptic Gregorian, years 1 to 9999, as in
    Python's `datetime`; leaving that range raises OverflowError.
 */
module Dates {
  import opened Results
  import opened Text
  import opened Numbers

  datatype Date = Date(year: int, month: int, day: int)
  datatype DateTime = DateTime(date: Date, hour: int, minute: int, second: int)

  predicate IsLeap(y: int) {
    y % 4 == 0 && (y % 100 != 0 || y % 400 == 0)
  }

  function DaysInYear(y: int): int {
    if IsLeap(y) then 366 else 365
  }

  function DaysInMonth(y: int, m: int): int {
    if m == 2 then (if IsLeap(y) then 29 else 28)
    else if m == 4 || m == 6 || m == 9 || m == 11 then 30
    else 31
  }

  /** A calendar date `datetime.date` accepts. */
  predicate ValidDate(d: Date) {
    1 <= d.year <= 9999 && 1 <= d.month <= 12 && 1 <= d.day <= DaysInMonth(d.year, d.month)
  }

  predicate ValidDateTime(t: DateTime) {
    ValidDate(t.date) && 0 <= t.hour < 24 && 0 <= t.minute < 60 && 0 <= t.second < 60
  }

  const MinDate := Date(1, 1, 1)
  const MaxDate := Date(9999, 12, 31)

  /** Days in the years before `y` (counted from year 1). */
  function DaysBeforeYear(y: int): int {
    var p := y - 1;
    p * 365 + p / 4 - p / 100 + p / 400
  }

  /** Days in the months of year `y` before month `m`. */
  function DaysBeforeMonth(y: int, m: int): int {
    var before :=
      if m <= 1 then 0 else if m == 2 then 31 else if m == 3 then 59
      else if m == 4 then 90 else if m == 5 then 120 else if m == 6 then 151
      else if m == 7 then 181 else if m == 8 then 212 else if m == 9 then 243
      else if m == 10 then 273 else if m == 11 then 304 else 334;
    if m > 2 && IsLeap(y) then before + 1 else before
  }

  /** `date.toordinal()`: 0001-01-01 is day 1. */
  function DayNumber(d: Date): int {
    DaysBeforeYear(d.year) + DaysBeforeMonth(d.year, d.month) + d.day
  }

  /** The ordinal of 9999-12-31. */
  const MaxOrdinal := 3652059

  lemma DivStep4(p: int)
    ensures (p + 1) / 4 == p / 4 + (if (p + 1) % 4 == 0 then 1 else 0)
  {
  }

  lemma DivStep100(p: int)
    ensures (p + 1) / 100 == p / 100 + (if (p + 1) % 100 == 0 then 1 else 0)
  {
  }

  lemma DivStep400(p: int)
    ensures (p + 1) / 400 == p / 400 + (if (p + 1) % 400 == 0 then 1 else 0)
  {
  }

  /** A year divisible by 400 is divisible by 100 and by 4, and one
      divisible by 100 is divisible by 4. */
  lemma LeapCount(y: int)
    ensures (if y % 4 == 0 then 1 else 0) - (if y % 100 == 0 then 1 else 0) + (if y % 400 == 0 then 1 else 0)
         == (if IsLeap(y) then 1 else 0)
  {
    if y % 400 == 0 {
      Div400(y);
    } else if y % 100 == 0 {
      Div100(y);
    }
  }

  lemma Div400(y: int)
    requires y % 400 == 0
    ensures y % 100 == 0 && y % 4 == 0
  {
  }

  lemma Div100(y: int)
    requires y % 100 == 0
    ensures y % 4 == 0
  {
  }

  lemma YearStep(y: int)
    requires y >= 1
    ensures DaysBeforeYear(y + 1) == DaysBeforeYear(y) + DaysInYear(y)
  {
    var p := y - 1;
    DivStep4(p);
    DivStep100(p);
    DivStep400(p);
    LeapCount(y);
    assert p + 1 == y;
    assert y * 365 == p * 365 + 365;
  }

  lemma MonthStep(y: int, m: int)
    requires 1 <= m < 12
    ensures DaysBeforeMonth(y, m + 1) == DaysBeforeMonth(y, m) + DaysInMonth(y, m)
  {
  }

  lemma YearEnd(y: int)
    ensures DaysBeforeMonth(y, 12) + DaysInMonth(y, 12) == DaysInYear(y)
  {
  }

  lemma DaysBeforeYearMonotone(a: int, b: int)
    requires 1 <= a <= b
    ensures DaysBeforeYear(a) + 365 * (b - a) <= DaysBeforeYear(b)
    decreases b - a
  {
    if a < b {
      DaysBeforeYearMonotone(a, b - 1);
      YearStep(b - 1);
    }
  }

  /** Every valid date has an ordinal in `1..MaxOrdinal`; only 0001-01-01 and
      9999-12-31 sit at the ends. */
  lemma OrdinalRange(d: Date)
    requires ValidDate(d)
    ensures 1 <= DayNumber(d) <= MaxOrdinal
    ensures DayNumber(d) == 1 ==> d == MinDate
    ensures DayNumber(d) == MaxOrdinal ==> d == MaxDate
    ensures d == MinDate ==> DayNumber(d) == 1
    ensures d == MaxDate ==> DayNumber(d) == MaxOrdinal
  {
    var y := d.year;
    assert DaysBeforeMonth(y, d.month) + d.day <= DaysInYear(y) by {
      if d.month < 12 {
        MonthStep(y, d.month);
        assert DaysBeforeMonth(y, d.month + 1) <= DaysBeforeMonth(y, 12);
      }
      YearEnd(y);
    }
    if y < 9999 {
      YearStep(y);
      DaysBeforeYearMonotone(y + 1, 9999);
    }
    if y > 1 {
      DaysBeforeYearMonotone(1, y);
    }
  }

  /** The day after `d`; after 9999-12-31 there is none. */
  function NextDay(d: Date): (r: Result<Date>)
    requires ValidDate(d)
    ensures r.Fail? <==> d == MaxDate
    ensures r.Fail? ==> r.error == OverflowError
    ensures r.Ok? ==> ValidDate(r.value) && DayNumber(r.value) == DayNumber(d) + 1
  {
    if d.day < DaysInMonth(d.year, d.month) then Ok(Date(d.year, d.month, d.day + 1))
    else if d.month < 12 then
      MonthStep(d.year, d.month);
      Ok(Date(d.year, d.month + 1, 1))
    else if d.year < 9999 then
      YearStep(d.year);
      YearEnd(d.year);
      Ok(Date(d.year + 1, 1, 1))
    else Fail(OverflowError)
  }

  /** The day before `d`; before 0001-01-01 there is none. */
  function PrevDay(d: Date): (r: Result<Date>)
    requires ValidDate(d)
    ensures r.Fail? <==> d == MinDate
    ensures r.Fail? ==> r.error == OverflowError
    ensures r.Ok? ==> ValidDate(r.value) && DayNumber(r.value) == DayNumber(d) - 1
  {
    if d.day > 1 then Ok(Date(d.year, d.month, d.day - 1))
    else if d.month > 1 then
      MonthStep(d.year, d.month - 1);
      Ok(Date(d.year, d.month - 1, DaysInMonth(d.year, d.month - 1)))
    else if d.year > 1 then
      YearStep(d.year - 1);
      YearEnd(d.year - 1);
      Ok(Date(d.year - 1, 12, 31))
    else Fail(OverflowError)
  }

  /** `d + timedelta(days=n)`, one day at a time: moves the ordinal by `n`
      (see `ShiftDaysRange` for when it succeeds). */
  function ShiftDays(d: Date, n: int): (r: Result<Date>)
    requires ValidDate(d)
    ensures r.Fail? ==> r.error == OverflowError
    ensures r.Ok? ==> ValidDate(r.value) && DayNumber(r.value) == DayNumber(d) + n
    decreases if n < 0 then -n else n
  {
    if n == 0 then Ok(d)
    else if n > 0 then
      var next := NextDay(d);
      if next.Fail? then Fail(OverflowError) else ShiftDays(next.value, n - 1)
    else
      var prev := PrevDay(d);
      if prev.Fail? then Fail(OverflowError) else ShiftDays(prev.value, n + 1)
  }

  /** One day forward from a date before the last one. */
  lemma ForwardStep(d: Date, n: int)
    requires ValidDate(d) && n > 0 && d != MaxDate
    ensures NextDay(d).Ok? && ShiftDays(d, n) == ShiftDays(NextDay(d).value, n - 1)
    ensures DayNumber(NextDay(d).value) == DayNumber(d) + 1
  {
  }

  /** One day backward from a date after the first one. */
  lemma BackwardStep(d: Date, n: int)
    requires ValidDate(d) && n < 0 && d != MinDate
    ensures PrevDay(d).Ok? && ShiftDays(d, n) == ShiftDays(PrevDay(d).value, n + 1)
    ensures DayNumber(PrevDay(d).value) == DayNumber(d) - 1
  {
  }

  /** No day follows the last one. */
  lemma ForwardStop(n: int)
    requires n > 0
    ensures ShiftDays(MaxDate, n).Fail? && DayNumber(MaxDate) + n > MaxOrdinal
  {
    OrdinalRange(MaxDate);
  }

  /** No day precedes the first one. */
  lemma BackwardStop(n: int)
    requires n < 0
    ensures ShiftDays(MinDate, n).Fail? && DayNumber(MinDate) + n < 1
  {
    OrdinalRange(MinDate);
  }

  /** The induction step of `ShiftDaysForward`, on the ordinals alone. */
  lemma ForwardChain(here: bool, there: bool, o: int, next: int, n: int)
    requires here == there && next == o + 1
    requires there <==> next + (n - 1) <= MaxOrdinal
    ensures here <==> o + n <= MaxOrdinal
  {
  }

  /** Shifting forward succeeds exactly when the target ordinal is at most
      `MaxOrdinal`. */
  lemma {:induction false} ShiftDaysForward(d: Date, n: nat)
    requires ValidDate(d)
    ensures ShiftDays(d, n).Ok? <==> DayNumber(d) + n <= MaxOrdinal
    decreases n, 1
  {
    if n == 0 {
      OrdinalRange(d);
    } else if d == MaxDate {
      ForwardStop(n);
    } else {
      ShiftDaysForwardStep(d, n);
    }
  }

  /** The induction step of `ShiftDaysForward`: one day, then the rest. */
  lemma {:induction false} ShiftDaysForwardStep(d: Date, n: nat)
    requires ValidDate(d) && n > 0 && d != MaxDate
    ensures ShiftDays(d, n).Ok? <==> DayNumber(d) + n <= MaxOrdinal
    decreases n, 0
  {
    var next := NextDay(d).value;
    ShiftDaysForward(next, n - 1);
    ForwardLink(d, n);
  }

  /** What `ShiftDaysForward` says one day later, it says today. */
  lemma ForwardLink(d: Date, n: int)
    requires ValidDate(d) && n > 0 && d != MaxDate
    requires ShiftDays(NextDay(d).value, n - 1).Ok? <==> DayNumber(NextDay(d).value) + (n - 1) <= MaxOrdinal
    ensures ShiftDays(d, n).Ok? <==> DayNumber(d) + n <= MaxOrdinal
  {
    ForwardStep(d, n);
    var next := NextDay(d).value;
    ForwardChain(ShiftDays(d, n).Ok?, ShiftDays(next, n - 1).Ok?, DayNumber(d), DayNumber(next), n);
  }

  /** Shifting backward succeeds exactly when the target ordinal is at least 1. */
  lemma {:induction false} ShiftDaysBackward(d: Date, n: nat)
    requires ValidDate(d)
    ensures ShiftDays(d, -(n as int)).Ok? <==> 1 <= DayNumber(d) - n
    decreases n, 1
  {
    if n == 0 {
      OrdinalRange(d);
    } else if d == MinDate {
      BackwardStop(-(n as int));
    } else {
      ShiftDaysBackwardStep(d, n);
    }
  }

  /** The induction step of `ShiftDaysBackward`: one day, then the rest. */
  lemma {:induction false} ShiftDaysBackwardStep(d: Date, n: nat)
    requires ValidDate(d) && n > 0 && d != MinDate
    ensures ShiftDays(d, -(n as int)).Ok? <==> 1 <= DayNumber(d) - n
    decreases n, 0
  {
    var prev := PrevDay(d).value;
    ShiftDaysBackward(prev, n - 1);
    BackwardLink(d, n);
  }

  /** What `ShiftDaysBackward` says one day earlier, it says today. */
  lemma BackwardLink(d: Date, n: nat)
    requires ValidDate(d) && n > 0 && d != MinDate
    requires ShiftDays(PrevDay(d).value, -((n - 1) as int)).Ok? <==> 1 <= DayNumber(PrevDay(d).value) - (n - 1)
    ensures ShiftDays(d, -(n as int)).Ok? <==> 1 <= DayNumber(d) - n
  {
    BackwardStep(d, -(n as int));
    assert -(n as int) + 1 == -((n - 1) as int);
  }

  /** Shifting succeeds exactly when the target ordinal is within
      `1..MaxOrdinal`, as Python's OverflowError check on the result. */
  lemma ShiftDaysRange(d: Date, n: int)
    requires ValidDate(d)
    ensures ShiftDays(d, n).Ok? <==> 1 <= DayNumber(d) + n <= MaxOrdinal
  {
    OrdinalRange(d);
    if n >= 0 {
      ShiftDaysForward(d, n);
    } else {
      ShiftDaysBackward(d, (-n) as nat);
    }
  }

  /** Minutes since the start of the ordinal calendar. */
  function MinuteStamp(t: DateTime): int {
    DayNumber(t.date) * 1440 + t.hour * 60 + t.minute
  }

  /** `t + timedelta(minutes=delta)`: the time of day wraps modulo a day and
      the whole days carry into the date. */
  function AddMinutes(t: DateTime, delta: int): (r: Result<DateTime>)
    requires ValidDateTime(t)
    ensures r.Fail? ==> r.error == OverflowError
    ensures r.Ok? ==> ValidDateTime(r.value) && r.value.second == t.second
    ensures r.Ok? ==> MinuteStamp(r.value) == MinuteStamp(t) + delta
  {
    var total := t.hour * 60 + t.minute + delta;
    var days := total / 1440;
    var rest := total % 1440;
    var d :- ShiftDays(t.date, days);
    Ok(DateTime(d, rest / 60, rest % 60, t.second))
  }

  /** Adding minutes succeeds exactly when the resulting day is in range. */
  lemma AddMinutesRange(t: DateTime, delta: int)
    requires ValidDateTime(t)
    ensures AddMinutes(t, delta).Ok?
        <==> 1 <= DayNumber(t.date) + (t.hour * 60 + t.minute + delta) / 1440 <= MaxOrdinal
  {
    ShiftDaysRange(t.date, (t.hour * 60 + t.minute + delta) / 1440);
  }

  // ---- reading the text ----------------------------------------------------

  /** Two-, four-digit fields and the fixed separators of `%Y-%m-%d %H:%M:%S`. */
  predicate LocalShape(s: string) {
    |s| == 19 && AllDigits(s[..4]) && s[4] == '-' && AllDigits(s[5..7]) && s[7] == '-' &&
    AllDigits(s[8..10]) && s[10] == ' ' && AllDigits(s[11..13]) && s[13] == ':' &&
    AllDigits(s[14..16]) && s[16] == ':' && AllDigits(s[17..19])
  }

  /** The fields of a text of that shape, read by position. */
  function LocalFields(s: string): DateTime
    requires LocalShape(s)
  {
    DateTime(Date(DigitsValue(s[..4]), DigitsValue(s[5..7]), DigitsValue(s[8..10])),
             DigitsValue(s[11..13]), DigitsValue(s[14..16]), DigitsValue(s[17..19]))
  }

  /** The zero-padded text `YYYY-MM-DD HH:MM:SS` of a date-time, the format
      `strptime` reads below. */
  function LocalText(t: DateTime): (r: string)
    requires ValidDateTime(t)
    ensures LocalShape(r)
  {
    var f := [Pad4(t.date.year), Pad2(t.date.month), Pad2(t.date.day), Pad2(t.hour), Pad2(t.minute), Pad2(t.second)];
    JoinedSlices(f);
    Joined(f)
  }

  /** The six fields of the local format with their separators. */
  function Joined(f: seq<string>): string
    requires |f| == 6
  {
    f[0] + "-" + f[1] + "-" + f[2] + " " + f[3] + ":" + f[4] + ":" + f[5]
  }

  /** Where each field of a joined text lies. */
  lemma JoinedSlices(f: seq<string>)
    requires |f| == 6 && |f[0]| == 4 && forall i | 1 <= i < 6 :: |f[i]| == 2
    ensures var s := Joined(f);
      |s| == 19 && s[..4] == f[0] && s[4] == '-' && s[5..7] == f[1] && s[7] == '-' &&
      s[8..10] == f[2] && s[10] == ' ' && s[11..13] == f[3] && s[13] == ':' &&
      s[14..16] == f[4] && s[16] == ':' && s[17..19] == f[5]
    ensures (forall i | 0 <= i < 6 :: AllDigits(f[i])) ==> LocalShape(Joined(f))
  {
    var s := Joined(f);
    var tail := f[3] + ":" + f[4] + ":" + f[5];
    assert s == (f[0] + "-" + f[1] + "-" + f[2] + " ") + tail;
    assert tail[..2] == f[3] && tail[2] == ':' && tail[3..5] == f[4] && tail[5] == ':' && tail[6..] == f[5];
  }

  /** `strptime(s, "%Y-%m-%d %H:%M:%S")` on zero-padded fields: ValueError for
      another shape or an impossible date or time. What it reads is the
      date-time whose text is `s`. */
  function ParseLocal(s: string): (r: Result<DateTime>)
    ensures r.Ok? <==> LocalShape(s) && ValidDateTime(LocalFields(s))
    ensures r.Ok? ==> ValidDateTime(r.value) && LocalText(r.value) == s
    ensures r.Fail? ==> r.error == ValueError
  {
    if !LocalShape(s) then Fail(ValueError)
    else
      var t := LocalFields(s);
      if ValidDateTime(t) then
        LocalTextOfFields(s);
        Ok(t)
      else Fail(ValueError)
  }

  /** The text of the fields read from a text of the shape is that text. */
  lemma LocalTextOfFields(s: string)
    requires LocalShape(s) && ValidDateTime(LocalFields(s))
    ensures LocalText(LocalFields(s)) == s
  {
    Pad4OfDigits(s[..4]);
    Pad2OfDigits(s[5..7]);
    Pad2OfDigits(s[8..10]);
    Pad2OfDigits(s[11..13]);
    Pad2OfDigits(s[14..16]);
    Pad2OfDigits(s[17..19]);
    var f := [s[..4], s[5..7], s[8..10], s[11..13], s[14..16], s[17..19]];
    JoinedSlices(f);
    var j := Joined(f);
    assert forall i | 0 <= i < 19 :: j[i] == s[i] by {
      forall i | 0 <= i < 19 ensures j[i] == s[i] {
        if i < 4 { assert j[i] == j[..4][i]; }
        else if 5 <= i < 7 { assert j[i] == j[5..7][i - 5]; }
        else if 8 <= i < 10 { assert j[i] == j[8..10][i - 8]; }
        else if 11 <= i < 13 { assert j[i] == j[11..13][i - 11]; }
        else if 14 <= i < 16 { assert j[i] == j[14..16][i - 14]; }
        else if 17 <= i { assert j[i] == j[17..19][i - 17]; }
      }
    }
  }

  /** Every valid date-time is read back from its text. */
  lemma ParseLocalOfLocalText(t: DateTime)
    requires ValidDateTime(t)
    ensures ParseLocal(LocalText(t)) == Ok(t)
  {
    var f := [Pad4(t.date.year), Pad2(t.date.month), Pad2(t.date.day), Pad2(t.hour), Pad2(t.minute), Pad2(t.second)];
    JoinedSlices(f);
    assert LocalText(t) == Joined(f);
    Pad4Value(t.date.year);
    Pad2Value(t.date.month);
    Pad2Value(t.date.day);
    Pad2Value(t.hour);
    Pad2Value(t.minute);
    Pad2Value(t.second);
    assert LocalFields(LocalText(t)) == t;
  }

  /** The timestamp shape the vacancy files use: `YYYY-MM-DDTHH:MM:SS±HHMM`. */
  predicate IsoShape(s: string) {
    |s| == 24 && AllDigits(s[..4]) && s[4] == '-' && AllDigits(s[5..7]) && s[7] == '-' &&
    AllDigits(s[8..10]) && s[10] == 'T' && AllDigits(s[11..13]) && s[13] == ':' &&
    AllDigits(s[14..16]) && s[16] == ':' && AllDigits(s[17..19]) &&
    (s[19] == '+' || s[19] == '-') && AllDigits(s[20..22]) && AllDigits(s[22..24])
  }

  /** The local part of the file shape, with `'T'` read as a space. */
  function LocalPart(s: string): (r: string)
    requires IsoShape(s)
    ensures LocalShape(r)
    ensures r[..4] == s[..4] && r[5..7] == s[5..7] && r[8..10] == s[8..10]
    ensures r[11..13] == s[11..13] && r[14..16] == s[14..16] && r[17..19] == s[17..19]
  {
    var r := s[..10] + " " + s[11..19];
    assert |r| == 19 && r[10] == ' ';
    assert forall i | 0 <= i < 10 :: r[i] == s[i];
    assert forall i | 11 <= i < 19 :: r[i] == s[11..19][i - 11] == s[i];
    assert r[..4] == s[..4] && r[5..7] == s[5..7] && r[8..10] == s[8..10];
    assert r[11..13] == s[11..13];
    assert r[14..16] == s[14..16];
    assert r[17..19] == s[17..19];
    r
  }

  /** `dateutil.parser.parse(s, ignoretz=True)` on that shape: the local part,
      with the zone dropped. */
  function ParseIgnoringZone(s: string): (r: Result<DateTime>)
    ensures r.Ok? ==> ValidDateTime(r.value)
    ensures r.Fail? ==> r.error == ValueError
    ensures !IsoShape(s) ==> r == Fail(ValueError)
    ensures r.Ok? ==> IsoShape(s) && LocalText(r.value) == LocalPart(s)
  {
    if IsoShape(s) then ParseLocal(LocalPart(s)) else Fail(ValueError)
  }

  /** A timestamp whose local part is the text of a valid date-time is read
      as that date-time, whatever its zone. */
  lemma ParseIgnoringZoneReads(s: string, t: DateTime)
    requires IsoShape(s) && ValidDateTime(t) && LocalPart(s) == LocalText(t)
    ensures ParseIgnoringZone(s) == Ok(t)
  {
    ParseLocalOfLocalText(t);
  }

  /** What the source reads by position: the part before `'T'`, the part
      after it, and the signed offset in minutes. */
  datatype Stamp = Stamp(datePart: string, time: string, offset: int)

  /** `parts = s.split('T'); time = parts[1]; operation = time[8]`, then
      `int(time[9:11])` hours and `int(time[11:])` minutes; `'+'` adds, any
      other sign subtracts. */
  function ReadOffset(s: string): (r: Result<Stamp>)
    ensures r.Fail? ==> r.error == IndexError || r.error == ValueError
    ensures r.Ok? ==> |SplitOn(s, "T")| >= 2 && r.value.datePart == SplitOn(s, "T")[0] &&
                      r.value.time == SplitOn(s, "T")[1] && |r.value.time| > 8
  {
    var parts := SplitOn(s, "T");
    if |parts| < 2 then Fail(IndexError)
    else
      var time := parts[1];
      if |time| <= 8 then Fail(IndexError)
      else
        var hours :- ParseInt(Slice(time, 9, 11));
        var minutes :- ParseInt(Drop(time, 11));
        var delta := hours * 60 + minutes;
        Ok(Stamp(parts[0], time, if time[8] == '+' then delta else -delta))
  }

  /** `convert_to_date`: parse first, then read the offset and shift. */
  function ConvertToDate(s: string): (r: Result<DateTime>)
    ensures !IsoShape(s) ==> r == Fail(ValueError)
    ensures r.Ok? ==> ValidDateTime(r.value) && ReadOffset(s).Ok? && ParseIgnoringZone(s).Ok?
    ensures r.Ok? && ReadOffset(s).Ok? && ParseIgnoringZone(s).Ok? ==>
      MinuteStamp(r.value) == MinuteStamp(ParseIgnoringZone(s).value) + ReadOffset(s).value.offset &&
      r.value.second == ParseIgnoringZone(s).value.second
  {
    var local :- ParseIgnoringZone(s);
    var stamp :- ReadOffset(s);
    AddMinutes(local, stamp.offset)
  }

  /** `sort_by_date` (table.py): read the offset first, then
      `strptime(f"{parts[0]} {time[0:8]}", ...)`, then shift. */
  function SortByDate(s: string): (r: Result<DateTime>)
    ensures r.Ok? ==> ValidDateTime(r.value) && ReadOffset(s).Ok?
  {
    var stamp :- ReadOffset(s);
    var local :- ParseLocal(stamp.datePart + " " + Prefix(stamp.time, 8));
    AddMinutes(local, stamp.offset)
  }

  /** On the file shape the only `'T'` is the separator at index 10. */
  lemma IsoShapeSplit(s: string)
    requires IsoShape(s)
    ensures SplitOn(s, "T") == [s[..10], s[11..]]
  {
    forall i | 0 <= i < 24 && i != 10 ensures s[i] != 'T' {
      if i < 4 { assert s[i] == s[..4][i]; }
      else if i == 4 || i == 7 || i == 13 || i == 16 || i == 19 { }
      else if i < 7 { assert s[i] == s[5..7][i - 5]; }
      else if i < 10 { assert s[i] == s[8..10][i - 8]; }
      else if i < 13 { assert s[i] == s[11..13][i - 11]; }
      else if i < 16 { assert s[i] == s[14..16][i - 14]; }
      else if i < 19 { assert s[i] == s[17..19][i - 17]; }
      else if i < 22 { assert s[i] == s[20..22][i - 20]; }
      else { assert s[i] == s[22..24][i - 22]; }
    }
    assert 'T' !in s[..10] by {
      forall i | 0 <= i < 10 ensures s[..10][i] != 'T' { assert s[..10][i] == s[i]; }
    }
    assert 'T' !in s[11..] by {
      forall i | 0 <= i < 13 ensures s[11..][i] != 'T' { assert s[11..][i] == s[i + 11]; }
    }
    assert s == s[..10] + ['T'] + s[11..];
    SplitAtSep(s[..10], s[11..], 'T');
    SplitNoSep(s[11..], 'T');
  }

  /** On the file shape the offset is `±(HH * 60 + MM)` from the last four digits. */
  lemma ReadOffsetOfShape(s: string)
    requires IsoShape(s)
    ensures ReadOffset(s).Ok?
    ensures ReadOffset(s).value.datePart == s[..10]
    ensures ReadOffset(s).value.time == s[11..]
    ensures var delta := DigitsValue(s[20..22]) * 60 + DigitsValue(s[22..24]);
            ReadOffset(s).value.offset == if s[19] == '+' then delta else -delta
  {
    IsoShapeSplit(s);
    var time := s[11..];
    assert Slice(time, 9, 11) == s[20..22];
    assert Drop(time, 11) == s[22..24];
    ParseIntOfDigits(s[20..22]);
    ParseIntOfDigits(s[22..24]);
  }

  /** The two readings agree on the file shape: `sort_by_date` and
      `convert_to_date` give the same date-time. */
  lemma SortByDateAgrees(s: string)
    requires IsoShape(s)
    ensures SortByDate(s) == ConvertToDate(s)
  {
    ReadOffsetOfShape(s);
    assert Prefix(s[11..], 8) == s[11..19];
    assert s[..10] + " " + s[11..19] == LocalPart(s);
  }

  /** The result is the local time moved by exactly `HH * 60 + MM` minutes,
      forward for `'+'` and backward otherwise, carrying across days, months
      and years; seconds are untouched. */
  lemma ConvertToDateShift(s: string)
    requires IsoShape(s) && ConvertToDate(s).Ok?
    ensures var delta := DigitsValue(s[20..22]) * 60 + DigitsValue(s[22..24]);
            var local := ParseLocal(LocalPart(s)).value;
            MinuteStamp(ConvertToDate(s).value)
              == MinuteStamp(local) + (if s[19] == '+' then delta else -delta)
  {
    ReadOffsetOfShape(s);
  }

  lemma ExampleShape(s: string)
    requires s == "2022-05-31T17:32:31+0300"
    ensures IsoShape(s)
  {
    ExampleDateDigits(s);
    ExampleTimeDigits(s);
  }

  lemma ExampleDateDigits(s: string)
    requires s == "2022-05-31T17:32:31+0300"
    ensures AllDigits(s[..4]) && AllDigits(s[5..7]) && AllDigits(s[8..10])
  {
    assert s[..4] == "2022";
    assert s[5..7] == "05" && s[8..10] == "31";
  }

  lemma ExampleTimeDigits(s: string)
    requires s == "2022-05-31T17:32:31+0300"
    ensures AllDigits(s[11..13]) && AllDigits(s[14..16]) && AllDigits(s[17..19])
    ensures AllDigits(s[20..22]) && AllDigits(s[22..24])
  {
    assert s[11..13] == "17" && s[14..16] == "32" && s[17..19] == "31";
    assert s[20..22] == "03" && s[22..24] == "00";
  }

  /** The test timestamp carries a +180 minute offset. */
  lemma ExampleOffset(s: string)
    requires s == "2022-05-31T17:32:31+0300"
    ensures ReadOffset(s).Ok? && ReadOffset(s).value.offset == 180
  {
    ExampleShape(s);
    ReadOffsetOfShape(s);
    DigitsValue2(s[20..22]);
    DigitsValue2(s[22..24]);
    assert s[20..22][0] == s[20] && s[20..22][1] == s[21];
    assert s[22..24][0] == s[22] && s[22..24][1] == s[23];
  }

  /** The date fields of the test timestamp. */
  lemma ExampleDateFields(s: string)
    requires s == "2022-05-31T17:32:31+0300"
    ensures DigitsValue(s[..4]) == 2022 && DigitsValue(s[5..7]) == 5 && DigitsValue(s[8..10]) == 31
  {
    ExampleShape(s);
    DigitsValue4(s[..4]);
    DigitsValue2(s[5..7]);
    DigitsValue2(s[8..10]);
    assert s[..4][0] == s[0] && s[..4][1] == s[1] && s[..4][2] == s[2] && s[..4][3] == s[3];
    assert s[5..7][0] == s[5] && s[5..7][1] == s[6];
    assert s[8..10][0] == s[8] && s[8..10][1] == s[9];
  }

  /** The time fields of the test timestamp. */
  lemma ExampleTimeFields(s: string)
    requires s == "2022-05-31T17:32:31+0300"
    ensures DigitsValue(s[11..13]) == 17 && DigitsValue(s[14..16]) == 32 && DigitsValue(s[17..19]) == 31
  {
    ExampleShape(s);
    DigitsValue2(s[11..13]);
    DigitsValue2(s[14..16]);
    DigitsValue2(s[17..19]);
    assert s[11..13][0] == s[11] && s[11..13][1] == s[12];
    assert s[14..16][0] == s[14] && s[14..16][1] == s[15];
    assert s[17..19][0] == s[17] && s[17..19][1] == s[18];
  }

  /** The test timestamp reads as 17:32:31 local time. */
  lemma ExampleLocal(s: string)
    requires s == "2022-05-31T17:32:31+0300"
    ensures ParseIgnoringZone(s) == Ok(DateTime(Date(2022, 5, 31), 17, 32, 31))
  {
    ExampleShape(s);
    ExampleDateFields(s);
    ExampleTimeFields(s);
    var p := LocalPart(s);
    assert ValidDateTime(DateTime(Date(2022, 5, 31), 17, 32, 31));
  }

  /** The unit test: `'2022-05-31T17:32:31+0300'` is 2022-05-31 20:32:31. */
  lemma SortByDateExample(s: string)
    requires s == "2022-05-31T17:32:31+0300"
    ensures SortByDate(s) == Ok(DateTime(Date(2022, 5, 31), 20, 32, 31))
    ensures ConvertToDate(s) == SortByDate(s)
  {
    ExampleShape(s);
    ExampleOffset(s);
    ExampleLocal(s);
    ExampleShift();
    SortByDateAgrees(s);
  }

  /** 17:32 plus three hours stays on the same day. */
  lemma ExampleShift()
    ensures AddMinutes(DateTime(Date(2022, 5, 31), 17, 32, 31), 180) == Ok(DateTime(Date(2022, 5, 31), 20, 32, 31))
  {
    var local := DateTime(Date(2022, 5, 31), 17, 32, 31);
    assert ShiftDays(local.date, 0) == Ok(local.date);
    assert (17 * 60 + 32 + 180) / 1440 == 0 && (17 * 60 + 32 + 180) % 1440 == 1232;
  }
}

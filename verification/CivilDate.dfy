/** Dates from seconds since the Unix epoch (crates/memmux-bench/src/report.rs, `format_utc`), and
    the calendar they must follow: the month lengths of section 5.7 and the leap rule of
    Appendix C of RFC 3339. */
module CivilDate {
  import Radix

  datatype Date = Date(year: int, month: int, day: int)

  datatype Timestamp = Timestamp(date: Date, hour: int, minute: int, second: int)

  // ----- the calendar -----

  predicate IsLeap(year: int) {
    year % 4 == 0 && (year % 100 != 0 || year % 400 == 0)
  }

  function DaysInMonth(year: int, month: int): int {
    if month == 2 then (if IsLeap(year) then 29 else 28)
    else if month == 4 || month == 6 || month == 9 || month == 11 then 30
    else 31
  }

  function NextDay(d: Date): Date {
    if d.day < DaysInMonth(d.year, d.month) then d.(day := d.day + 1)
    else if d.month < 12 then Date(d.year, d.month + 1, 1)
    else Date(d.year + 1, 1, 1)
  }

  const EPOCH := Date(1970, 1, 1)

  /** The date `n` days after the epoch, one day at a time. */
  function DaysLater(n: nat): Date {
    if n == 0 then EPOCH else NextDay(DaysLater(n - 1))
  }

  // ----- the program's arithmetic -----

  /** Day of the 400-year era, counted from 1 March of a year divisible by 400. */
  function YearOfEra(doe: int): int {
    (doe - doe / 1460 + doe / 36524 - doe / 146096) / 365
  }

  function DayOfYear(doe: int): int {
    var yoe := YearOfEra(doe);
    doe - (365 * yoe + yoe / 4 - yoe / 100)
  }

  /** Month (3 to 14 for March to February) and day of a day of the March-based year. */
  function MonthOf(doy: int): int { (5 * doy + 2) / 153 }

  function CivilFromDays(days: nat): Date {
    var z := days + 719_468;
    var era := z / 146_097;
    var doe := z - era * 146_097;
    var y := YearOfEra(doe) + era * 400;
    var doy := DayOfYear(doe);
    var mp := MonthOf(doy);
    var d := doy - (153 * mp + 2) / 5 + 1;
    var m := if mp < 10 then mp + 3 else mp - 9;
    Date(if m <= 2 then y + 1 else y, m, d)
  }

  function FormatUtc(secs: nat): Timestamp {
    var days, rem := secs / 86_400, secs % 86_400;
    Timestamp(CivilFromDays(days), rem / 3600, rem % 3600 / 60, rem % 60)
  }

  // ----- a day count as era, century, quadrennium, year and day -----

  /** Day `t` of year `a` of the `q`th four years of century `c` of a 400-year era, the years
      running from March to February. */
  datatype Parts = Parts(era: int, c: int, q: int, a: int, t: int) {
    /** In the March-based count the leap day is the last of the year. */
    predicate HasLeapDay() { a == 3 && (q < 24 || c == 3) }

    function LastDay(): int { if HasLeapDay() then 365 else 364 }

    predicate Valid() { 0 <= c <= 3 && 0 <= q <= 24 && 0 <= a <= 3 && 0 <= t <= LastDay() }

    function Year(): int { 400 * era + 100 * c + 4 * q + a }

    function DayOfEra(): int { 36524 * c + 1461 * q + 365 * a + t }

    function Day(): int { 146_097 * era + DayOfEra() }

    function Next(): Parts {
      if t < LastDay() then this.(t := t + 1)
      else if a < 3 then this.(a := a + 1, t := 0)
      else if q < 24 then this.(q := q + 1, a := 0, t := 0)
      else if c < 3 then this.(c := c + 1, q := 0, a := 0, t := 0)
      else Parts(era + 1, 0, 0, 0, 0)
    }
  }

  lemma NextIsNext(p: Parts)
    requires p.Valid()
    ensures p.Next().Valid() && p.Next().Day() == p.Day() + 1
    ensures if p.t < p.LastDay() then p.Next().Year() == p.Year() && p.Next().t == p.t + 1
            else p.Next().Year() == p.Year() + 1 && p.Next().t == 0
  {
  }

  lemma SplitDay(day: int) returns (p: Parts)
    ensures p.Valid() && p.Day() == day
  {
    var era, doe := day / 146_097, day % 146_097;
    var c := if doe / 36524 > 3 then 3 else doe / 36524;
    var r := doe - 36524 * c;
    var q, s := r / 1461, r % 1461;
    var a := if s / 365 > 3 then 3 else s / 365;
    p := Parts(era, c, q, a, s - 365 * a);
  }

  lemma DayOfEraInRange(p: Parts)
    requires p.Valid()
    ensures 0 <= p.DayOfEra() < 146_097
  {
  }

  lemma LeapCorrections(p: Parts)
    requires p.Valid()
    ensures var low := 24 * p.c + p.q + 365 * p.a + p.t;
      p.DayOfEra() / 1460 == 25 * p.c + p.q + (if low >= 1460 then 1 else 0)
    ensures p.DayOfEra() / 36524 == p.c + (if p.q == 24 && p.a == 3 && p.t == 365 then 1 else 0)
    ensures p.DayOfEra() / 146096 == if p.c == 3 && p.q == 24 && p.a == 3 && p.t == 365 then 1 else 0
  {
  }

  /** The division chain of the program finds the year. */
  lemma YearOfEraIs(p: Parts)
    requires p.Valid()
    ensures YearOfEra(p.DayOfEra()) == 100 * p.c + 4 * p.q + p.a
  {
    LeapCorrections(p);
    var doe, year := p.DayOfEra(), 100 * p.c + 4 * p.q + p.a;
    var corrected := doe - doe / 1460 + doe / 36524 - doe / 146096;
    assert 0 <= corrected - 365 * year < 365;
    Radix.ModUnique(corrected, 365, year, corrected - 365 * year);
  }

  lemma DayOfYearIs(p: Parts)
    requires p.Valid()
    ensures DayOfYear(p.DayOfEra()) == p.t
  {
    YearOfEraIs(p);
    hide YearOfEra;
    var year := 100 * p.c + 4 * p.q + p.a;
    Radix.ModUnique(year, 4, 25 * p.c + p.q, p.a);
    Radix.ModUnique(year, 100, p.c, 4 * p.q + p.a);
  }

  // ----- one day later -----

  /** The date of day `doy` of the year that begins on 1 March of `y`. */
  function MarchDate(y: int, doy: int): Date {
    var mp := MonthOf(doy);
    var m := if mp < 10 then mp + 3 else mp - 9;
    Date(if m <= 2 then y + 1 else y, m, doy - (153 * mp + 2) / 5 + 1)
  }

  predicate LastOfMarchYear(y: int, doy: int) {
    doy == if IsLeap(y + 1) then 365 else 364
  }

  lemma MarchStep(y: int, doy: int)
    requires 0 <= doy <= 364 && !LastOfMarchYear(y, doy)
    ensures MarchDate(y, doy + 1) == NextDay(MarchDate(y, doy))
  {
    var mp := MonthOf(doy);
    assert 0 <= mp <= 11;
    assert mp in {0, 1, 2, 3, 4, 5, 6, 7, 8, 9, 10, 11};
  }

  lemma MarchRollover(y: int, doy: int)
    requires LastOfMarchYear(y, doy)
    ensures MarchDate(y + 1, 0) == NextDay(MarchDate(y, doy))
  {
  }

  lemma LeapDayIsLeap(p: Parts)
    requires p.Valid()
    ensures p.HasLeapDay() <==> IsLeap(p.Year() + 1)
  {
    var era, c, q, a := p.era, p.c, p.q, p.a;
    var y := p.Year() + 1;
    if a < 3 {
      Radix.ModUnique(y, 4, 100 * era + 25 * c + q, a + 1);
    } else {
      Radix.ModUnique(y, 4, 100 * era + 25 * c + q + 1, 0);
      if q < 24 {
        Radix.ModUnique(y, 100, 4 * era + c, 4 * (q + 1));
      } else {
        Radix.ModUnique(y, 100, 4 * era + c + 1, 0);
        if c < 3 { Radix.ModUnique(y, 400, era, 100 * (c + 1)); } else { Radix.ModUnique(y, 400, era + 1, 0); }
      }
    }
  }

  /** The date the program spells for the parts of a day count. */
  lemma SpellParts(days: nat, p: Parts)
    requires p.Valid() && p.Day() == days + 719_468
    ensures CivilFromDays(days) == MarchDate(p.Year(), p.t)
  {
    hide p.Valid, p.DayOfEra, YearOfEra, DayOfYear, MonthOf;
    DayOfEraInRange(p);
    Radix.ModUnique(days + 719_468, 146_097, p.era, p.DayOfEra());
    YearOfEraIs(p);
    DayOfYearIs(p);
  }

  /** The program's dates follow the calendar from each day to the next. */
  lemma OneDayLater(days: nat)
    ensures CivilFromDays(days + 1) == NextDay(CivilFromDays(days))
  {
    hide CivilFromDays, MarchDate, NextDay, IsLeap;
    var p := SplitDay(days + 719_468);
    LeapDayIsLeap(p);
    NextIsNext(p);
    SpellParts(days, p);
    SpellParts(days + 1, p.Next());
    if LastOfMarchYear(p.Year(), p.t) {
      MarchRollover(p.Year(), p.t);
    } else {
      MarchStep(p.Year(), p.t);
    }
  }

  /** For every day since the epoch the computed date is the calendar date. */
  lemma {:induction false} CivilIsGregorian(days: nat)
    ensures CivilFromDays(days) == DaysLater(days)
  {
    hide NextDay, CivilFromDays, YearOfEra, DayOfYear;
    if days == 0 {
      SpellParts(0, Parts(4, 3, 17, 1, 306));
    } else {
      CivilIsGregorian(days - 1);
      OneDayLater(days - 1);
    }
  }

  // ----- back to seconds -----

  predicate IsDate(d: Date) {
    1 <= d.month <= 12 && 1 <= d.day <= DaysInMonth(d.year, d.month)
  }

  function DaysBeforeYear(year: int): int
    requires year >= 1970
    decreases year
  {
    if year == 1970 then 0 else DaysBeforeYear(year - 1) + if IsLeap(year - 1) then 366 else 365
  }

  function DaysBeforeMonth(year: int, month: int): int
    requires 1 <= month <= 12
    decreases month
  {
    if month == 1 then 0 else DaysBeforeMonth(year, month - 1) + DaysInMonth(year, month - 1)
  }

  /** Days since the epoch, added up year by year and month by month. */
  function DayNumber(d: Date): int
    requires d.year >= 1970 && 1 <= d.month <= 12
  {
    DaysBeforeYear(d.year) + DaysBeforeMonth(d.year, d.month) + d.day - 1
  }

  lemma NextDayNumber(d: Date)
    requires d.year >= 1970 && IsDate(d)
    ensures NextDay(d).year >= 1970 && IsDate(NextDay(d)) && DayNumber(NextDay(d)) == DayNumber(d) + 1
  {
    if d.day == DaysInMonth(d.year, d.month) && d.month == 12 {
      YearLength(d.year);
    }
  }

  lemma YearLength(year: int)
    ensures DaysBeforeMonth(year, 12) + 31 == if IsLeap(year) then 366 else 365
  {
    assert DaysBeforeMonth(year, 4) == DaysBeforeMonth(year, 3) + 31;
    assert DaysBeforeMonth(year, 7) == DaysBeforeMonth(year, 4) + 91;
    assert DaysBeforeMonth(year, 10) == DaysBeforeMonth(year, 7) + 92;
  }

  lemma {:induction false} DaysLaterRoundTrip(n: nat)
    ensures DaysLater(n).year >= 1970 && IsDate(DaysLater(n)) && DayNumber(DaysLater(n)) == n
  {
    if n > 0 {
      DaysLaterRoundTrip(n - 1);
      NextDayNumber(DaysLater(n - 1));
    }
  }

  function SecondsOf(ts: Timestamp): int
    requires ts.date.year >= 1970 && 1 <= ts.date.month <= 12
  {
    DayNumber(ts.date) * 86_400 + ts.hour * 3600 + ts.minute * 60 + ts.second
  }

  /** Every second count is spelled by valid fields, and the fields spell it back. */
  lemma FormatRoundTrip(secs: nat)
    ensures var ts := FormatUtc(secs);
      && ts.date == DaysLater(secs / 86_400)
      && ts.date.year >= 1970 && IsDate(ts.date)
      && 0 <= ts.hour < 24 && 0 <= ts.minute < 60 && 0 <= ts.second < 60
      && SecondsOf(ts) == secs
  {
    hide CivilFromDays, DayNumber, DaysLater, IsDate;
    var days, rem := secs / 86_400, secs % 86_400;
    CivilIsGregorian(days);
    DaysLaterRoundTrip(days);
    ClockRoundTrip(rem);
  }

  lemma ClockRoundTrip(rem: nat)
    requires rem < 86_400
    ensures 0 <= rem / 3600 < 24 && 0 <= rem % 3600 / 60 < 60 && 0 <= rem % 60 < 60
    ensures rem / 3600 * 3600 + rem % 3600 / 60 * 60 + rem % 60 == rem
  {
  }

  /** The order in which the printed fields are compared. */
  predicate Earlier(a: Timestamp, b: Timestamp) {
    a.date.year < b.date.year || (a.date.year == b.date.year &&
    (a.date.month < b.date.month || (a.date.month == b.date.month &&
    (a.date.day < b.date.day || (a.date.day == b.date.day &&
    (a.hour < b.hour || (a.hour == b.hour &&
    (a.minute < b.minute || (a.minute == b.minute && a.second < b.second)))))))))
  }

  predicate EarlierDate(a: Date, b: Date) {
    a.year < b.year || (a.year == b.year && (a.month < b.month || (a.month == b.month && a.day < b.day)))
  }

  lemma {:induction false} DaysLaterIncreases(m: nat, n: nat)
    requires m < n
    ensures EarlierDate(DaysLater(m), DaysLater(n))
  {
    if m < n - 1 { DaysLaterIncreases(m, n - 1); }
  }

  /** Later seconds never print as the same or an earlier time. */
  lemma FormatIncreases(s: nat, t: nat)
    requires s < t
    ensures Earlier(FormatUtc(s), FormatUtc(t))
  {
    FormatRoundTrip(s);
    FormatRoundTrip(t);
    hide CivilFromDays, DayNumber, IsDate;
    if s / 86_400 < t / 86_400 {
      DaysLaterIncreases(s / 86_400, t / 86_400);
    }
  }

  // ----- the printed text -----

  /** Whole seconds since the epoch of a time in nanoseconds; times before it count as the epoch. */
  function EpochSeconds(nanos: int): nat {
    if nanos < 0 then 0 else nanos / 1_000_000_000
  }

  /** As in "2024-02-29 07:05:09Z"; a year of more than four digits takes the room it needs. */
  function Text(ts: Timestamp): string
    requires ts.date.year >= 0 && ts.date.month >= 0 && ts.date.day >= 0
    requires ts.hour >= 0 && ts.minute >= 0 && ts.second >= 0
  {
    Radix.Padded(ts.date.year, 4) + "-" + Radix.Padded(ts.date.month, 2) + "-" + Radix.Padded(ts.date.day, 2) + " " +
    Radix.Padded(ts.hour, 2) + ":" + Radix.Padded(ts.minute, 2) + ":" + Radix.Padded(ts.second, 2) + "Z"
  }

  /** The text of a time, as a report shows it. */
  function Print(nanos: int): (s: string)
    ensures |s| >= 20
  {
    FormatIsPrinted(EpochSeconds(nanos));
    Text(FormatUtc(EpochSeconds(nanos)))
  }

  /** The fields read back from their places, counted from the end. */
  function ReadText(s: string): Timestamp
    requires |s| >= 16
  {
    var n := |s|;
    var field := (from: nat) requires 3 <= from <= n => Radix.Read(s[n - from..n - from + 2], 10);
    Timestamp(Date(Radix.Read(s[..n - 16], 10), field(15), field(12)), field(9), field(6), field(3))
  }

  lemma FieldsInPlace(y: string, mo: string, d: string, h: string, mi: string, sec: string)
    requires |mo| == |d| == |h| == |mi| == |sec| == 2
    ensures var s := y + "-" + mo + "-" + d + " " + h + ":" + mi + ":" + sec + "Z";
      var n := |s|;
      && n == |y| + 16 && s[..n - 16] == y && s[n - 15..n - 13] == mo && s[n - 12..n - 10] == d
      && s[n - 9..n - 7] == h && s[n - 6..n - 4] == mi && s[n - 3..n - 1] == sec
  {
  }

  lemma TextRoundTrip(ts: Timestamp)
    requires ts.date.year >= 0 && 0 <= ts.date.month < 100 && 0 <= ts.date.day < 100
    requires 0 <= ts.hour < 100 && 0 <= ts.minute < 100 && 0 <= ts.second < 100
    ensures |Text(ts)| >= 20 && ReadText(Text(ts)) == ts
  {
    hide Radix.Padded, Radix.Read;
    var two := [ts.date.month, ts.date.day, ts.hour, ts.minute, ts.second];
    forall i | 0 <= i < 5 ensures |Radix.Padded(two[i], 2)| == 2 && Radix.Read(Radix.Padded(two[i], 2), 10) == two[i] {
      Radix.TwoDigits(two[i]);
      Radix.ReadPadded(two[i], 2);
    }
    Radix.ReadPadded(ts.date.year, 4);
    Radix.PaddedLength(ts.date.year, 4);
    FieldsInPlace(Radix.Padded(ts.date.year, 4), Radix.Padded(two[0], 2), Radix.Padded(two[1], 2),
                  Radix.Padded(two[2], 2), Radix.Padded(two[3], 2), Radix.Padded(two[4], 2));
  }

  /** A text of the printed form: six groups of decimal digits with these characters between them and
      "Z" at the end, all groups of two digits except the first, which has four or more. */
  predicate IsPrinted(s: string) {
    var n := |s|;
    && n >= 20
    && s[n - 16] == '-' && s[n - 13] == '-' && s[n - 10] == ' ' && s[n - 7] == ':' && s[n - 4] == ':' && s[n - 1] == 'Z'
    && Radix.IsDecimal(s[..n - 16])
    && Radix.IsDecimal(s[n - 15..n - 13]) && Radix.IsDecimal(s[n - 12..n - 10]) && Radix.IsDecimal(s[n - 9..n - 7])
    && Radix.IsDecimal(s[n - 6..n - 4]) && Radix.IsDecimal(s[n - 3..n - 1])
  }

  lemma SeparatorsInPlace(y: string, mo: string, d: string, h: string, mi: string, sec: string)
    requires |mo| == |d| == |h| == |mi| == |sec| == 2
    ensures var s := y + "-" + mo + "-" + d + " " + h + ":" + mi + ":" + sec + "Z";
      var n := |s|;
      && n == |y| + 16 && s[n - 16] == '-' && s[n - 13] == '-' && s[n - 10] == ' ' && s[n - 7] == ':'
      && s[n - 4] == ':' && s[n - 1] == 'Z'
  {
  }

  lemma TextIsPrinted(ts: Timestamp)
    requires ts.date.year >= 0 && 0 <= ts.date.month < 100 && 0 <= ts.date.day < 100
    requires 0 <= ts.hour < 100 && 0 <= ts.minute < 100 && 0 <= ts.second < 100
    ensures IsPrinted(Text(ts))
  {
    hide Radix.Padded, Radix.IsDecimal;
    var two := [ts.date.month, ts.date.day, ts.hour, ts.minute, ts.second];
    forall i | 0 <= i < 5 ensures |Radix.Padded(two[i], 2)| == 2 && Radix.IsDecimal(Radix.Padded(two[i], 2)) {
      Radix.TwoDigits(two[i]);
      Radix.PaddedIsDecimal(two[i], 2);
    }
    Radix.PaddedIsDecimal(ts.date.year, 4);
    Radix.PaddedLength(ts.date.year, 4);
    FieldsInPlace(Radix.Padded(ts.date.year, 4), Radix.Padded(two[0], 2), Radix.Padded(two[1], 2),
                  Radix.Padded(two[2], 2), Radix.Padded(two[3], 2), Radix.Padded(two[4], 2));
    SeparatorsInPlace(Radix.Padded(ts.date.year, 4), Radix.Padded(two[0], 2), Radix.Padded(two[1], 2),
                      Radix.Padded(two[2], 2), Radix.Padded(two[3], 2), Radix.Padded(two[4], 2));
  }

  /** The fields of any second have a printed form. */
  lemma FormatIsPrinted(secs: nat)
    ensures var ts := FormatUtc(secs);
      && ts.date.year >= 0 && 0 <= ts.date.month < 100 && 0 <= ts.date.day < 100
      && 0 <= ts.hour < 100 && 0 <= ts.minute < 100 && 0 <= ts.second < 100
      && IsPrinted(Text(ts)) && |Text(ts)| >= 20
  {
    FormatRoundTrip(secs);
    hide FormatUtc, Text, DaysLater;
    assert DaysInMonth(FormatUtc(secs).date.year, FormatUtc(secs).date.month) <= 31;
    TextIsPrinted(FormatUtc(secs));
  }

  /** The printed text has the documented form and reads back to the whole second since the epoch in
      which the time falls, also beyond the year 9999; a time before the epoch prints as the epoch. */
  lemma PrintRoundTrip(nanos: int)
    ensures IsPrinted(Print(nanos))
    ensures var ts := ReadText(Print(nanos));
      && ts.date.year >= 1970 && 1 <= ts.date.month <= 12
      && (nanos < 0 ==> SecondsOf(ts) == 0)
      && (nanos >= 0 ==> SecondsOf(ts) * 1_000_000_000 <= nanos < (SecondsOf(ts) + 1) * 1_000_000_000)
  {
    PrintedSeconds(nanos);
    var whole := EpochSeconds(nanos);
    assert nanos >= 0 ==> whole * 1_000_000_000 <= nanos < (whole + 1) * 1_000_000_000;
  }

  lemma PrintedSeconds(nanos: int)
    ensures IsPrinted(Print(nanos))
    ensures var ts := ReadText(Print(nanos));
      ts.date.year >= 1970 && 1 <= ts.date.month <= 12 && SecondsOf(ts) == EpochSeconds(nanos)
  {
    FormatRoundTrip(EpochSeconds(nanos));
    FormatIsPrinted(EpochSeconds(nanos));
    hide FormatUtc, Text, ReadText, DaysLater, IsPrinted;
    TextRoundTrip(FormatUtc(EpochSeconds(nanos)));
  }

  /** Two times print alike exactly when they fall in the same second since the epoch, or both before its
      first second ends. */
  lemma PrintSameIff(a: int, b: int)
    ensures Print(a) == Print(b) <==>
      (a < 1_000_000_000 && b < 1_000_000_000) ||
      (a >= 0 && b >= 0 && a / 1_000_000_000 == b / 1_000_000_000)
  {
    hide ReadText, SecondsOf, FormatUtc, Text, IsPrinted;
    PrintedSeconds(a);
    PrintedSeconds(b);
  }

  /** The known date of the program's own test, 2023-11-14 22:13:20. */
  lemma KnownDate()
    ensures ReadText(Print(1_700_000_000_000_000_000)) == Timestamp(Date(2023, 11, 14), 22, 13, 20)
    ensures ReadText(Print(0)) == Timestamp(Date(1970, 1, 1), 0, 0, 0)
  {
    KnownFields();
    hide FormatUtc, Text, ReadText;
    assert EpochSeconds(1_700_000_000_000_000_000) == 1_700_000_000;
    TextRoundTrip(Timestamp(Date(2023, 11, 14), 22, 13, 20));
    TextRoundTrip(Timestamp(Date(1970, 1, 1), 0, 0, 0));
  }

  lemma KnownFields()
    ensures FormatUtc(1_700_000_000) == Timestamp(Date(2023, 11, 14), 22, 13, 20)
    ensures FormatUtc(0) == Timestamp(Date(1970, 1, 1), 0, 0, 0)
  {
    KnownDays();
    hide FormatUtc, CivilFromDays;
    FieldsAre(19675, 22, 13, 20);
    FieldsAre(0, 0, 0, 0);
  }

  lemma FieldsAre(days: nat, hour: nat, minute: nat, second: nat)
    requires hour < 24 && minute < 60 && second < 60
    ensures FormatUtc(days * 86_400 + hour * 3600 + minute * 60 + second)
         == Timestamp(CivilFromDays(days), hour, minute, second)
  {
    hide CivilFromDays;
    var rem := hour * 3600 + minute * 60 + second;
    Radix.ModUnique(days * 86_400 + rem, 86_400, days, rem);
    Radix.ModUnique(rem, 3600, hour, minute * 60 + second);
    Radix.ModUnique(minute * 60 + second, 60, minute, second);
    Radix.ModUnique(rem, 60, hour * 60 + minute, second);
  }

  lemma KnownDays()
    ensures CivilFromDays(19675) == Date(2023, 11, 14) && CivilFromDays(0) == Date(1970, 1, 1)
  {
    hide CivilFromDays;
    SpellParts(0, Parts(4, 3, 17, 1, 306));
    SpellParts(19675, Parts(5, 0, 5, 3, 258));
    assert MonthOf(258) == 8 && MonthOf(306) == 10;
  }
}

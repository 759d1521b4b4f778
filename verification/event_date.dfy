/**
 * The event date of an RSVP poll and the voting lock.
 *
 * The date label is free text ("21.02.2026, 14:00"). The first
 * `D.M.YYYY`-shaped token is zero-padded to `YYYY-MM-DD` and compared, as a
 * string, with today's `YYYY-MM-DD` in the bot's time zone; a poll is locked
 * on the event day and after it. "Today" is a parameter here: the clock and
 * the time-zone conversion stay outside the model.
 */
module EventDate {
  import opened Base
  import opened Strings

  /** A calendar date as three numbers (not necessarily a valid date). */
  datatype Ymd = Ymd(year: nat, month: nat, day: nat)

  /** The three groups of `(\d{1,2})\.(\d{1,2})\.(\d{4})`. */
  datatype DateToken = DateToken(day: string, month: string, year: string)

  // ---------------------------------------------------------------------
  // Finding the token
  // ---------------------------------------------------------------------

  /** The length the greedy `\d{1,2}\.` takes at position `i`, or 0 when it
      cannot match there. Trying two digits first and then one is all the
      backtracking can do: when two digits are present, one digit is
      followed by a digit and not by a dot. */
  function ShortGroup(s: string, i: nat): (n: nat)
    ensures n <= 2
    ensures n > 0 ==> i + n < |s| && AllDigits(s[i..i + n]) && s[i + n] == '.'
  {
    if i + 2 < |s| && IsDigit(s[i]) && IsDigit(s[i + 1]) && s[i + 2] == '.' then 2
    else if i + 1 < |s| && IsDigit(s[i]) && s[i + 1] == '.' then 1
    else 0
  }

  /** The match of the date pattern starting exactly at position `i`. */
  function MatchAt(s: string, i: nat): (r: Option<DateToken>)
    ensures r.Some? ==> |r.value.day| in {1, 2} && |r.value.month| in {1, 2} && |r.value.year| == 4
    ensures r.Some? ==> AllDigits(r.value.day) && AllDigits(r.value.month) && AllDigits(r.value.year)
  {
    var a := ShortGroup(s, i);
    if a == 0 then None
    else
      var j := i + a + 1;
      var b := ShortGroup(s, j);
      if b == 0 then None
      else
        var k := j + b + 1;
        if k + 4 <= |s| && AllDigits(s[k..k + 4]) then
          Some(DateToken(s[i..i + a], s[j..j + b], s[k..k + 4]))
        else None
  }

  /** Where `s.match(...)` finds its match when scanning from position
      `i`: the leftmost position at which the pattern matches. */
  function FirstMatchPos(s: string, i: nat): (r: Option<nat>)
    ensures r.None? ==> forall j :: i <= j < |s| ==> MatchAt(s, j).None?
    ensures r.Some? ==> i <= r.value < |s| && MatchAt(s, r.value).Some?
    ensures r.Some? ==> forall k :: i <= k < r.value ==> MatchAt(s, k).None?
    decreases |s| - i
  {
    if i >= |s| then None
    else if MatchAt(s, i).Some? then Some(i)
    else FirstMatchPos(s, i + 1)
  }

  /** `s.match(...)` scanning from position `i`: the leftmost match. */
  function FirstToken(s: string, i: nat): (r: Option<DateToken>)
    ensures r.None? <==> FirstMatchPos(s, i).None?
    ensures r.Some? ==> r == MatchAt(s, FirstMatchPos(s, i).value)
  {
    match FirstMatchPos(s, i)
    case None => None
    case Some(j) => MatchAt(s, j)
  }

  /** The numbers a token denotes. */
  function TokenYmd(t: DateToken): Ymd
    requires AllDigits(t.day) && AllDigits(t.month) && AllDigits(t.year)
  {
    Ymd(DigitsValue(t.year), DigitsValue(t.month), DigitsValue(t.day))
  }

  /** The date of the first token of the label, if there is one. */
  function EventYmd(dt: string): Option<Ymd> {
    match FirstToken(Trim(dt), 0)
    case None => None
    case Some(t) => Some(TokenYmd(t))
  }

  // ---------------------------------------------------------------------
  // `parseEventYMD_` and `isRsvpLocked_`
  // ---------------------------------------------------------------------

  /** `y + "-" + m + "-" + d`. */
  function DashJoin(y: string, m: string, d: string): string {
    y + "-" + m + "-" + d
  }

  /** `parseEventYMD_`: the zero-padded `YYYY-MM-DD` text of the first token. */
  function ParseEventYmd(dt: string): Option<string> {
    match FirstToken(Trim(dt), 0)
    case None => None
    case Some(t) => Some(DashJoin(t.year, PadStart(t.month, 2, '0'), PadStart(t.day, 2, '0')))
  }

  /** `isRsvpLocked_`: locked when the event day is today or earlier; a
      label without a date never locks. */
  function IsLocked(dt: string, today: string): bool {
    match ParseEventYmd(dt)
    case None => false
    case Some(e) => LexLe(e, today)
  }

  /** Today's date as the locale "en-CA" prints it: `YYYY-MM-DD`. */
  function FormatYmd(t: Ymd): string {
    DashJoin(ZeroPad(t.year, 4), ZeroPad(t.month, 2), ZeroPad(t.day, 2))
  }

  /** The dates `FormatYmd` prints with fixed widths. */
  predicate Printable(t: Ymd) {
    t.year < 10000 && t.month < 100 && t.day < 100
  }

  /** Chronological order of (year, month, day) triples. */
  predicate YmdLe(a: Ymd, b: Ymd) {
    a.year < b.year || (a.year == b.year && (a.month < b.month || (a.month == b.month && a.day <= b.day)))
  }

  /** Comparing two `DashJoin`s whose fields have equal widths compares
      the fields in order. */
  lemma DashJoinLexLess(y1: string, m1: string, d1: string, y2: string, m2: string, d2: string)
    requires |y1| == |y2| && |m1| == |m2|
    ensures LexLess(DashJoin(y1, m1, d1), DashJoin(y2, m2, d2)) <==>
              LexLess(y1, y2) || (!LexLess(y2, y1) && (LexLess(m1, m2) || (!LexLess(m2, m1) && LexLess(d1, d2))))
  {
    var t1, t2 := m1 + ("-" + d1), m2 + ("-" + d2);
    assert DashJoin(y1, m1, d1) == y1 + ("-" + t1);
    assert DashJoin(y2, m2, d2) == y2 + ("-" + t2);
    LexLessConcat(y1, "-" + t1, y2, "-" + t2);
    LexLessCommonPrefix("-", t1, t2);
    LexLessConcat(m1, "-" + d1, m2, "-" + d2);
    LexLessCommonPrefix("-", d1, d2);
    LexLessTotal(y1, y2);
    LexLessTotal(m1, m2);
    LexLessIrreflexive(y1);
    LexLessIrreflexive(m1);
    if LexLess(y1, y2) { LexLessAsymmetric(y1, y2); }
    if LexLess(m1, m2) { LexLessAsymmetric(m1, m2); }
  }

  /** Strict chronological order. */
  predicate YmdLess(a: Ymd, b: Ymd) {
    a.year < b.year || (a.year == b.year && (a.month < b.month || (a.month == b.month && a.day < b.day)))
  }

  /** Between printed dates, the string order is the calendar order. */
  lemma FormattedOrder(a: Ymd, b: Ymd)
    requires Printable(a) && Printable(b)
    ensures LexLess(FormatYmd(a), FormatYmd(b)) <==> YmdLess(a, b)
  {
    assert Pow10(2) == 100 && Pow10(4) == 10000;
    ZeroPadOrder(a.year, b.year, 4);
    ZeroPadOrder(b.year, a.year, 4);
    ZeroPadOrder(a.month, b.month, 2);
    ZeroPadOrder(b.month, a.month, 2);
    ZeroPadOrder(a.day, b.day, 2);
    DashJoinLexLess(ZeroPad(a.year, 4), ZeroPad(a.month, 2), ZeroPad(a.day, 2),
                    ZeroPad(b.year, 4), ZeroPad(b.month, 2), ZeroPad(b.day, 2));
  }

  /** The padded text of a token is the printed form of its date. */
  lemma ParsedIsFormatted(dt: string)
    requires EventYmd(dt).Some?
    ensures Printable(EventYmd(dt).value)
    ensures ParseEventYmd(dt) == Some(FormatYmd(EventYmd(dt).value))
  {
    var tok := FirstToken(Trim(dt), 0).value;
    assert Pow10(2) == 100 && Pow10(4) == 10000;
    ZeroPadCanonical(tok.year, 4);
    ZeroPadCanonical(tok.month, 2);
    ZeroPadCanonical(tok.day, 2);
  }

  /** The lock rule in calendar terms: the string comparison of the padded
      texts is exactly "the event's (year, month, day) is on or before
      today's", and a label without a token is never locked. */
  lemma LockedIffOnOrBefore(dt: string, t: Ymd)
    requires Printable(t)
    ensures IsLocked(dt, FormatYmd(t)) <==> EventYmd(dt).Some? && YmdLe(EventYmd(dt).value, t)
  {
    if EventYmd(dt).Some? {
      ParsedIsFormatted(dt);
      FormattedOrder(t, EventYmd(dt).value);
    }
  }

  /** Once locked, a poll stays locked on every later day. */
  lemma LockIsMonotone(dt: string, today1: string, today2: string)
    requires IsLocked(dt, today1) && LexLe(today1, today2)
    ensures IsLocked(dt, today2)
  {
    LexLeTransitive(ParseEventYmd(dt).value, today1, today2);
  }

  // ---------------------------------------------------------------------
  // `ymdToDate_` and `diffDaysBerlin_`
  // ---------------------------------------------------------------------

  /** `ymdToDate_` up to the Date object: split on "-", convert the first
      three pieces with `Number`, and give up when any is missing, zero or
      not a number. */
  function YmdFromString(s: string): (r: Option<Ymd>)
    ensures r.Some? ==> r.value.year > 0 && r.value.month > 0 && r.value.day > 0
  {
    var parts := Split(s, '-');
    if |parts| < 3 then None
    else
      match (NumberOf(parts[0]), NumberOf(parts[1]), NumberOf(parts[2]))
      case (Some(y), Some(m), Some(d)) => if y == 0 || m == 0 || d == 0 then None else Some(Ymd(y, m, d))
      case _ => None
  }

  /** A printed date splits on "-" into its three padded fields. */
  lemma SplitFormatted(t: Ymd)
    requires Printable(t)
    ensures Split(FormatYmd(t), '-') == [ZeroPad(t.year, 4), ZeroPad(t.month, 2), ZeroPad(t.day, 2)]
  {
    var y, m, d := ZeroPad(t.year, 4), ZeroPad(t.month, 2), ZeroPad(t.day, 2);
    assert Pow10(2) == 100 && Pow10(4) == 10000;
    ZeroPadNumber(t.year, 4);
    ZeroPadNumber(t.month, 2);
    ZeroPadNumber(t.day, 2);
    assert '-' !in y && '-' !in m && '-' !in d;
    assert FormatYmd(t) == y + ['-'] + (m + ['-'] + d);
    SplitCons(y, '-', m + ['-'] + d);
    SplitCons(m, '-', d);
    SplitNone(d, '-');
  }

  /** Reading back a printed date gives the date. */
  lemma YmdRoundTrip(t: Ymd)
    requires Printable(t) && t.year > 0 && t.month > 0 && t.day > 0
    ensures YmdFromString(FormatYmd(t)) == Some(t)
  {
    SplitFormatted(t);
    assert Pow10(2) == 100 && Pow10(4) == 10000;
    ZeroPadNumber(t.year, 4);
    ZeroPadNumber(t.month, 2);
    ZeroPadNumber(t.day, 2);
  }

  predicate IsLeap(y: int) {
    y % 4 == 0 && (y % 100 != 0 || y % 400 == 0)
  }

  /** Days of month `m0` (0 = January) of year `y`. */
  function DaysInMonth(y: int, m0: nat): (n: nat)
    requires m0 < 12
    ensures 28 <= n <= 31
  {
    if m0 == 1 then (if IsLeap(y) then 29 else 28)
    else if m0 in {3, 5, 8, 10} then 30
    else 31
  }

  /** Days of the months of year `y` before month `m0` (0-based). */
  function DaysBeforeMonth(y: int, m0: nat): nat
    requires m0 <= 12
  {
    if m0 == 0 then 0 else DaysBeforeMonth(y, m0 - 1) + DaysInMonth(y, m0 - 1)
  }

  /** Days from 1 January of year 1 to 1 January of year `y`. */
  function DaysBeforeYear(y: nat): int
    requires y >= 1
  {
    365 * (y - 1) + (y - 1) / 4 - (y - 1) / 100 + (y - 1) / 400
  }

  /** The day `new Date(y, m - 1, d, 12)` falls on, as a day count: a year
      below 100 means 19xx, and an out-of-range month or day rolls over. */
  function JsDayNumber(t: Ymd): int
    requires t.year > 0 && t.month > 0
  {
    var y := if t.year <= 99 then 1900 + t.year else t.year;
    var m0 := t.month - 1;
    var yy := y + m0 / 12;
    DaysBeforeYear(yy) + DaysBeforeMonth(yy, m0 % 12) + t.day - 1
  }

  /** `diffDaysBerlin_`: whole days from today to the event (−1 yesterday,
      0 today, +1 tomorrow), or 9999 when either date cannot be read.
      Both instants are at noon, so the one-hour daylight-saving shift is
      rounded away and the difference is the difference of day numbers. */
  function DiffDays(dt: string, today: string): int {
    match ParseEventYmd(dt)
    case None => 9999
    case Some(e) =>
      match (YmdFromString(e), YmdFromString(today))
      case (Some(a), Some(b)) => JsDayNumber(a) - JsDayNumber(b)
      case _ => 9999
  }

  /** A real calendar date that needs no roll-over. */
  predicate ValidDate(t: Ymd) {
    100 <= t.year <= 9999 && 1 <= t.month <= 12 && 1 <= t.day <= DaysInMonth(t.year, t.month - 1)
  }

  lemma DaysInYear(y: int)
    ensures DaysBeforeMonth(y, 12) == if IsLeap(y) then 366 else 365
  {
    assert DaysBeforeMonth(y, 1) == 31;
    assert DaysBeforeMonth(y, 2) == 31 + DaysInMonth(y, 1);
    assert DaysBeforeMonth(y, 3) == 62 + DaysInMonth(y, 1);
    assert DaysBeforeMonth(y, 4) == 92 + DaysInMonth(y, 1);
    assert DaysBeforeMonth(y, 5) == 123 + DaysInMonth(y, 1);
    assert DaysBeforeMonth(y, 6) == 153 + DaysInMonth(y, 1);
    assert DaysBeforeMonth(y, 7) == 184 + DaysInMonth(y, 1);
    assert DaysBeforeMonth(y, 8) == 215 + DaysInMonth(y, 1);
    assert DaysBeforeMonth(y, 9) == 245 + DaysInMonth(y, 1);
    assert DaysBeforeMonth(y, 10) == 276 + DaysInMonth(y, 1);
    assert DaysBeforeMonth(y, 11) == 306 + DaysInMonth(y, 1);
  }

  lemma Step4(n: nat)
    ensures (n + 1) / 4 - n / 4 == if (n + 1) % 4 == 0 then 1 else 0
  {
  }

  lemma Step100(n: nat)
    ensures (n + 1) / 100 - n / 100 == if (n + 1) % 100 == 0 then 1 else 0
  {
  }

  lemma Step400(n: nat)
    ensures (n + 1) / 400 - n / 400 == if (n + 1) % 400 == 0 then 1 else 0
  {
  }

  lemma LeapCount(y: nat)
    ensures (if IsLeap(y) then 1 else 0) ==
            (if y % 4 == 0 then 1 else 0) - (if y % 100 == 0 then 1 else 0) + (if y % 400 == 0 then 1 else 0)
  {
    if y % 400 == 0 { assert y % 100 == 0 && y % 4 == 0; }
    else if y % 100 == 0 { assert y % 4 == 0; }
  }

  /** The closed form of `DaysBeforeYear` steps by the length of the year. */
  lemma YearLength(y: nat)
    requires y >= 1
    ensures DaysBeforeYear(y + 1) - DaysBeforeYear(y) == DaysBeforeMonth(y, 12)
  {
    DaysInYear(y);
    Step4(y - 1);
    Step100(y - 1);
    Step400(y - 1);
    LeapCount(y);
  }

  lemma {:induction false} DaysBeforeMonthMonotone(y: int, a: nat, b: nat)
    requires a <= b <= 12
    ensures DaysBeforeMonth(y, a) + (b - a) * 28 <= DaysBeforeMonth(y, b)
    decreases b - a
  {
    if a < b {
      DaysBeforeMonthMonotone(y, a + 1, b);
    }
  }

  lemma {:induction false} DaysBeforeYearMonotone(a: nat, b: nat)
    requires 1 <= a < b
    ensures DaysBeforeYear(a) + DaysBeforeMonth(a, 12) <= DaysBeforeYear(b)
    decreases b - a
  {
    YearLength(a);
    if a + 1 < b {
      DaysBeforeYearMonotone(a + 1, b);
      DaysBeforeMonthMonotone(a + 1, 0, 12);
    }
  }

  /** For a valid date nothing rolls over. */
  lemma ValidDayNumber(a: Ymd)
    requires ValidDate(a)
    ensures JsDayNumber(a) == DaysBeforeYear(a.year) + DaysBeforeMonth(a.year, a.month - 1) + a.day - 1
  {
    assert (a.month - 1) / 12 == 0 && (a.month - 1) % 12 == a.month - 1;
  }

  /** A day of an earlier month comes before every day of a later month of
      the same year. */
  lemma MonthOrder(y: int, m1: nat, d1: nat, m2: nat, d2: nat)
    requires 1 <= m1 < m2 <= 12 && 1 <= d1 <= DaysInMonth(y, m1 - 1) && 1 <= d2
    ensures DaysBeforeMonth(y, m1 - 1) + d1 < DaysBeforeMonth(y, m2 - 1) + d2
  {
    DaysBeforeMonthMonotone(y, m1, m2 - 1);
  }

  /** A day of an earlier year comes before every day of a later year. */
  lemma YearOrder(a: Ymd, b: Ymd)
    requires ValidDate(a) && ValidDate(b) && a.year < b.year
    ensures JsDayNumber(a) < JsDayNumber(b)
  {
    ValidDayNumber(a);
    ValidDayNumber(b);
    DaysBeforeMonthMonotone(a.year, a.month, 12);
    DaysBeforeYearMonotone(a.year, b.year);
  }

  /** On valid dates the day number is strictly increasing in calendar
      order. */
  lemma DayNumberLess(a: Ymd, b: Ymd)
    requires ValidDate(a) && ValidDate(b) && YmdLess(a, b)
    ensures JsDayNumber(a) < JsDayNumber(b)
  {
    if a.year < b.year {
      YearOrder(a, b);
    } else {
      SameYearOrder(a, b);
    }
  }

  lemma SameYearOrder(a: Ymd, b: Ymd)
    requires ValidDate(a) && ValidDate(b) && a.year == b.year && YmdLess(a, b)
    ensures JsDayNumber(a) < JsDayNumber(b)
  {
    ValidDayNumber(a);
    ValidDayNumber(b);
    DayOfYearOrder(a, b);
  }

  lemma DayOfYearOrder(a: Ymd, b: Ymd)
    requires ValidDate(a) && ValidDate(b) && a.year == b.year && YmdLess(a, b)
    ensures DaysBeforeMonth(a.year, a.month - 1) + a.day < DaysBeforeMonth(b.year, b.month - 1) + b.day
  {
    if a.month < b.month {
      MonthOrder(a.year, a.month, a.day, b.month, b.day);
    }
  }

  lemma DayNumberOrder(a: Ymd, b: Ymd)
    requires ValidDate(a) && ValidDate(b)
    ensures YmdLe(a, b) <==> JsDayNumber(a) <= JsDayNumber(b)
    ensures a == b <==> JsDayNumber(a) == JsDayNumber(b)
  {
    if YmdLess(a, b) {
      DayNumberLess(a, b);
    } else if YmdLess(b, a) {
      DayNumberLess(b, a);
    } else {
      assert a == b;
    }
  }

  /** The two date computations agree: for real dates, the event is locked
      exactly when it is zero or more days in the past, and it is today
      exactly when the difference is zero. */
  lemma DiffDaysAgreesWithLock(dt: string, t: Ymd)
    requires ValidDate(t)
    requires EventYmd(dt).Some? && ValidDate(EventYmd(dt).value)
    ensures DiffDays(dt, FormatYmd(t)) <= 0 <==> IsLocked(dt, FormatYmd(t))
    ensures DiffDays(dt, FormatYmd(t)) == 0 <==> EventYmd(dt) == Some(t)
  {
    var e := EventYmd(dt).value;
    ParsedIsFormatted(dt);
    YmdRoundTrip(e);
    YmdRoundTrip(t);
    assert DiffDays(dt, FormatYmd(t)) == JsDayNumber(e) - JsDayNumber(t);
    LockedIffOnOrBefore(dt, t);
    DayNumberOrder(e, t);
  }

  // ---------------------------------------------------------------------
  // The documented example
  // ---------------------------------------------------------------------

  lemma ExampleTrim()
    ensures Trim("21.02.2026, 14:00") == "21.02.2026, 14:00"
  {
    var s := "21.02.2026, 14:00";
    assert !IsWhite(s[0]) && !IsWhite(s[|s| - 1]);
    TrimOfTrimmed(s);
  }

  lemma ExampleMatch()
    ensures MatchAt("21.02.2026, 14:00", 0) == Some(DateToken("21", "02", "2026"))
  {
    var s := "21.02.2026, 14:00";
    assert ShortGroup(s, 0) == 2;
    assert ShortGroup(s, 3) == 2;
    assert s[0..2] == "21" && s[3..5] == "02" && s[6..10] == "2026";
    assert AllDigits(s[6..10]);
  }

  lemma ExampleDigits()
    ensures TokenYmd(DateToken("21", "02", "2026")) == Ymd(2026, 2, 21)
  {
    assert DigitsValue("2") == 2;
    assert DigitsValue("20") == 20 by { assert "20"[..1] == "2"; }
    assert DigitsValue("202") == 202 by { assert "202"[..2] == "20"; }
    assert DigitsValue("2026") == 2026 by { assert "2026"[..3] == "202"; }
    assert DigitsValue("0") == 0;
    assert DigitsValue("02") == 2 by { assert "02"[..1] == "0"; }
    assert DigitsValue("21") == 21 by { assert "21"[..1] == "2"; }
  }

  /** "21.02.2026, 14:00" reads as 21 February 2026. */
  lemma ExampleLabel()
    ensures EventYmd("21.02.2026, 14:00") == Some(Ymd(2026, 2, 21))
  {
    ExampleTrim();
    ExampleMatch();
    ExampleDigits();
  }

  /** The label "21.02.2026, 14:00" is open on 20 February 2026 and locked
      from 21 February 2026 on. */
  lemma ExampleLock(t: Ymd)
    requires Printable(t)
    ensures t == Ymd(2026, 2, 20) ==> !IsLocked("21.02.2026, 14:00", FormatYmd(t))
    ensures YmdLe(Ymd(2026, 2, 21), t) ==> IsLocked("21.02.2026, 14:00", FormatYmd(t))
  {
    ExampleLabel();
    LockedIffOnOrBefore("21.02.2026, 14:00", t);
  }
}

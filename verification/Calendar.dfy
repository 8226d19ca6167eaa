/**
  The hand-written civil-date conversion behind HAR timestamps, checked against
  the Gregorian calendar stated as a leap rule, a month table and a "next day".
 */
module Calendar {

  datatype Date = Date(year: int, month: int, day: int)

  datatype DateTime = DateTime(date: Date, hour: int, minute: int, second: int)

  const SECONDS_PER_DAY := 86400

  // ----- Reference calendar -------------------------------------------------

  predicate IsLeap(year: int) {
    year % 4 == 0 && (year % 100 != 0 || year % 400 == 0)
  }

  function DaysInMonth(year: int, month: int): int {
    if month == 2 then (if IsLeap(year) then 29 else 28)
    else if month in {4, 6, 9, 11} then 30
    else 31
  }

  predicate ValidDate(d: Date) {
    1 <= d.month <= 12 && 1 <= d.day <= DaysInMonth(d.year, d.month)
  }

  predicate ValidDateTime(t: DateTime) {
    ValidDate(t.date) && 0 <= t.hour < 24 && 0 <= t.minute < 60 && 0 <= t.second < 60
  }

  function NextDate(d: Date): Date {
    if d.day < DaysInMonth(d.year, d.month) then d.(day := d.day + 1)
    else if d.month < 12 then Date(d.year, d.month + 1, 1)
    else Date(d.year + 1, 1, 1)
  }

  predicate DateBefore(a: Date, b: Date) {
    a.year < b.year
    || (a.year == b.year && (a.month < b.month || (a.month == b.month && a.day < b.day)))
  }

  // ----- The two conversions, as the code computes them ----------------------

  function YearOfEra(doe: int): int {
    (doe - doe / 1460 + doe / 36524 - doe / 146096) / 365
  }

  function EraDay(yoe: int): int {
    365 * yoe + yoe / 4 - yoe / 100
  }

  function CivilFromDays(days: int): Date {
    var z := days + 719468;
    var era := z / 146097;
    var doe := z - era * 146097;
    var yoe := YearOfEra(doe);
    MarchDate(yoe + era * 400, doe - EraDay(yoe))
  }

  /** The date of a day of the year `yCiv` that runs from March. */
  function MarchDate(yCiv: int, doy: int): Date {
    var mp := (5 * doy + 2) / 153;
    var d := doy - (153 * mp + 2) / 5 + 1;
    var mo := if mp < 10 then mp + 3 else mp - 9;
    Date(if mo <= 2 then yCiv + 1 else yCiv, mo, d)
  }

  function DaysFromCivil(d: Date): int {
    var yCiv := if d.month <= 2 then d.year - 1 else d.year;
    var era := yCiv / 400;
    var yoe := yCiv - era * 400;
    var m := if d.month > 2 then d.month - 3 else d.month + 9;
    var doy := (153 * m + 2) / 5 + d.day - 1;
    era * 146097 + (EraDay(yoe) + doy) - 719468
  }

  // ----- The year of an era ---------------------------------------------------

  /** A day of a 400-year era as century, 4-year group, year of group and day of year
      (the year runs from March, so a leap day is the last day of its year). */
  predicate EraSplit(c: int, q: int, s: int, doy: int) {
    && 0 <= c < 4 && 0 <= q < 25 && 0 <= s < 4
    && 0 <= doy < (if s == 3 && (q < 24 || c == 3) then 366 else 365)
  }

  lemma YearOfEraOfSplit(c: int, q: int, s: int, doy: int)
    requires EraSplit(c, q, s, doy)
    ensures EraDay(100 * c + 4 * q + s) == 36524 * c + 1461 * q + 365 * s
    ensures YearOfEra(36524 * c + 1461 * q + 365 * s + doy) == 100 * c + 4 * q + s
  {
    var yoe := 100 * c + 4 * q + s;
    assert yoe / 4 == 25 * c + q;
    assert yoe / 100 == c;
    var doe := 36524 * c + 1461 * q + 365 * s + doy;
    var x := if 24 * c + q + 365 * s + doy < 1460 then 0 else 1;
    assert doe / 1460 == 25 * c + q + x;
    if doe == 146096 {
      assert doe / 36524 == 4 && doe / 146096 == 1;
    } else {
      assert doe / 36524 == c;
    }
  }

  lemma SplitOfEraDay(doe: int) returns (c: int, q: int, s: int, doy: int)
    requires 0 <= doe < 146097
    ensures EraSplit(c, q, s, doy)
    ensures doe == 36524 * c + 1461 * q + 365 * s + doy
  {
    c := if doe / 36524 < 3 then doe / 36524 else 3;
    var r := doe - 36524 * c;
    q := r / 1461;
    var r' := r - 1461 * q;
    s := if r' / 365 < 3 then r' / 365 else 3;
    doy := r' - 365 * s;
  }

  // ----- The calendar theorems ----------------------------------------------

  /** The March-based view of a date: era, split of the year, day of the year. */
  lemma DaysOfValidDate(d: Date) returns (era: int, c: int, q: int, s: int, doy: int)
    requires ValidDate(d)
    ensures EraSplit(c, q, s, doy)
    ensures (if d.month <= 2 then d.year - 1 else d.year) == 400 * era + 100 * c + 4 * q + s
    ensures doy == (153 * (if d.month > 2 then d.month - 3 else d.month + 9) + 2) / 5 + d.day - 1
    ensures DaysFromCivil(d) + 719468 == 146097 * era + (36524 * c + 1461 * q + 365 * s + doy)
  {
    var y := if d.month <= 2 then d.year - 1 else d.year;
    era := y / 400;
    var yoe := y % 400;
    c := yoe / 100;
    q := yoe % 100 / 4;
    s := yoe % 4;
    doy := (153 * (if d.month > 2 then d.month - 3 else d.month + 9) + 2) / 5 + d.day - 1;
    assert yoe == 100 * c + 4 * q + s;
    LeapOfSplit(era, c, q, s);
    YearOfEraOfSplit(c, q, s, 0);
  }

  lemma LeapOfSplit(era: int, c: int, q: int, s: int)
    requires EraSplit(c, q, s, 0)
    ensures IsLeap(400 * era + 100 * c + 4 * q + s + 1) <==> s == 3 && (q < 24 || c == 3)
  {
    var r := 100 * c + 4 * q + s + 1;
    if r < 400 {
      LeapInEra(era, r);
      LeapOfRemainder(c, q, s);
    } else {
      LeapInEra(era + 1, 0);
    }
  }

  lemma LeapInEra(era: int, r: int)
    requires 0 <= r < 400
    ensures IsLeap(400 * era + r) <==> r % 4 == 0 && (r % 100 != 0 || r == 0)
  {
    var y := 400 * era + r;
    FourRemainder(100 * era + r / 4, r % 4);
    HundredRemainder(4 * era + r / 100, r % 100);
    FourHundredRemainder(era, r);
    assert y == 4 * (100 * era + r / 4) + r % 4;
    assert y == 100 * (4 * era + r / 100) + r % 100;
  }

  lemma FourRemainder(k: int, r: int)
    requires 0 <= r < 4
    ensures (4 * k + r) % 4 == r
  {
  }

  lemma HundredRemainder(k: int, r: int)
    requires 0 <= r < 100
    ensures (100 * k + r) % 100 == r
  {
  }

  lemma FourHundredRemainder(k: int, r: int)
    requires 0 <= r < 400
    ensures (400 * k + r) % 400 == r
  {
  }

  lemma LeapOfRemainder(c: int, q: int, s: int)
    requires 0 <= c < 4 && 0 <= q < 25 && 0 <= s < 4
    ensures var r := 100 * c + 4 * q + s + 1;
            r % 4 == 0 && r % 100 != 0 <==> s == 3 && q < 24
  {
    var r := 100 * c + 4 * q + s + 1;
    if s < 3 {
      assert r % 4 == s + 1;
    } else {
      assert r == 4 * (25 * c + q + 1);
    }
  }

  /** What the code computes from a split: that day of the March-based year. */
  lemma CivilOfSplit(era: int, c: int, q: int, s: int, doy: int)
    requires EraSplit(c, q, s, doy)
    ensures CivilFromDays(146097 * era + (36524 * c + 1461 * q + 365 * s + doy) - 719468)
            == MarchDate(400 * era + 100 * c + 4 * q + s, doy)
  {
    hide CivilFromDays, YearOfEra, EraDay, MarchDate;
    var doe := 36524 * c + 1461 * q + 365 * s + doy;
    assert 0 <= doe < 146097;
    EraOfDay(era, doe);
    YearOfEraOfSplit(c, q, s, doy);
  }

  lemma EraOfDay(era: int, doe: int)
    requires 0 <= doe < 146097
    ensures CivilFromDays(146097 * era + doe - 719468)
            == MarchDate(YearOfEra(doe) + 400 * era, doe - EraDay(YearOfEra(doe)))
  {
    hide YearOfEra, EraDay, MarchDate;
    assert (146097 * era + doe) / 146097 == era;
  }

  lemma MonthOfDayInverse(mp: int, day: int)
    requires 0 <= mp < 12
    requires 1 <= day <= (if mp == 11 then 29 else if mp in {1, 3, 6, 8} then 30 else 31)
    ensures (5 * ((153 * mp + 2) / 5 + day - 1) + 2) / 153 == mp
  {
  }

  lemma CivilFromDaysIsInverse(d: Date)
    requires ValidDate(d)
    ensures CivilFromDays(DaysFromCivil(d)) == d
  {
    hide CivilFromDays, DaysFromCivil;
    var era, c, q, s, doy := DaysOfValidDate(d);
    MonthOfDayInverse(if d.month > 2 then d.month - 3 else d.month + 9, d.day);
    CivilOfSplit(era, c, q, s, doy);
  }

  lemma SplitIsUnique(era: int, c: int, q: int, s: int, era': int, c': int, q': int, s': int)
    requires EraSplit(c, q, s, 0) && EraSplit(c', q', s', 0)
    requires 400 * era + 100 * c + 4 * q + s == 400 * era' + 100 * c' + 4 * q' + s'
    ensures era == era' && c == c' && q == q' && s == s'
  {
    assert (400 * era + 100 * c + 4 * q + s) / 400 == era;
    assert (400 * era' + 100 * c' + 4 * q' + s') / 400 == era';
    assert (100 * c + 4 * q + s) / 100 == c;
    assert (100 * c' + 4 * q' + s') / 100 == c';
  }

  lemma NextYearStart(era: int, c: int, q: int, s: int, era': int, c': int, q': int, s': int)
    requires EraSplit(c, q, s, 0) && EraSplit(c', q', s', 0)
    requires 400 * era + 100 * c + 4 * q + s + 1 == 400 * era' + 100 * c' + 4 * q' + s'
    ensures
      146097 * era' + (36524 * c' + 1461 * q' + 365 * s')
      == 146097 * era + (36524 * c + 1461 * q + 365 * s)
         + (if s == 3 && (q < 24 || c == 3) then 366 else 365)
  {
    if s < 3 {
      SplitIsUnique(era, c, q, s + 1, era', c', q', s');
    } else if q < 24 {
      SplitIsUnique(era, c, q + 1, 0, era', c', q', s');
    } else if c < 3 {
      SplitIsUnique(era, c + 1, 0, 0, era', c', q', s');
    } else {
      SplitIsUnique(era + 1, 0, 0, 0, era', c', q', s');
    }
  }

  lemma MonthOfDay(doy: int)
    requires 0 <= doy < 366
    ensures
      var mp := (5 * doy + 2) / 153;
      var day := doy - (153 * mp + 2) / 5 + 1;
      && 0 <= mp < 12
      && 1 <= day <= (if mp == 11 then 29 else if mp in {1, 3, 6, 8} then 30 else 31)
      && (day == 29 && mp == 11 <==> doy == 365)
  {
  }

  lemma DaysFromCivilIsInverse(days: int)
    ensures ValidDate(CivilFromDays(days))
    ensures DaysFromCivil(CivilFromDays(days)) == days
  {
    hide CivilFromDays, DaysFromCivil;
    var z := days + 719468;
    var era := z / 146097;
    var c, q, s, doy := SplitOfEraDay(z - era * 146097);
    CivilOfSplit(era, c, q, s, doy);
    var d := CivilFromDays(days);
    LeapOfSplit(era, c, q, s);
    MonthOfDay(doy);
    assert ValidDate(d) by { hide EraSplit; }
    hide IsLeap, ValidDate, DaysInMonth;
    var era', c', q', s', doy' := DaysOfValidDate(d);
    SplitIsUnique(era, c, q, s, era', c', q', s');
  }

  lemma EpochIsDayZero()
    ensures CivilFromDays(0) == Date(1970, 1, 1)
  {
    var epoch := Date(1970, 1, 1);
    assert 1969 / 400 == 4 && EraDay(369) == 134774;
    assert DaysFromCivil(epoch) == 0 by { hide EraDay; }
    hide CivilFromDays, DaysFromCivil;
    CivilFromDaysIsInverse(epoch);
  }

  lemma NextDayIsNextDate(days: int)
    ensures CivilFromDays(0) == Date(1970, 1, 1)
    ensures CivilFromDays(days + 1) == NextDate(CivilFromDays(days))
  {
    hide CivilFromDays, DaysFromCivil, NextDate;
    EpochIsDayZero();
    DaysFromCivilIsInverse(days);
    NextDateIsOneDayLater(CivilFromDays(days));
    CivilFromDaysIsInverse(NextDate(CivilFromDays(days)));
  }

  lemma NextDateIsOneDayLater(d: Date)
    requires ValidDate(d)
    ensures ValidDate(NextDate(d))
    ensures DaysFromCivil(NextDate(d)) == DaysFromCivil(d) + 1
  {
    hide DaysFromCivil;
    var era, c, q, s, doy := DaysOfValidDate(d);
    var era', c', q', s', doy' := DaysOfValidDate(NextDate(d));
    LeapOfSplit(era, c, q, s);
    hide IsLeap;
    if d.month == 2 && d.day == DaysInMonth(d.year, 2) {
      NextYearStart(era, c, q, s, era', c', q', s');
    } else {
      SplitIsUnique(era, c, q, s, era', c', q', s');
    }
  }

  /** Later days are later dates: the calendar order is the order of days. */
  lemma {:induction false} CivilIsMonotone(days: int, later: int)
    requires days < later
    ensures DateBefore(CivilFromDays(days), CivilFromDays(later))
    decreases later - days
  {
    hide CivilFromDays;
    NextDayIsNextDate(later - 1);
    DaysFromCivilIsInverse(later - 1);
    if days < later - 1 {
      CivilIsMonotone(days, later - 1);
    }
  }

  // ----- Date-times ----------------------------------------------------------

  function UnixSecsToDateTime(secs: int): DateTime {
    var secondsOfDay := secs % SECONDS_PER_DAY;
    DateTime(CivilFromDays(secs / SECONDS_PER_DAY),
             secondsOfDay / 3600, secondsOfDay % 3600 / 60, secondsOfDay % 60)
  }

  function DateTimeToUnixSecs(t: DateTime): int {
    DaysFromCivil(t.date) * SECONDS_PER_DAY + t.hour * 3600 + t.minute * 60 + t.second
  }

  predicate DateTimeBefore(a: DateTime, b: DateTime) {
    || DateBefore(a.date, b.date)
    || (a.date == b.date
        && (a.hour < b.hour
            || (a.hour == b.hour
                && (a.minute < b.minute || (a.minute == b.minute && a.second < b.second)))))
  }

  lemma DateTimeRoundTrip(t: DateTime)
    requires ValidDateTime(t)
    ensures UnixSecsToDateTime(DateTimeToUnixSecs(t)) == t
  {
    hide CivilFromDays, DaysFromCivil, ValidDate;
    CivilFromDaysIsInverse(t.date);
    ClockSplits(DaysFromCivil(t.date), t.hour, t.minute, t.second);
  }

  lemma ClockSplits(days: int, hour: int, minute: int, second: int)
    requires 0 <= hour < 24 && 0 <= minute < 60 && 0 <= second < 60
    ensures
      var secs := days * SECONDS_PER_DAY + hour * 3600 + minute * 60 + second;
      && secs / SECONDS_PER_DAY == days
      && secs % SECONDS_PER_DAY == hour * 3600 + minute * 60 + second
      && secs % SECONDS_PER_DAY / 3600 == hour
      && secs % SECONDS_PER_DAY % 3600 / 60 == minute
      && secs % SECONDS_PER_DAY % 60 == second
  {
    var rest := hour * 3600 + minute * 60 + second;
    assert 0 <= rest < SECONDS_PER_DAY;
    assert rest / 3600 == hour && rest % 3600 == minute * 60 + second;
    assert rest % 60 == second;
  }

  lemma UnixSecsRoundTrip(secs: int)
    ensures ValidDateTime(UnixSecsToDateTime(secs))
    ensures DateTimeToUnixSecs(UnixSecsToDateTime(secs)) == secs
  {
    hide CivilFromDays, DaysFromCivil, ValidDate;
    DaysFromCivilIsInverse(secs / SECONDS_PER_DAY);
  }

  lemma DateTimeIsMonotone(secs: int, later: int)
    requires secs < later
    ensures DateTimeBefore(UnixSecsToDateTime(secs), UnixSecsToDateTime(later))
  {
    hide CivilFromDays, DateBefore;
    if secs / SECONDS_PER_DAY < later / SECONDS_PER_DAY {
      CivilIsMonotone(secs / SECONDS_PER_DAY, later / SECONDS_PER_DAY);
    } else {
      DateTimeOrder(UnixSecsToDateTime(secs), UnixSecsToDateTime(later), secs, later);
    }
  }

  lemma DateTimeOrder(t: DateTime, t': DateTime, secs: int, later: int)
    requires secs < later && secs / SECONDS_PER_DAY == later / SECONDS_PER_DAY
    requires t == UnixSecsToDateTime(secs) && t' == UnixSecsToDateTime(later)
    ensures t.date == t'.date && DateTimeBefore(t, t')
  {
    UnixSecsRoundTrip(secs);
    UnixSecsRoundTrip(later);
    assert t.date == t'.date;
    hide CivilFromDays, DateBefore, UnixSecsToDateTime, DaysFromCivil, ValidDate;
  }
}

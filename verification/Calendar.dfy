/** Unix time and the Gregorian calendar (kernel/src/level0a/drivers/rtc.rs), after section 4.16 of the
    POSIX.1-2017 Base Definitions: the two conversions undo each other, and the day count is the one the
    calendar's own rules give. */
module Calendar {
  const WORD: int := 0x1_0000_0000
  const DAY: nat := 86400

  datatype Date = Date(year: int, month: int, day: int)
  datatype DateTime = DateTime(date: Date, hour: int, minute: int, second: int)

  /** Division that truncates toward zero. */
  function Quotient(a: int, b: int): int
    requires b > 0
  {
    if a >= 0 then a / b else -((-a) / b)
  }

  // ---- the code -----------------------------------------------------------------------------------

  /** The days of the year before a date, counted from March. */
  function DayOfYear(month: int, day: int): int {
    (153 * (if month > 2 then month - 3 else month + 9) + 2) / 5 + day - 1
  }

  /** `days_from_civil`, before the result is cut to 32 bits. */
  function DayNumber(d: Date): int {
    var y := if d.month <= 2 then d.year - 1 else d.year;
    var era := Quotient(if y >= 0 then y else y - 399, 400);
    var yoe := y - era * 400;
    var doe := yoe * 365 + yoe / 4 - yoe / 100 + DayOfYear(d.month, d.day);
    era * 146097 + doe - 719468
  }

  function DaysFromCivil(d: Date): int {
    DayNumber(d) % WORD
  }

  /** The sum in `unix_time`, in 32-bit words. */
  function UnixTime(t: DateTime): int {
    (DaysFromCivil(t.date) * DAY + t.hour * 3600 + t.minute * 60 + t.second) % WORD
  }

  function YearOfEra(doe: int): int {
    (doe - doe / 1460 + doe / 36524 - doe / 146096) / 365
  }

  /** The date part of `from_unix`. */
  function CivilFromDays(days: int): Date {
    var z := days + 719468;
    var era := Quotient(if z >= 0 then z else z - 146096, 146097);
    var doe := z - era * 146097;
    var yoe := YearOfEra(doe);
    var y := yoe + era * 400;
    var doy := doe - (365 * yoe + yoe / 4 - yoe / 100);
    var mp := (5 * doy + 2) / 153;
    var month := if mp < 10 then mp + 3 else mp - 9;
    Date(if month <= 2 then y + 1 else y, month, doy - (153 * mp + 2) / 5 + 1)
  }

  function FromUnix(epoch: int): DateTime {
    var seconds := epoch % DAY;
    DateTime(CivilFromDays(epoch / DAY), seconds / 3600, seconds % 3600 / 60, seconds % 60)
  }

  // ---- the calendar -------------------------------------------------------------------------------

  predicate IsLeap(year: int) {
    year % 4 == 0 && (year % 100 != 0 || year % 400 == 0)
  }

  function DaysOf(month: int, leap: bool): int {
    if month == 2 then (if leap then 29 else 28)
    else if month == 4 || month == 6 || month == 9 || month == 11 then 30 else 31
  }

  function MonthLength(year: int, month: int): int {
    DaysOf(month, IsLeap(year))
  }

  predicate ValidDate(d: Date) {
    1 <= d.month <= 12 && 1 <= d.day <= MonthLength(d.year, d.month)
  }

  predicate ValidTime(t: DateTime) {
    ValidDate(t.date) && 0 <= t.hour < 24 && 0 <= t.minute < 60 && 0 <= t.second < 60
  }

  /** The calendar's own rule for the next day. */
  function NextDay(d: Date): Date {
    if d.day < MonthLength(d.year, d.month) then d.(day := d.day + 1)
    else if d.month < 12 then Date(d.year, d.month + 1, 1)
    else Date(d.year + 1, 1, 1)
  }

  // ---- years of an era ------------------------------------------------------------------------------

  /** The year of an era starts in March, so its leap day comes last. */
  predicate LongYear(yoe: int) {
    yoe % 4 == 3 && (yoe % 100 != 99 || yoe == 399)
  }

  function YearStart(yoe: int): int {
    365 * yoe + yoe / 4 - yoe / 100
  }

  /** The correction in `YearOfEra` finds the year from any of its days. */
  lemma YearFound(yoe: int, doy: int)
    requires 0 <= yoe < 400 && 0 <= doy <= (if LongYear(yoe) then 365 else 364)
    ensures YearOfEra(YearStart(yoe) + doy) == yoe && 0 <= YearStart(yoe) + doy < 146097
  {
    var c, q, r := yoe / 100, yoe % 100 / 4, yoe % 4;
    assert yoe == 100 * c + 4 * q + r && 0 <= c <= 3 && 0 <= q <= 24 && 0 <= r <= 3;
    var doe := YearStart(yoe) + doy;
    assert yoe / 4 == 25 * c + q;
    assert doe == 36524 * c + 1461 * q + 365 * r + doy;
    YearDigits(c, q, r, doy, doe);
  }

  lemma YearDigits(c: int, q: int, r: int, doy: int, doe: int)
    requires 0 <= c <= 3 && 0 <= q <= 24 && 0 <= r <= 3 && doe == 36524 * c + 1461 * q + 365 * r + doy
    requires 0 <= doy <= (if r == 3 && (q != 24 || c == 3) then 365 else 364)
    ensures YearOfEra(doe) == 100 * c + 4 * q + r && 0 <= doe < 146097
  {
    var late := if 24 * c + q + 365 * r + doy >= 1460 then 1 else 0;
    assert doe / 1460 == 25 * c + q + late;
    assert doe / 36524 - doe / 146096 == c;
    assert doe - doe / 1460 + doe / 36524 - doe / 146096 == 365 * (100 * c + 4 * q + r) + (doy - late);
    assert 0 <= doy - late < 365;
  }

  /** Months are found from the day of the year. */
  lemma MonthFound(month: int, day: int, leap: bool)
    requires 1 <= month <= 12
    requires 1 <= day <= DaysOf(month, leap)
    ensures var doy, mp := DayOfYear(month, day), (if month > 2 then month - 3 else month + 9);
            && 0 <= doy <= (if month == 2 && day == 29 then 365 else 364)
            && (5 * doy + 2) / 153 == mp && doy - (153 * mp + 2) / 5 + 1 == day
  {
    if month == 1 {} else if month == 2 {} else if month == 3 {} else if month == 4 {}
    else if month == 5 {} else if month == 6 {} else if month == 7 {} else if month == 8 {}
    else if month == 9 {} else if month == 10 {} else if month == 11 {} else {}
  }

  // ---- the theorems ---------------------------------------------------------------------------------

  /** The correction before a truncating division makes it round down, for years and for days. */
  lemma RoundsDown(a: int)
    ensures Quotient(if a >= 0 then a else a - 399, 400) == a / 400
    ensures Quotient(if a >= 0 then a else a - 146096, 146097) == a / 146097
  {
  }

  /** A date as the era, year and day the code computes with. */
  lemma DayNumberParts(d: Date)
    requires ValidDate(d)
    ensures var y := if d.month <= 2 then d.year - 1 else d.year;
            var era, yoe, doy := y / 400, y % 400, DayOfYear(d.month, d.day);
            && DayNumber(d) + 719468 == 146097 * era + YearStart(yoe) + doy
            && 0 <= doy <= (if LongYear(yoe) then 365 else 364)
  {
    RoundsDown(if d.month <= 2 then d.year - 1 else d.year);
    MonthFound(d.month, d.day, IsLeap(d.year));
    LeapIsLong(d.year);
  }

  lemma LeapIsLong(year: int)
    ensures IsLeap(year) <==> LongYear((year - 1) % 400)
  {
    var era, r := (year - 1) / 400, (year - 1) % 400;
    assert year == 400 * era + (r + 1);
    WithinEra(era, r + 1);
    OfEra(era, r + 1);
    NextRemainders(r);
  }

  lemma OfEra(era: int, k: int)
    ensures (400 * era + k) % 400 == k % 400
  {
  }

  lemma NextRemainders(r: int)
    requires 0 <= r < 400
    ensures (r + 1) % 4 == 0 <==> r % 4 == 3
    ensures (r + 1) % 100 == 0 <==> r % 100 == 99
    ensures (r + 1) % 400 == 0 <==> r == 399
  {
  }

  lemma WithinEra(era: int, k: int)
    requires 1 <= k <= 400
    ensures (400 * era + k) % 4 == k % 4 && (400 * era + k) % 100 == k % 100
  {
    Remainders(100 * era + k / 4, k % 4, 4 * era + k / 100, k % 100);
    assert 400 * era + k == 4 * (100 * era + k / 4) + k % 4;
    assert 400 * era + k == 100 * (4 * era + k / 100) + k % 100;
  }

  lemma Remainders(a: int, r: int, b: int, s: int)
    requires 0 <= r < 4 && 0 <= s < 100
    ensures (4 * a + r) % 4 == r && (100 * b + s) % 100 == s
  {
  }

  /** Every date comes back from its day count. */
  lemma DateRoundTrip(d: Date)
    requires ValidDate(d)
    ensures CivilFromDays(DayNumber(d)) == d
  {
    hide YearOfEra, LongYear, DayNumber, Quotient, DaysOf, IsLeap;
    DayNumberParts(d);
    var y := if d.month <= 2 then d.year - 1 else d.year;
    var era, yoe, doy := y / 400, y % 400, DayOfYear(d.month, d.day);
    YearFound(yoe, doy);
    var doe := YearStart(yoe) + doy;
    assert (146097 * era + doe) / 146097 == era;
    RoundsDown(DayNumber(d) + 719468);
    MonthFound(d.month, d.day, IsLeap(d.year));
  }

  /** The count of the next day is one more: the code counts what the calendar counts. */
  lemma NextDayCounts(d: Date)
    requires ValidDate(d)
    ensures ValidDate(NextDay(d)) && DayNumber(NextDay(d)) == DayNumber(d) + 1
  {
    hide Quotient, IsLeap;
    var n := NextDay(d);
    if d.day == MonthLength(d.year, d.month) {
      if d.month == 2 {
        NewYear(d.year);
      } else if d.month == 12 {
      } else {
      }
    }
  }

  lemma NextDayLater(d: Date)
    ensures NextDay(d).year >= d.year
  {
  }

  /** March 1 follows the last day of February. */
  lemma NewYear(year: int)
    ensures DayNumber(Date(year, 3, 1)) == DayNumber(Date(year, 2, MonthLength(year, 2))) + 1
  {
    hide DayNumber, YearStart, LongYear;
    var last := Date(year, 2, MonthLength(year, 2));
    DayNumberParts(Date(year, 3, 1));
    DayNumberParts(last);
    LeapIsLong(year);
    assert DayOfYear(3, 1) == 0 && DayOfYear(2, last.day) == (if LongYear((year - 1) % 400) then 365 else 364);
    NextYear(year - 1);
  }

  lemma NextYear(y: int)
    ensures 146097 * ((y + 1) / 400) + YearStart((y + 1) % 400)
         == 146097 * (y / 400) + YearStart(y % 400) + (if LongYear(y % 400) then 366 else 365)
  {
    var era, yoe := y / 400, y % 400;
    assert y == 400 * era + yoe;
    YearLength(yoe);
    if yoe == 399 {
      assert (y + 1) / 400 == era + 1 && (y + 1) % 400 == 0;
      assert YearStart(399) == 145731 && YearStart(0) == 0;
    } else {
      assert (y + 1) / 400 == era && (y + 1) % 400 == yoe + 1;
    }
  }

  lemma YearLength(yoe: int)
    requires 0 <= yoe < 400
    ensures yoe < 399 ==> YearStart(yoe + 1) - YearStart(yoe) == (if LongYear(yoe) then 366 else 365)
  {
  }

  /** The date `n` days after January 1, 1970, by the calendar's own rule. */
  function DateAfter(n: nat): Date {
    if n == 0 then Date(1970, 1, 1) else NextDay(DateAfter(n - 1))
  }

  /** The two conversions are inverse on the calendar's own sequence of days. */
  lemma {:induction false} CivilIsCalendar(n: nat)
    ensures ValidDate(DateAfter(n)) && DateAfter(n).year >= 1970
    ensures DayNumber(DateAfter(n)) == n && CivilFromDays(n) == DateAfter(n)
  {
    hide CivilFromDays, NextDay;
    if n > 0 {
      CivilIsCalendar(n - 1);
      NextDayCounts(DateAfter(n - 1));
      NextDayLater(DateAfter(n - 1));
    } else {
      assert DayNumber(Date(1970, 1, 1)) == 0;
    }
    DateRoundTrip(DateAfter(n));
  }

  /** From seconds to the calendar and back, for every 32-bit count. */
  lemma SecondsRoundTrip(epoch: int)
    requires 0 <= epoch < WORD
    ensures ValidTime(FromUnix(epoch)) && FromUnix(epoch).date == DateAfter(epoch / DAY)
      && UnixTime(FromUnix(epoch)) == epoch
  {
    hide CivilFromDays, DayNumber, NextDay, DateAfter, ValidDate;
    CivilIsCalendar(epoch / DAY);
    var s := epoch % DAY;
    assert epoch == epoch / DAY * DAY + s && 0 <= epoch / DAY < WORD;
    assert s / 3600 * 3600 + s % 3600 / 60 * 60 + s % 60 == s;
  }

  /** The seconds from January 1, 1970 to a date and time, without any limit. */
  function Seconds(t: DateTime): int {
    DayNumber(t.date) * DAY + t.hour * 3600 + t.minute * 60 + t.second
  }

  /** The sum is cut to a word once, however often the code cuts it. */
  lemma UnixTimeIsSeconds(t: DateTime)
    ensures UnixTime(t) == Seconds(t) % WORD
  {
    var n, s := DayNumber(t.date), t.hour * 3600 + t.minute * 60 + t.second;
    var q, r := n / WORD, n % WORD;
    assert n == q * WORD + r;
    assert n * DAY + s == (q * DAY) * WORD + (r * DAY + s);
    WordsDropped(q * DAY, r * DAY + s);
  }

  lemma WordsDropped(k: int, x: int)
    ensures (k * WORD + x) % WORD == x % WORD
  {
  }

  lemma DayAndSeconds(n: int, s: int)
    requires 0 <= s < DAY
    ensures (n * DAY + s) / DAY == n && (n * DAY + s) % DAY == s
  {
  }

  /** From a date and time to seconds and back, for every valid date: it comes back exactly when its seconds
      fit into a word. */
  lemma DateTimeRoundTrip(t: DateTime)
    requires ValidTime(t)
    ensures FromUnix(UnixTime(t)) == t <==> 0 <= Seconds(t) < WORD
  {
    hide CivilFromDays, DayNumber, ValidDate, UnixTime, FromUnix;
    UnixTimeIsSeconds(t);
    var n, s := DayNumber(t.date), t.hour * 3600 + t.minute * 60 + t.second;
    if 0 <= Seconds(t) < WORD {
      DateRoundTrip(t.date);
      DayAndSeconds(n, s);
      FromUnixIs(t, n, s);
    } else if FromUnix(UnixTime(t)) == t {
      SecondsRoundTrip(UnixTime(t));
      SecondsBack(UnixTime(t));
    }
  }

  lemma FromUnixIs(t: DateTime, n: int, s: int)
    requires 0 <= t.hour < 24 && 0 <= t.minute < 60 && 0 <= t.second < 60
      && s == t.hour * 3600 + t.minute * 60 + t.second
    requires CivilFromDays(n) == t.date
    ensures FromUnix(n * DAY + s) == t
  {
    hide CivilFromDays;
    DayAndSeconds(n, s);
    assert s / 3600 == t.hour && s % 3600 == t.minute * 60 + t.second;
  }

  /** The date and time of a second count lie that many seconds after 1970. */
  lemma SecondsBack(epoch: int)
    requires 0 <= epoch < WORD
    ensures Seconds(FromUnix(epoch)) == epoch
  {
    hide CivilFromDays, DayNumber;
    CivilIsCalendar(epoch / DAY);
    var s := epoch % DAY;
    assert s / 3600 * 3600 + s % 3600 / 60 * 60 + s % 60 == s;
  }

  lemma DayNumberBound(d: Date)
    requires ValidDate(d) && 1970 <= d.year <= 2105
    ensures 0 <= DayNumber(d) <= 49672
  {
    hide DayNumber;
    DayNumberParts(d);
  }

  /** In the years the clock can show nothing overflows. */
  lemma NoOverflow(t: DateTime)
    requires ValidTime(t) && 2000 <= t.date.year <= 2099
    ensures 0 <= Seconds(t) < WORD && UnixTime(t) == Seconds(t) && FromUnix(UnixTime(t)) == t
  {
    hide DayNumber, ValidDate, UnixTime, FromUnix;
    DayNumberBound(t.date);
    DateTimeRoundTrip(t);
    UnixTimeIsSeconds(t);
  }

  /** The seconds of the year 2106 no longer all fit. */
  lemma OverflowsIn2106()
    ensures var t := DateTime(Date(2106, 12, 31), 0, 0, 0);
            ValidTime(t) && FromUnix(UnixTime(t)) != t
  {
    assert DayNumber(Date(2106, 12, 31)) == 50037;
    DateTimeRoundTrip(DateTime(Date(2106, 12, 31), 0, 0, 0));
  }
}

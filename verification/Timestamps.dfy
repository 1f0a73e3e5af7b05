/** The text form of instants that `Date.prototype.toISOString` writes, its order, and reading it back. */
module Timestamps {
  import opened Wrappers
  import opened Text

  datatype Moment = Moment(year: int, month: int, day: int, hour: int, minute: int, second: int, millisecond: int)

  predicate IsLeap(year: int) {
    year % 4 == 0 && (year % 100 != 0 || year % 400 == 0)
  }

  function DaysInMonth(year: int, month: int): int {
    if month == 2 then (if IsLeap(year) then 29 else 28)
    else if month in {4, 6, 9, 11} then 30 else 31
  }

  /** A date of the proleptic Gregorian calendar, as far as the text form goes. */
  predicate IsCalendar(m: Moment) {
    && -999999 <= m.year <= 999999 && 1 <= m.month <= 12 && 1 <= m.day <= DaysInMonth(m.year, m.month)
    && 0 <= m.hour < 24 && 0 <= m.minute < 60 && 0 <= m.second < 60 && 0 <= m.millisecond < 1000
  }

  // ---------------------------------------------------------------- instants

  /** The days between the first of January of the year 0 and of another year. */
  function DaysBeforeYear(year: int): int {
    365 * year + (year + 3) / 4 - (year + 99) / 100 + (year + 399) / 400
  }

  function DaysBeforeMonth(year: int, month: nat): int {
    if month <= 1 then 0 else DaysBeforeMonth(year, month - 1) + DaysInMonth(year, month - 1)
  }

  const DAYS_BEFORE_1970 := 719528

  /** Milliseconds since 1970. */
  function Epoch(m: Moment): int
    requires m.month >= 1
  {
    var days := DaysBeforeYear(m.year) + DaysBeforeMonth(m.year, m.month) + m.day - 1 - DAYS_BEFORE_1970;
    (((days * 24 + m.hour) * 60 + m.minute) * 60 + m.second) * 1000 + m.millisecond
  }

  function DaysInYear(year: int): int {
    if IsLeap(year) then 366 else 365
  }

  /** How often a number of years has come round before a year. */
  function Rounds(year: int, n: int): int
    requires n > 0
  {
    (year + n - 1) / n
  }

  lemma YearLength(year: int)
    ensures DaysBeforeYear(year + 1) == DaysBeforeYear(year) + DaysInYear(year)
  {
    hide Rounds;
    RoundsGrow(year, 4);
    RoundsGrow(year, 100);
    RoundsGrow(year, 400);
    DaysByRounds(year);
    DaysByRounds(year + 1);
    hide DaysBeforeYear;
    MultiplesOf400(year);
    MultiplesOf100(year);
  }

  lemma DaysByRounds(year: int)
    ensures DaysBeforeYear(year) == 365 * year + Rounds(year, 4) - Rounds(year, 100) + Rounds(year, 400)
  {}

  lemma RoundsGrow(year: int, n: int)
    requires n == 4 || n == 100 || n == 400
    ensures Rounds(year + 1, n) == Rounds(year, n) + if year % n == 0 then 1 else 0
  {}

  lemma MultiplesOf400(year: int)
    ensures year % 400 == 0 ==> year % 100 == 0
  {
    assert year == year / 400 * 400 + year % 400;
    assert year / 400 * 400 == (year / 400 * 4) * 100;
  }

  lemma MultiplesOf100(year: int)
    ensures year % 100 == 0 ==> year % 4 == 0
  {
    assert year == year / 100 * 100 + year % 100;
    assert year / 100 * 100 == (year / 100 * 25) * 4;
  }

  lemma {:induction false} YearsGrow(a: int, b: int)
    requires a < b
    ensures DaysBeforeYear(a) + DaysInYear(a) <= DaysBeforeYear(b)
    decreases b - a
  {
    YearLength(b - 1);
    if a < b - 1 {
      YearsGrow(a, b - 1);
    } else {
      assert a == b - 1;
    }
  }

  lemma MonthsFill(year: int)
    ensures DaysBeforeMonth(year, 12) + DaysInMonth(year, 12) == DaysInYear(year)
  {
    assert DaysBeforeMonth(year, 2) == 31;
    assert DaysBeforeMonth(year, 4) == DaysInMonth(year, 2) + 62;
    assert DaysBeforeMonth(year, 6) == DaysInMonth(year, 2) + 123;
    assert DaysBeforeMonth(year, 8) == DaysInMonth(year, 2) + 184;
    assert DaysBeforeMonth(year, 10) == DaysInMonth(year, 2) + 245;
    assert DaysBeforeMonth(year, 12) == DaysInMonth(year, 2) + 306;
  }

  lemma {:induction false} MonthsGrow(year: int, a: nat, b: nat)
    requires 1 <= a < b
    ensures DaysBeforeMonth(year, a) + DaysInMonth(year, a) <= DaysBeforeMonth(year, b)
    decreases b
  {
    if a < b - 1 {
      MonthsGrow(year, a, b - 1);
    }
  }

  /** The order of calendar and clock fields. */
  predicate Before(a: Moment, b: Moment) {
    || a.year < b.year
    || (a.year == b.year &&
        (|| a.month < b.month
         || (a.month == b.month &&
             (|| a.day < b.day
              || (a.day == b.day && MillisecondOfDay(a) < MillisecondOfDay(b))))))
  }

  function MillisecondOfDay(m: Moment): int {
    ((m.hour * 60 + m.minute) * 60 + m.second) * 1000 + m.millisecond
  }

  function DayNumber(m: Moment): int
    requires m.month >= 1
  {
    DaysBeforeYear(m.year) + DaysBeforeMonth(m.year, m.month) + m.day
  }

  lemma DayOrder(a: Moment, b: Moment)
    requires IsCalendar(a) && IsCalendar(b)
    requires a.year < b.year || (a.year == b.year && (a.month < b.month || (a.month == b.month && a.day < b.day)))
    ensures DayNumber(a) < DayNumber(b)
  {
    hide DaysBeforeYear, DaysBeforeMonth, DaysInYear;
    if a.year < b.year {
      YearsGrow(a.year, b.year);
      MonthsFill(a.year);
      MonthsAreCounted(b.year, b.month);
      if a.month < 12 {
        MonthsGrow(a.year, a.month, 12);
      }
    } else if a.month < b.month {
      MonthsGrow(a.year, a.month, b.month);
    }
  }

  lemma {:induction false} MonthsAreCounted(year: int, month: nat)
    ensures DaysBeforeMonth(year, month) >= 0
  {
    if month > 1 {
      MonthsAreCounted(year, month - 1);
    }
  }

  /** Earlier fields mean an earlier instant. */
  lemma EpochIsMonotone(a: Moment, b: Moment)
    requires IsCalendar(a) && IsCalendar(b) && Before(a, b)
    ensures Epoch(a) < Epoch(b)
  {
    hide DaysBeforeYear, DaysBeforeMonth, DaysInMonth;
    EpochByDay(a);
    EpochByDay(b);
    if a.year != b.year || a.month != b.month || a.day != b.day {
      DayOrder(a, b);
    }
  }

  lemma EpochByDay(m: Moment)
    requires IsCalendar(m)
    ensures Epoch(m) == (DayNumber(m) - 1 - DAYS_BEFORE_1970) * 86400000 + MillisecondOfDay(m)
    ensures 0 <= MillisecondOfDay(m) < 86400000
  {
    hide DaysBeforeYear, DaysBeforeMonth, DaysInMonth;
  }

  // ---------------------------------------------------------------- text

  /** A number with leading zeros. */
  function Padded(n: nat, width: nat): string {
    if width == 0 then "" else Padded(n / 10, width - 1) + [Digit(n % 10)]
  }

  function Power10(width: nat): nat {
    if width == 0 then 1 else 10 * Power10(width - 1)
  }

  /** Four digits for the years 0 to 9999, a sign and six digits for the others. */
  function YearText(year: int): string {
    if 0 <= year <= 9999 then Padded(year, 4)
    else if year < 0 then "-" + Padded(-year, 6)
    else "+" + Padded(year, 6)
  }

  function Then(separator: string, field: string, rest: string): string {
    separator + (field + rest)
  }

  function Format(m: Moment): string
    requires IsCalendar(m)
  {
    YearText(m.year) + Then("-", Padded(m.month, 2), Then("-", Padded(m.day, 2), ClockText(m)))
  }

  function ClockText(m: Moment): string
    requires IsCalendar(m)
  {
    Then("T", Padded(m.hour, 2),
         Then(":", Padded(m.minute, 2), Then(":", Padded(m.second, 2), Then(".", Padded(m.millisecond, 3), "Z"))))
  }

  lemma {:induction false} LessAfterPrefix(p: string, x: string, y: string)
    ensures Less(p + x, p + y) <==> Less(x, y)
  {
    if p == "" {
      assert p + x == x && p + y == y;
    } else {
      LessAfterPrefix(p[1..], x, y);
      assert (p + x)[1..] == p[1..] + x && (p + y)[1..] == p[1..] + y;
    }
  }

  /** Texts of the same length are compared before what follows them. */
  lemma {:induction false} LessByParts(a: string, b: string, x: string, y: string)
    requires |a| == |b|
    ensures Less(a + x, b + y) <==> Less(a, b) || (a == b && Less(x, y))
  {
    if a == "" {
      assert a + x == x && b + y == y;
    } else {
      LessByParts(a[1..], b[1..], x, y);
      assert (a + x)[1..] == a[1..] + x && (b + y)[1..] == b[1..] + y;
      assert a == [a[0]] + a[1..] && b == [b[0]] + b[1..];
    }
  }

  /** Numbers padded to the same width are ordered like the numbers. */
  lemma {:induction false} PaddedOrder(a: nat, b: nat, width: nat)
    requires a < Power10(width) && b < Power10(width)
    ensures |Padded(a, width)| == |Padded(b, width)| == width
    ensures Less(Padded(a, width), Padded(b, width)) <==> a < b
    ensures Padded(a, width) == Padded(b, width) <==> a == b
  {
    if width > 0 {
      PaddedOrder(a / 10, b / 10, width - 1);
      var s, t := Padded(a / 10, width - 1), Padded(b / 10, width - 1);
      LessByParts(s, t, [Digit(a % 10)], [Digit(b % 10)]);
      DigitOrder(a % 10, b % 10);
      assert Padded(a, width)[..width - 1] == s && Padded(b, width)[..width - 1] == t;
      assert Padded(a, width)[width - 1] == Digit(a % 10) && Padded(b, width)[width - 1] == Digit(b % 10);
      assert a == 10 * (a / 10) + a % 10 && b == 10 * (b / 10) + b % 10;
    }
  }

  lemma DigitOrder(d: nat, e: nat)
    requires d < 10 && e < 10
    ensures Less([Digit(d)], [Digit(e)]) <==> d < e
    ensures Digit(d) == Digit(e) <==> d == e
  {
    assert Less([Digit(d)], [Digit(e)]) <==> Digit(d) < Digit(e);
    assert Digit(d) as int == '0' as int + d && Digit(e) as int == '0' as int + e;
  }

  /** One field after a separator, then the rest. */
  lemma ThenOrder(separator: string, a: nat, b: nat, width: nat, x: string, y: string)
    requires a < Power10(width) && b < Power10(width)
    ensures Less(Then(separator, Padded(a, width), x), Then(separator, Padded(b, width), y)) <==>
              a < b || (a == b && Less(x, y))
  {
    LessAfterPrefix(separator, Padded(a, width) + x, Padded(b, width) + y);
    PaddedOrder(a, b, width);
    LessByParts(Padded(a, width), Padded(b, width), x, y);
  }

  lemma ClockOrder(a: Moment, b: Moment)
    requires IsCalendar(a) && IsCalendar(b)
    ensures Less(ClockText(a), ClockText(b)) <==> MillisecondOfDay(a) < MillisecondOfDay(b)
  {
    hide Less, Then, Padded, DaysInMonth;
    var za, zb := Then(".", Padded(a.millisecond, 3), "Z"), Then(".", Padded(b.millisecond, 3), "Z");
    var sa, sb := Then(":", Padded(a.second, 2), za), Then(":", Padded(b.second, 2), zb);
    var ma, mb := Then(":", Padded(a.minute, 2), sa), Then(":", Padded(b.minute, 2), sb);
    assert Power10(2) == 100 && Power10(3) == 1000;
    LessIsTotal("Z", "Z");
    ThenOrder(".", a.millisecond, b.millisecond, 3, "Z", "Z");
    ThenOrder(":", a.second, b.second, 2, za, zb);
    ThenOrder(":", a.minute, b.minute, 2, sa, sb);
    ThenOrder("T", a.hour, b.hour, 2, ma, mb);
  }

  /** A year after 9999 is written with a sign, and a sign sorts before every digit. */
  predicate YearTextBefore(a: int, b: int) {
    if (a > 9999) == (b > 9999) then a < b else a > 9999
  }

  lemma YearTextOrder(a: int, b: int, x: string, y: string)
    requires 0 <= a <= 999999 && 0 <= b <= 999999
    ensures Less(YearText(a) + x, YearText(b) + y) <==> YearTextBefore(a, b) || (a == b && Less(x, y))
  {
    assert Power10(4) == 10000 && Power10(6) == 1000000;
    if a <= 9999 && b <= 9999 {
      PaddedOrder(a, b, 4);
      LessByParts(YearText(a), YearText(b), x, y);
    } else if a > 9999 && b > 9999 {
      PaddedOrder(a, b, 6);
      LessAfterPrefix("+", Padded(a, 6), Padded(b, 6));
      assert YearText(a)[1..] == Padded(a, 6) && YearText(b)[1..] == Padded(b, 6);
      LessByParts(YearText(a), YearText(b), x, y);
    } else {
      PaddedDigits(if a <= 9999 then a else b, 4);
    }
  }

  lemma {:induction false} PaddedDigits(n: nat, width: nat)
    ensures |Padded(n, width)| == width && AllDigits(Padded(n, width))
  {
    if width > 0 {
      PaddedDigits(n / 10, width - 1);
      assert IsDigit(Digit(n % 10));
    }
  }

  /** Among instants of the years from 0 on, text order is instant order exactly up to the signs of large years. */
  lemma TextOrder(a: Moment, b: Moment)
    requires IsCalendar(a) && IsCalendar(b) && a.year >= 0 && b.year >= 0
    ensures Less(Format(a), Format(b)) <==>
              if (a.year > 9999) == (b.year > 9999) then Epoch(a) < Epoch(b) else a.year > 9999
  {
    hide Less, Then, Padded, ClockText, YearText, DaysInMonth, Epoch, MillisecondOfDay;
    assert Power10(2) == 100;
    var da, db := Then("-", Padded(a.day, 2), ClockText(a)), Then("-", Padded(b.day, 2), ClockText(b));
    ClockOrder(a, b);
    DayIsSmall(a);
    DayIsSmall(b);
    ThenOrder("-", a.day, b.day, 2, ClockText(a), ClockText(b));
    ThenOrder("-", a.month, b.month, 2, da, db);
    YearTextOrder(a.year, b.year, Then("-", Padded(a.month, 2), da), Then("-", Padded(b.month, 2), db));
    EpochOrder(a, b);
  }

  lemma DayIsSmall(m: Moment)
    requires IsCalendar(m)
    ensures 0 < m.day < 100 && 0 < m.month < 100
  {}

  lemma EpochOrder(a: Moment, b: Moment)
    requires IsCalendar(a) && IsCalendar(b)
    ensures Before(a, b) <==> Epoch(a) < Epoch(b)
  {
    hide Epoch, DaysInMonth;
    if Before(a, b) {
      EpochIsMonotone(a, b);
    } else if Before(b, a) {
      EpochIsMonotone(b, a);
    } else {
      SameEpoch(a, b);
    }
  }

  lemma SameEpoch(a: Moment, b: Moment)
    requires IsCalendar(a) && IsCalendar(b) && !Before(a, b) && !Before(b, a)
    ensures Epoch(a) == Epoch(b)
  {
    hide DaysBeforeYear, DaysBeforeMonth, DaysInMonth;
  }

  // ---------------------------------------------------------------- reading

  /** How far a JavaScript date reaches in either direction. */
  const LAST_INSTANT := 8640000000000000

  /** The moments a JavaScript date can stand for. */
  predicate IsDate(m: Moment) {
    IsCalendar(m) && -LAST_INSTANT <= Epoch(m) <= LAST_INSTANT
  }

  function Number(s: string): nat {
    if AllDigits(s) then NumeralValue(s) else 0
  }

  /** A field of a given width after a separator, and what follows. */
  function ReadField(s: string, width: nat): (nat, string) {
    if |s| <= width then (0, "") else (Number(s[1..width + 1]), s[width + 1..])
  }

  function ReadYear(s: string): (int, string) {
    if |s| < 7 then (0, "") else
      var signed: int := Number(s[1..7]);
      if s[0] == '+' then (signed, s[7..])
      else if s[0] == '-' then (-signed, s[7..])
      else (Number(s[..4]), s[4..])
  }

  function ReadMoment(s: string): Moment {
    var year := ReadYear(s);
    var month := ReadField(year.1, 2);
    var day := ReadField(month.1, 2);
    var hour := ReadField(day.1, 2);
    var minute := ReadField(hour.1, 2);
    var second := ReadField(minute.1, 2);
    var millisecond := ReadField(second.1, 3);
    Moment(year.0, month.0, day.0, hour.0, minute.0, second.0, millisecond.0)
  }

  /** The date a text is the canonical form of: parsing it and writing the result gives the text again. */
  function Canonical(text: string): (m: Option<Moment>)
    ensures m.Some? ==> IsDate(m.value) && Format(m.value) == text
  {
    var m := ReadMoment(text);
    if IsDate(m) && Format(m) == text then Some(m) else None
  }

  lemma {:induction false} PaddedValue(n: nat, width: nat)
    requires n < Power10(width)
    ensures |Padded(n, width)| == width && Number(Padded(n, width)) == n
  {
    PaddedDigits(n, width);
    if width > 0 {
      PaddedValue(n / 10, width - 1);
      PaddedDigits(n / 10, width - 1);
      var s := Padded(n, width);
      assert s[..width - 1] == Padded(n / 10, width - 1) && s[width - 1] == Digit(n % 10);
      assert DigitValue(Digit(n % 10)) == n % 10;
    }
  }

  lemma FieldBack(separator: string, n: nat, width: nat, rest: string)
    requires |separator| == 1 && n < Power10(width)
    ensures ReadField(Then(separator, Padded(n, width), rest), width) == (n, rest)
  {
    hide Padded, Number;
    PaddedValue(n, width);
    var s := Then(separator, Padded(n, width), rest);
    assert s[1..width + 1] == Padded(n, width) && s[width + 1..] == rest;
  }

  lemma YearBack(year: int, rest: string)
    requires -999999 <= year <= 999999 && |rest| >= 3
    ensures ReadYear(YearText(year) + rest) == (year, rest)
    ensures |YearText(year)| == if 0 <= year <= 9999 then 4 else 7
  {
    hide Padded, Number;
    assert Power10(4) == 10000 && Power10(6) == 1000000;
    var s := YearText(year) + rest;
    if 0 <= year <= 9999 {
      PaddedValue(year, 4);
      PaddedDigits(year, 4);
      assert IsDigit(Padded(year, 4)[0]) && s[..4] == Padded(year, 4) && s[4..] == rest;
    } else {
      var n := if year < 0 then -year else year;
      PaddedValue(n, 6);
      assert s[1..7] == Padded(n, 6) && s[7..] == rest;
    }
  }

  /** Every date is read back from its text, so no two dates share one. */
  lemma ReadBack(m: Moment)
    requires IsCalendar(m)
    ensures ReadMoment(Format(m)) == m
    ensures |Format(m)| == if 0 <= m.year <= 9999 then 24 else 27
  {
    hide Padded, Number, ReadField, ReadYear, YearText;
    assert Power10(2) == 100 && Power10(3) == 1000;
    DayIsSmall(m);
    var z := Then(".", Padded(m.millisecond, 3), "Z");
    var second := Then(":", Padded(m.second, 2), z);
    var minute := Then(":", Padded(m.minute, 2), second);
    var day := Then("-", Padded(m.day, 2), ClockText(m));
    var month := Then("-", Padded(m.month, 2), day);
    PaddedValue(m.month, 2); PaddedValue(m.day, 2); PaddedValue(m.hour, 2);
    PaddedValue(m.minute, 2); PaddedValue(m.second, 2); PaddedValue(m.millisecond, 3);
    YearBack(m.year, month);
    FieldBack("-", m.month, 2, day);
    FieldBack("-", m.day, 2, ClockText(m));
    FieldBack("T", m.hour, 2, minute);
    FieldBack(":", m.minute, 2, second);
    FieldBack(":", m.second, 2, z);
    FieldBack(".", m.millisecond, 3, "Z");
  }

  /** A text is canonical exactly if it is what some date is written as. */
  lemma CanonicalTexts(text: string, m: Moment)
    ensures Canonical(text) == Some(m) <==> IsDate(m) && Format(m) == text
  {
    hide Epoch, Format, ReadMoment, IsCalendar;
    if IsDate(m) && Format(m) == text {
      ReadBack(m);
    }
  }

  // ---------------------------------------------------------------- timestamps of evidence

  /** The instants of the years 0 to 9999. */
  const FIRST_TIME := -62167219200000
  const LAST_TIME := 253402300799999

  /** A timestamp of evidence: an instant, and whether its text shows the milliseconds. */
  datatype Stamp = Stamp(instant: int, milliseconds: bool)

  /** Four-digit years; only full seconds may be written without milliseconds. */
  predicate IsTime(s: Stamp) {
    FIRST_TIME <= s.instant <= LAST_TIME && (s.milliseconds || s.instant % 1000 == 0)
  }

  function YearFrom(days: nat, year: nat): (r: nat)
    requires DaysBeforeYear(year) <= days
    ensures DaysBeforeYear(r) <= days < DaysBeforeYear(r + 1)
    decreases days - DaysBeforeYear(year)
  {
    YearLength(year);
    if days < DaysBeforeYear(year + 1) then year else YearFrom(days, year + 1)
  }

  function MonthFrom(year: int, day: nat, month: nat): (r: nat)
    requires 1 <= month <= 12 && DaysBeforeMonth(year, month) <= day < DaysBeforeMonth(year, 12) + DaysInMonth(year, 12)
    ensures 1 <= r <= 12 && DaysBeforeMonth(year, r) <= day < DaysBeforeMonth(year, r) + DaysInMonth(year, r)
    decreases 12 - month
  {
    if day < DaysBeforeMonth(year, month) + DaysInMonth(year, month) then month else MonthFrom(year, day, month + 1)
  }

  /** The calendar date of an instant. */
  function MomentOf(instant: int): (m: Moment)
    requires FIRST_TIME <= instant
  {
    var days := instant / 86400000 + DAYS_BEFORE_1970;
    var year := YearFrom(days, 0);
    var day := days - DaysBeforeYear(year);
    YearFills(year, day);
    var month := MonthFrom(year, day, 1);
    AtClock(year, month, day - DaysBeforeMonth(year, month) + 1, instant % 86400000)
  }

  function AtClock(year: int, month: int, day: int, clock: int): Moment {
    Moment(year, month, day, clock / 3600000, clock / 60000 % 60, clock / 1000 % 60, clock % 1000)
  }

  lemma YearFills(year: int, day: int)
    requires 0 <= day && DaysBeforeYear(year) + day < DaysBeforeYear(year + 1)
    ensures day < DaysBeforeMonth(year, 12) + DaysInMonth(year, 12)
  {
    hide DaysBeforeMonth, DaysBeforeYear;
    YearLength(year);
    MonthsFill(year);
  }

  lemma ClockIsExact(year: int, month: int, day: int, clock: int)
    requires 0 <= clock < 86400000
    ensures var m := AtClock(year, month, day, clock);
            && MillisecondOfDay(m) == clock && 0 <= m.hour < 24 && 0 <= m.minute < 60 && 0 <= m.second < 60
            && 0 <= m.millisecond < 1000
  {
    var seconds, minutes := clock / 1000, clock / 60000;
    assert minutes == seconds / 60 && clock / 3600000 == minutes / 60;
    assert clock == seconds * 1000 + clock % 1000 && seconds == minutes * 60 + seconds % 60;
    assert minutes == minutes / 60 * 60 + minutes % 60;
  }

  /** The date of an instant stands for that instant, and its year has four digits. */
  lemma MomentIsExact(instant: int)
    requires FIRST_TIME <= instant <= LAST_TIME
    ensures var m := MomentOf(instant); IsDate(m) && 0 <= m.year <= 9999 && Epoch(m) == instant
  {
    hide DaysBeforeMonth, DaysInMonth, DaysBeforeYear, MillisecondOfDay, AtClock;
    var days, clock := instant / 86400000 + DAYS_BEFORE_1970, instant % 86400000;
    YearStarts(0);
    var year := YearFrom(days, 0);
    var day := days - DaysBeforeYear(year);
    YearFills(year, day);
    YearStarts(year);
    var month := MonthFrom(year, day, 1);
    var m := AtClock(year, month, day - DaysBeforeMonth(year, month) + 1, clock);
    assert m.year == year && m.month == month && m.day == day - DaysBeforeMonth(year, month) + 1 by {
      AtDate(year, month, day - DaysBeforeMonth(year, month) + 1, clock);
    }
    ClockIsExact(year, month, m.day, clock);
    FourDigitYear(year, days);
    EpochByDay(m);
  }

  lemma AtDate(year: int, month: int, day: int, clock: int)
    ensures var m := AtClock(year, month, day, clock); m.year == year && m.month == month && m.day == day
  {}

  lemma FourDigitYear(year: int, days: int)
    requires DaysBeforeYear(year) <= days <= LAST_TIME / 86400000 + DAYS_BEFORE_1970
    ensures year <= 9999
  {
    hide DaysBeforeYear, DaysInYear;
    YearStarts(year);
    if year > 10000 {
      YearsGrow(10000, year);
    }
  }

  lemma YearStarts(year: int)
    ensures DaysBeforeYear(0) == 0 && DaysBeforeYear(10000) == 3652425 && DaysBeforeMonth(year, 1) == 0
            && DaysInYear(10000) > 0
  {}

  /** Different dates are different instants. */
  lemma SameInstant(a: Moment, b: Moment)
    requires IsCalendar(a) && IsCalendar(b) && Epoch(a) == Epoch(b)
    ensures a == b
  {
    hide Epoch, DaysInMonth;
    EpochOrder(a, b);
    EpochOrder(b, a);
    SameClock(a, b);
  }

  lemma SameClock(a: Moment, b: Moment)
    requires IsCalendar(a) && IsCalendar(b) && MillisecondOfDay(a) == MillisecondOfDay(b)
    ensures a.hour == b.hour && a.minute == b.minute && a.second == b.second && a.millisecond == b.millisecond
  {
    hide DaysInMonth;
  }

  /** A text without its milliseconds: the last five characters give way to the final letter. */
  function Brief(text: string): string
    requires |text| >= 5
  {
    text[..|text| - 5] + "Z"
  }

  /** The text of a timestamp. */
  function StampText(s: Stamp): string
    requires IsTime(s)
  {
    MomentIsExact(s.instant);
    var m := MomentOf(s.instant);
    ReadBack(m);
    if s.milliseconds then Format(m) else Brief(Format(m))
  }

  /** What evidence accepts as a timestamp: a canonical text with a four-digit year, with or without ".000". */
  ghost predicate IsTimestampText(text: string) {
    exists m :: IsCalendar(m) && 0 <= m.year <= 9999 && IsTextOf(text, m)
  }

  ghost predicate IsTextOf(text: string, m: Moment)
    requires IsCalendar(m)
  {
    text == Format(m) || (m.millisecond == 0 && |Format(m)| >= 5 && text == Brief(Format(m)))
  }

  lemma FullSeconds(m: Moment)
    requires IsCalendar(m)
    ensures m.millisecond == 0 <==> Epoch(m) % 1000 == 0
  {
    hide DaysBeforeYear, DaysBeforeMonth, DaysInMonth;
  }

  lemma InRange(m: Moment)
    requires IsCalendar(m) && 0 <= m.year <= 9999
    ensures FIRST_TIME <= Epoch(m) <= LAST_TIME
  {
    hide Epoch;
    var first, last := Moment(0, 1, 1, 0, 0, 0, 0), Moment(9999, 12, 31, 23, 59, 59, 999);
    Ends();
    EpochOrder(m, first);
    EpochOrder(last, m);
  }

  lemma Ends()
    ensures IsCalendar(Moment(0, 1, 1, 0, 0, 0, 0)) && IsCalendar(Moment(9999, 12, 31, 23, 59, 59, 999))
    ensures Epoch(Moment(0, 1, 1, 0, 0, 0, 0)) == FIRST_TIME
    ensures Epoch(Moment(9999, 12, 31, 23, 59, 59, 999)) == LAST_TIME
  {
    MonthsFill(9999);
  }

  /** The texts of timestamps are exactly the accepted texts. */
  lemma StampTextsAreAccepted(text: string)
    ensures IsTimestampText(text) <==> exists s :: IsTime(s) && StampText(s) == text
  {
    hide Epoch, Format, DaysInMonth, MomentOf;
    if m :| IsCalendar(m) && 0 <= m.year <= 9999 && IsTextOf(text, m) {
      InRange(m);
      FullSeconds(m);
      MomentIsExact(Epoch(m));
      SameInstant(MomentOf(Epoch(m)), m);
      var s := Stamp(Epoch(m), text == Format(m));
      assert IsTime(s) && StampText(s) == text;
    }
    if s :| IsTime(s) && StampText(s) == text {
      MomentIsExact(s.instant);
      FullSeconds(MomentOf(s.instant));
      ReadBack(MomentOf(s.instant));
      assert IsTextOf(text, MomentOf(s.instant));
    }
  }

  /**
   Reading the text of a timestamp canonically gives its date if the text shows milliseconds, and nothing otherwise.
   */
  lemma CanonicalStamp(s: Stamp)
    requires IsTime(s)
    ensures Canonical(StampText(s)) == if s.milliseconds then Some(MomentOf(s.instant)) else None
  {
    hide Epoch, Format, ReadMoment, IsCalendar, MomentOf;
    MomentIsExact(s.instant);
    var m := MomentOf(s.instant);
    ReadBack(m);
    if s.milliseconds {
      CanonicalTexts(Format(m), m);
    } else if Canonical(StampText(s)).Some? {
      ReadBack(Canonical(StampText(s)).value);
    }
  }

  /** Different timestamps have different texts. */
  lemma StampTextIsInjective(a: Stamp, b: Stamp)
    requires IsTime(a) && IsTime(b) && StampText(a) == StampText(b)
    ensures a == b
  {
    hide Epoch, Format, ReadMoment, IsCalendar, MomentOf, Canonical;
    CanonicalStamp(a);
    CanonicalStamp(b);
    MomentIsExact(a.instant);
    MomentIsExact(b.instant);
    if !a.milliseconds {
      var m, n := MomentOf(a.instant), MomentOf(b.instant);
      FullSeconds(m);
      FullSeconds(n);
      ZeroTail(m);
      ZeroTail(n);
      assert Brief(Format(m))[..|Format(m)| - 5] == Format(m)[..|Format(m)| - 5];
      ReadBack(m);
      ReadBack(n);
    }
  }

  lemma ZeroTail(m: Moment)
    requires IsCalendar(m) && m.millisecond == 0
    ensures |Format(m)| >= 5 && Format(m) == Format(m)[..|Format(m)| - 5] + ".000Z"
  {
    hide YearText;
    assert Padded(0, 3) == "000";
  }

  /** Four-digit years: the texts with milliseconds are ordered like the instants. */
  lemma StampOrder(a: Stamp, b: Stamp)
    requires IsTime(a) && IsTime(b) && a.milliseconds && b.milliseconds
    ensures Less(StampText(a), StampText(b)) <==> a.instant < b.instant
  {
    hide Epoch, Format, IsCalendar, MomentOf, Less;
    MomentIsExact(a.instant);
    MomentIsExact(b.instant);
    TextOrder(MomentOf(a.instant), MomentOf(b.instant));
  }

  // ---------------------------------------------------------------- the calendar

  /** The lengths of the months. */
  lemma MonthLengths(year: int)
    ensures DaysInMonth(year, 1) == 31 && DaysInMonth(year, 3) == 31 && DaysInMonth(year, 5) == 31
    ensures DaysInMonth(year, 7) == 31 && DaysInMonth(year, 8) == 31 && DaysInMonth(year, 10) == 31
            && DaysInMonth(year, 12) == 31
    ensures DaysInMonth(year, 4) == 30 && DaysInMonth(year, 6) == 30 && DaysInMonth(year, 9) == 30
            && DaysInMonth(year, 11) == 30
    ensures DaysInMonth(year, 2) == if year % 400 == 0 || (year % 4 == 0 && year % 100 != 0) then 29 else 28
  {
    MultiplesOf400(year);
    MultiplesOf100(year);
  }

  /** The beginning, a turn of a century, a leap day and a last of October as instants, and the leap day as a text. */
  lemma KnownDates()
    ensures Epoch(Moment(1970, 1, 1, 0, 0, 0, 0)) == 0
    ensures Epoch(Moment(2000, 1, 1, 0, 0, 0, 0)) == 946684800000
    ensures Epoch(Moment(2024, 2, 29, 1, 2, 3, 4)) == 1709168523004
    ensures Canonical("2024-02-29T01:02:03.004Z") == Some(Moment(2024, 2, 29, 1, 2, 3, 4))
    ensures Epoch(Moment(2023, 10, 31, 23, 59, 59, 999)) == 1698796799999
  {
    var leap := Moment(2024, 2, 29, 1, 2, 3, 4);
    LeapText(leap);
    KnownInstants();
    CanonicalTexts("2024-02-29T01:02:03.004Z", leap);
  }

  lemma KnownInstants()
    ensures Epoch(Moment(1970, 1, 1, 0, 0, 0, 0)) == 0
    ensures Epoch(Moment(2000, 1, 1, 0, 0, 0, 0)) == 946684800000
    ensures Epoch(Moment(2024, 2, 29, 1, 2, 3, 4)) == 1709168523004
    ensures Epoch(Moment(2023, 10, 31, 23, 59, 59, 999)) == 1698796799999
  {
    assert DaysBeforeMonth(2024, 2) == 31;
    assert DaysBeforeMonth(2023, 4) == 90 && DaysBeforeMonth(2023, 7) == 181 && DaysBeforeMonth(2023, 10) == 273;
  }

  /** The text of a date with a four-digit year, field by field. */
  lemma FormatText(m: Moment)
    requires IsCalendar(m) && 0 <= m.year <= 9999
    ensures Format(m) ==
              Padded(m.year, 4) + "-" + Padded(m.month, 2) + "-" + Padded(m.day, 2) + "T" + Padded(m.hour, 2) + ":"
              + Padded(m.minute, 2) + ":" + Padded(m.second, 2) + "." + Padded(m.millisecond, 3) + "Z"
  {
    hide Padded, DaysInMonth;
    var second := Then(":", Padded(m.second, 2), Then(".", Padded(m.millisecond, 3), "Z"));
    assert second == ":" + Padded(m.second, 2) + "." + Padded(m.millisecond, 3) + "Z";
    assert ClockText(m) == "T" + Padded(m.hour, 2) + ":" + Padded(m.minute, 2) + second;
    assert Format(m) == Padded(m.year, 4) + "-" + Padded(m.month, 2) + "-" + Padded(m.day, 2) + ClockText(m);
  }

  lemma TwoDigits(n: nat)
    ensures Padded(n, 2) == [Digit(n / 10 % 10), Digit(n % 10)]
  {
    assert Padded(n / 10, 1) == Padded(n / 10 / 10, 0) + [Digit(n / 10 % 10)] == [Digit(n / 10 % 10)];
  }

  lemma ThreeDigits(n: nat)
    ensures Padded(n, 3) == [Digit(n / 100 % 10), Digit(n / 10 % 10), Digit(n % 10)]
  {
    TwoDigits(n / 10);
    assert n / 10 / 10 == n / 100;
  }

  lemma FourDigits(n: nat)
    ensures Padded(n, 4) == [Digit(n / 1000 % 10), Digit(n / 100 % 10), Digit(n / 10 % 10), Digit(n % 10)]
  {
    ThreeDigits(n / 10);
    assert n / 10 / 100 == n / 1000 && n / 10 / 10 == n / 100;
  }

  lemma LeapText(m: Moment)
    requires m == Moment(2024, 2, 29, 1, 2, 3, 4)
    ensures IsCalendar(m) && Format(m) == "2024-02-29T01:02:03.004Z"
  {
    hide Padded, Format;
    FormatText(m);
    FourDigits(2024); TwoDigits(2); TwoDigits(29); TwoDigits(1); TwoDigits(3); ThreeDigits(4);
    assert Padded(2024, 4) == "2024" && Padded(2, 2) == "02" && Padded(29, 2) == "29" && Padded(1, 2) == "01";
    assert Padded(3, 2) == "03" && Padded(4, 3) == "004";
    hide Digit;
  }
}

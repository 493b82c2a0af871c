/** `civil_from_days` and `utc` of `stamp.rs` against the Gregorian calendar counted day
    by day (sections 5.6 and 5.7 and Appendix C of RFC 3339). */
module Calendar {

  datatype Date = Date(year: int, month: nat, day: nat)

  predicate IsLeap(year: int) {
    year % 4 == 0 && (year % 100 != 0 || year % 400 == 0)
  }

  function MonthLength(year: int, month: nat): nat
    requires 1 <= month <= 12
  {
    if month == 2 then if IsLeap(year) then 29 else 28
    else if month == 4 || month == 6 || month == 9 || month == 11 then 30
    else 31
  }

  predicate IsDate(d: Date) {
    1 <= d.month <= 12 && 1 <= d.day <= MonthLength(d.year, d.month)
  }

  function NextDay(d: Date): Date
    requires IsDate(d)
  {
    if d.day < MonthLength(d.year, d.month) then d.(day := d.day + 1)
    else if d.month < 12 then Date(d.year, d.month + 1, 1)
    else Date(d.year + 1, 1, 1)
  }

  // ----------------------------------------------------------- the algorithm

  /** The day a shifted year begins in the 400-year era; shifted years start on 1 March. */
  function YearStart(yearOfEra: int): int {
    365 * yearOfEra + yearOfEra / 4 - yearOfEra / 100
  }

  function YearOfEra(dayOfEra: int): int {
    (dayOfEra - dayOfEra / 1460 + dayOfEra / 36524 - dayOfEra / 146096) / 365
  }

  function MonthIndex(dayOfYear: int): int {
    (5 * dayOfYear + 2) / 153
  }

  function MonthStart(monthIndex: int): int {
    (153 * monthIndex + 2) / 5
  }

  /** The closed formula, by eras of 400 years that begin in March; 719468 shifts the epoch to
      the start of an era. A u32 conversion that fails gives 0 in the source, which
      `CivilIsDate` shows never happens. */
  function CivilFromDays(days: int): Date {
    var shifted := days + 719468;
    var era := shifted / 146097;
    var dayOfEra := shifted % 146097;
    var yearOfEra := YearOfEra(dayOfEra);
    var dayOfYear := dayOfEra - YearStart(yearOfEra);
    var monthIndex := MonthIndex(dayOfYear);
    var day := ToU32(dayOfYear - MonthStart(monthIndex) + 1);
    var month := ToU32(if monthIndex < 10 then monthIndex + 3 else monthIndex - 9);
    Date(yearOfEra + era * 400 + if month <= 2 then 1 else 0, month, day)
  }

  function ToU32(v: int): nat {
    if 0 <= v < 0x1_0000_0000 then v else 0
  }

  // --------------------------------------------------- years within an era

  /** Whether the shifted year ends with a 29 February. */
  predicate EndsLeap(yearOfEra: int) {
    IsLeap(yearOfEra + 1)
  }

  /** A day of an era as century, four-year cycle, year and day. */
  ghost predicate Splits(doe: int, c: int, q: int, m: int, r: int) {
    && 0 <= c <= 3 && 0 <= q <= 24 && 0 <= m <= 3 && 0 <= r <= 365
    && doe == 36524 * c + 1461 * q + 365 * m + r
    && (r == 365 ==> m == 3 && (q == 24 ==> c == 3))
  }

  lemma EraSplit(doe: int) returns (c: int, q: int, m: int, r: int)
    requires 0 <= doe < 146097
    ensures Splits(doe, c, q, m, r)
  {
    c := if doe / 36524 < 3 then doe / 36524 else 3;
    var inCentury := doe - 36524 * c;
    q := if inCentury / 1461 < 24 then inCentury / 1461 else 24;
    var inCycle := inCentury - 1461 * q;
    m := if inCycle / 365 < 3 then inCycle / 365 else 3;
    r := inCycle - 365 * m;
  }

  /** The closed formula names the year of the split. */
  lemma YearOfSplit(doe: int, c: int, q: int, m: int, r: int)
    requires Splits(doe, c, q, m, r)
    ensures YearOfEra(doe) == 100 * c + 4 * q + m
    ensures YearStart(YearOfEra(doe)) == doe - r
    ensures r == 365 ==> EndsLeap(YearOfEra(doe))
  {
    var e := if 24 * c + q + 365 * m + r >= 1460 then 1 else 0;
    var y := 100 * c + 4 * q + m;
    CycleOfSplit(doe, c, q, m, r);
    CenturyOfSplit(doe, c, q, m, r);
    assert doe - doe / 1460 + doe / 36524 - doe / 146096 == 365 * y + (r - e);
    assert 0 <= r - e < 365;
    assert y / 4 == 25 * c + q && y / 100 == c;
  }

  lemma CycleOfSplit(doe: int, c: int, q: int, m: int, r: int)
    requires Splits(doe, c, q, m, r)
    ensures doe / 1460 == 25 * c + q + if 24 * c + q + 365 * m + r >= 1460 then 1 else 0
  {
    assert doe == 1460 * (25 * c + q) + (24 * c + q + 365 * m + r);
    assert 24 * c + q + 365 * m + r < 2 * 1460;
  }

  lemma CenturyOfSplit(doe: int, c: int, q: int, m: int, r: int)
    requires Splits(doe, c, q, m, r)
    ensures doe / 36524 == c + doe / 146096
    ensures doe / 146096 == if doe == 146096 then 1 else 0
  {
    assert 1461 * q + 365 * m + r <= 36524;
  }

  /** Every day lies in the shifted year the formula gives, and a year's next day is the
      next year's first exactly when it has run its 365 or 366 days. */
  lemma YearAndDay(doe: int)
    requires 0 <= doe < 146097
    ensures var y := YearOfEra(doe);
            var r := doe - YearStart(y);
            && 0 <= y < 400 && 0 <= r <= if EndsLeap(y) then 365 else 364
  {
    var c, q, m, r := EraSplit(doe);
    YearOfSplit(doe, c, q, m, r);
  }

  /** Conversely a day within a year's bounds is given that year. */
  lemma YearIsUnique(y: int, r: int)
    requires 0 <= y < 400 && 0 <= r <= if EndsLeap(y) then 365 else 364
    ensures 0 <= YearStart(y) + r < 146097 && YearOfEra(YearStart(y) + r) == y
  {
    var c, q, m := y / 100, y % 100 / 4, y % 4;
    assert y == 100 * c + 4 * q + m;
    assert y / 4 == 25 * c + q;
    if r == 365 {
      assert (y + 1) % 4 == 0;
      if q == 24 {
        assert (y + 1) % 100 == 0;
      }
    }
    YearOfSplit(YearStart(y) + r, c, q, m, r);
  }

  // ------------------------------------------------------ months within a year

  /** The length of a shifted month: 0 is March, 11 is February. */
  function ShiftedLength(monthIndex: int, leap: bool): int {
    if monthIndex == 11 then if leap then 29 else 28
    else if monthIndex == 1 || monthIndex == 3 || monthIndex == 6 || monthIndex == 8 then 30
    else 31
  }

  lemma MonthAndDay(r: int)
    requires 0 <= r <= 365
    ensures var m := MonthIndex(r);
            && 0 <= m <= 11
            && 0 <= r - MonthStart(m) < ShiftedLength(m, true)
            && (m < 11 ==> MonthStart(m + 1) == MonthStart(m) + ShiftedLength(m, true))
            && (m == 11 ==> MonthStart(m) == 337)
  {
  }

  lemma MonthIsUnique(m: int, d: int)
    requires 0 <= m <= 11 && 0 <= d < ShiftedLength(m, true)
    ensures MonthIndex(MonthStart(m) + d) == m
  {
  }

  // ------------------------------------------------------------ the theorems

  /** The day of a date, from its shifted year and month. */
  function DaysFromCivil(d: Date): int {
    var shiftedYear := if d.month <= 2 then d.year - 1 else d.year;
    var monthIndex := if d.month <= 2 then d.month + 9 else d.month - 3;
    shiftedYear / 400 * 146097 + YearStart(shiftedYear % 400) + MonthStart(monthIndex) + d.day - 1 - 719468
  }

  lemma LeapIsPeriodic(year: int, era: int)
    ensures IsLeap(year + 400 * era) == IsLeap(year)
  {
    Mod4(year, 100 * era);
    Mod100(year, 4 * era);
    Mod400(year, era);
  }

  lemma Mod4(n: int, k: int)
    ensures (n + 4 * k) % 4 == n % 4
  {
  }

  lemma Mod100(n: int, k: int)
    ensures (n + 100 * k) % 100 == n % 100
  {
  }

  lemma Mod400(n: int, k: int)
    ensures (n + 400 * k) % 400 == n % 400
  {
  }

  lemma ShiftedMonthLength(yearOfEra: int, era: int, monthIndex: int)
    requires 0 <= monthIndex <= 11
    ensures var month := if monthIndex < 10 then monthIndex + 3 else monthIndex - 9;
            var year := yearOfEra + era * 400 + if month <= 2 then 1 else 0;
            MonthLength(year, month) == ShiftedLength(monthIndex, EndsLeap(yearOfEra))
  {
    LeapIsPeriodic(yearOfEra + 1, era);
  }

  /** The date of day r of shifted year y in an era. */
  ghost function DateOf(era: int, y: int, r: int): Date
    requires 0 <= r <= 365
  {
    MonthAndDay(r);
    var m := MonthIndex(r);
    Date(y + era * 400 + if m < 10 then 0 else 1, if m < 10 then m + 3 else m - 9, r - MonthStart(m) + 1)
  }

  lemma CivilIsDateOf(days: int)
    ensures var era, doe := (days + 719468) / 146097, (days + 719468) % 146097;
            var y := YearOfEra(doe);
            var r := doe - YearStart(y);
            0 <= y < 400 && 0 <= r <= (if EndsLeap(y) then 365 else 364) && CivilFromDays(days) == DateOf(era, y, r)
  {
    hide YearOfEra, YearStart, MonthIndex, MonthStart, EndsLeap;
    var doe := (days + 719468) % 146097;
    YearAndDay(doe);
    MonthAndDay(doe - YearStart(YearOfEra(doe)));
  }

  lemma DateOfIsDate(era: int, y: int, r: int)
    requires 0 <= y < 400 && 0 <= r <= if EndsLeap(y) then 365 else 364
    ensures IsDate(DateOf(era, y, r))
    ensures DaysFromCivil(DateOf(era, y, r)) == era * 146097 + YearStart(y) + r - 719468
  {
    hide YearStart, MonthIndex, MonthStart, IsLeap, EndsLeap, MonthLength;
    MonthAndDay(r);
    FebruaryIsLast(r, EndsLeap(y));
    ShiftedMonthLength(y, era, MonthIndex(r));
    assert (y + era * 400) / 400 == era && (y + era * 400) % 400 == y;
  }

  lemma FebruaryIsLast(r: int, leap: bool)
    requires 0 <= r <= if leap then 365 else 364
    ensures r - MonthStart(MonthIndex(r)) < ShiftedLength(MonthIndex(r), leap)
  {
    MonthAndDay(r);
  }

  /** Every integer day has a valid date, from which the day can be recovered. */
  lemma CivilIsDate(days: int)
    ensures IsDate(CivilFromDays(days))
    ensures DaysFromCivil(CivilFromDays(days)) == days
  {
    hide YearOfEra, YearStart, DateOf, DaysFromCivil, CivilFromDays, EndsLeap, IsDate;
    CivilIsDateOf(days);
    var era, doe := (days + 719468) / 146097, (days + 719468) % 146097;
    DateOfIsDate(era, YearOfEra(doe), doe - YearStart(YearOfEra(doe)));
  }

  /** Every valid date is the date of a day, and of only one. */
  lemma DateHasDay(d: Date)
    requires IsDate(d)
    ensures CivilFromDays(DaysFromCivil(d)) == d
  {
    hide YearStart, YearOfEra, CivilFromDays, DaysFromCivil, EndsLeap, IsLeap;
    var era, y, r := DateIsDateOf(d);
    YearIsUnique(y, r);
    var doe := YearStart(y) + r;
    assert (era * 146097 + doe) / 146097 == era && (era * 146097 + doe) % 146097 == doe;
    CivilIsDateOf(DaysFromCivil(d));
  }

  lemma DateIsDateOf(d: Date) returns (era: int, y: int, r: int)
    requires IsDate(d)
    ensures 0 <= y < 400 && 0 <= r <= if EndsLeap(y) then 365 else 364
    ensures d == DateOf(era, y, r)
    ensures DaysFromCivil(d) + 719468 == era * 146097 + YearStart(y) + r
  {
    hide YearStart, IsLeap;
    var shiftedYear := if d.month <= 2 then d.year - 1 else d.year;
    var m := if d.month <= 2 then d.month + 9 else d.month - 3;
    era, y := shiftedYear / 400, shiftedYear % 400;
    r := MonthStart(m) + d.day - 1;
    ShiftedMonthLength(y, era, m);
    MonthIsUnique(m, d.day - 1);
    MonthAndDay(r);
  }

  /** The formula counts days as the calendar does: it starts at 1970-01-01 and each next
      day is the calendar's next day, for every integer. */
  lemma CivilIsTheCalendar(days: int)
    ensures CivilFromDays(0) == Date(1970, 1, 1)
    ensures IsDate(CivilFromDays(days))
    ensures CivilFromDays(days + 1) == NextDay(CivilFromDays(days))
  {
    hide CivilFromDays, DaysFromCivil, NextDay, IsDate;
    CivilIsDate(days);
    NextDayIsNext(CivilFromDays(days));
    DateHasDay(NextDay(CivilFromDays(days)));
    Epoch();
  }

  lemma Epoch()
    ensures CivilFromDays(0) == Date(1970, 1, 1)
  {
    assert 719468 / 146097 == 4 && 719468 % 146097 == 135080;
    assert YearOfEra(135080) == 369 && YearStart(369) == 134774;
    assert MonthIndex(306) == 10 && MonthStart(10) == 306;
    hide YearOfEra, YearStart, MonthIndex, MonthStart;
    assert CivilFromDays(0) == Date(1970, 1, 1);
  }

  lemma NextDayIsNext(d: Date)
    requires IsDate(d)
    ensures IsDate(NextDay(d)) && DaysFromCivil(NextDay(d)) == DaysFromCivil(d) + 1
  {
    hide YearStart;
    if d.day == MonthLength(d.year, d.month) {
      if d.month == 2 {
        FirstOfMarch(d.year);
      } else if d.month < 12 {
        var m := if d.month <= 2 then d.month + 9 else d.month - 3;
        assert MonthStart(m + 1) == MonthStart(m) + MonthLength(d.year, d.month);
      }
    }
  }

  /** 1 March begins a shifted year, right after the previous one's last day. */
  lemma FirstOfMarch(year: int)
    ensures DaysFromCivil(Date(year, 3, 1)) == DaysFromCivil(Date(year, 2, 1)) + MonthLength(year, 2)
  {
    hide YearStart, IsLeap, DaysFromCivil;
    var era, y := (year - 1) / 400, (year - 1) % 400;
    MarchAndFebruary(year);
    NextYearStart(y);
    LeapIsPeriodic(y + 1, era);
    if y == 399 {
      assert year / 400 == era + 1 && year % 400 == 0;
    } else {
      assert year / 400 == era && year % 400 == y + 1;
    }
  }

  lemma MarchAndFebruary(year: int)
    ensures DaysFromCivil(Date(year, 3, 1)) == year / 400 * 146097 + YearStart(year % 400) - 719468
    ensures DaysFromCivil(Date(year, 2, 1))
            == (year - 1) / 400 * 146097 + YearStart((year - 1) % 400) + 337 - 719468
  {
    assert MonthStart(0) == 0 && MonthStart(11) == 337;
    hide YearStart, MonthStart;
  }

  lemma NextYearStart(y: int)
    requires 0 <= y < 400
    ensures var length := if IsLeap(y + 1) then 366 else 365;
            if y == 399 then YearStart(y) + length == 146097 && YearStart(0) == 0
            else YearStart(y + 1) == YearStart(y) + length
  {
  }

  // -------------------------------------------------------------------- utc

  function Decimal(n: nat): string {
    if n < 10 then [Digit(n)] else Decimal(n / 10) + [Digit(n % 10)]
  }

  function Digit(n: nat): char
    requires n < 10
  {
    ('0' as int + n) as char
  }

  /** Decimal digits, zero-padded on the left. */
  function Pad(n: nat, width: nat): string {
    seq(if |Decimal(n)| < width then width - |Decimal(n)| else 0, _ => '0') + Decimal(n)
  }

  /** `(iso, compact)`. */
  function Utc(seconds: nat): (string, string) {
    var rest := seconds % 86400;
    var d := CivilFromDays(seconds / 86400);
    var year := if d.year >= 0 then d.year else 0;
    var (hour, minute, second) := (rest / 3600, rest % 3600 / 60, rest % 60);
    (Pad(year, 4) + "-" + Pad(d.month, 2) + "-" + Pad(d.day, 2) + "T"
     + Pad(hour, 2) + ":" + Pad(minute, 2) + ":" + Pad(second, 2) + "Z",
     Pad(year, 4) + Pad(d.month, 2) + Pad(d.day, 2) + "T" + Pad(hour, 2) + Pad(minute, 2) + Pad(second, 2) + "Z")
  }

  predicate IsDigit(c: char) {
    '0' <= c <= '9'
  }

  predicate AllDigits(s: string) {
    forall k | 0 <= k < |s| :: IsDigit(s[k])
  }

  /** The number that a string of digits denotes. */
  function Value(s: string): nat
    requires AllDigits(s)
  {
    if s == [] then 0 else Value(s[..|s| - 1]) * 10 + (s[|s| - 1] as int - '0' as int)
  }

  predicate Digits(s: string, n: nat) {
    AllDigits(s) && Value(s) == n
  }

  lemma {:induction false} DecimalDenotes(n: nat)
    ensures Digits(Decimal(n), n) && |Decimal(n)| >= 1
    ensures n < 100 ==> |Decimal(n)| <= 2
    ensures n < 10000 ==> |Decimal(n)| <= 4
    decreases n
  {
    if n >= 10 {
      DecimalDenotes(n / 10);
      var s := Decimal(n);
      assert s[..|s| - 1] == Decimal(n / 10);
      if n < 10000 {
        ShortDecimal(n / 10);
      }
    } else {
      assert Decimal(n)[..0] == [];
    }
  }

  lemma ShortDecimal(n: nat)
    requires n < 1000
    ensures |Decimal(n)| <= 3
  {
    if n >= 10 {
      var m := n / 10;
      assert Decimal(n) == Decimal(m) + [Digit(n % 10)];
      if m >= 10 {
        assert Decimal(m) == Decimal(m / 10) + [Digit(m % 10)];
        assert |Decimal(m / 10)| == 1;
      }
    }
  }

  lemma {:induction false} LeadingZeros(k: nat, s: string, n: nat)
    requires Digits(s, n)
    ensures Digits(seq(k, _ => '0') + s, n)
    decreases |s|, k
  {
    var zeros := seq(k, _ => '0');
    var t := zeros + s;
    if s != [] {
      assert t[..|t| - 1] == zeros + s[..|s| - 1];
      LeadingZeros(k, s[..|s| - 1], Value(s[..|s| - 1]));
    } else if k > 0 {
      assert t[..|t| - 1] == seq(k - 1, _ => '0') + s;
      LeadingZeros(k - 1, s, n);
    }
  }

  lemma PadDenotes(n: nat, width: nat)
    ensures Digits(Pad(n, width), n)
    ensures |Pad(n, width)| >= width
    ensures (width == 2 && n < 100) || (width == 4 && n < 10000) ==> |Pad(n, width)| == width
  {
    DecimalDenotes(n);
    LeadingZeros(if |Decimal(n)| < width then width - |Decimal(n)| else 0, Decimal(n), n);
  }

  /** The fields that a moment is printed with: zero-padded decimals of a valid date and
      time of day that recombine to the moment. */
  ghost predicate Denotes(year: string, month: string, day: string, hour: string, minute: string, second: string,
                          seconds: nat)
  {
    && AllDigits(year) && AllDigits(month) && AllDigits(day)
    && AllDigits(hour) && AllDigits(minute) && AllDigits(second)
    && |month| == |day| == |hour| == |minute| == |second| == 2 && |year| >= 4
    && (Value(year) < 10000 ==> |year| == 4)
    && Value(hour) < 24 && Value(minute) < 60 && Value(second) < 60
    && var date := Date(Value(year), Value(month), Value(day));
    && IsDate(date)
    && seconds == DaysFromCivil(date) * 86400 + Value(hour) * 3600 + Value(minute) * 60 + Value(second)
  }

  /** Both strings of `utc` print the same fields, and those denote exactly the input. */
  lemma UtcRecombines(seconds: nat)
    returns (year: string, month: string, day: string, hour: string, minute: string, second: string)
    ensures Utc(seconds).0 == year + "-" + month + "-" + day + "T" + hour + ":" + minute + ":" + second + "Z"
    ensures Utc(seconds).1 == year + month + day + "T" + hour + minute + second + "Z"
    ensures Denotes(year, month, day, hour, minute, second, seconds)
  {
    hide CivilFromDays, DaysFromCivil, Decimal, Pad, Value, IsLeap, AllDigits;
    var rest, days := seconds % 86400, seconds / 86400;
    var d := CivilFromDays(days);
    CivilIsDate(days);
    YearIsNotNegative(days);
    year, month, day := Pad(d.year, 4), Pad(d.month, 2), Pad(d.day, 2);
    hour, minute, second := Pad(rest / 3600, 2), Pad(rest % 3600 / 60, 2), Pad(rest % 60, 2);
    PadDenotes(d.year, 4);
    PadDenotes(d.month, 2);
    PadDenotes(d.day, 2);
    PadDenotes(rest / 3600, 2);
    PadDenotes(rest % 3600 / 60, 2);
    PadDenotes(rest % 60, 2);
    assert seconds == days * 86400 + rest / 3600 * 3600 + rest % 3600 / 60 * 60 + rest % 60;
  }

  lemma YearIsNotNegative(days: nat)
    ensures CivilFromDays(days).year >= 1969
  {
    hide YearOfEra, MonthIndex, MonthStart, EndsLeap;
    CivilIsDateOf(days);
    var doe := (days + 719468) % 146097;
    if days < 146097 * 5 - 719468 {
      var y := YearOfEra(doe);
      assert doe >= 135080;
    }
  }
}

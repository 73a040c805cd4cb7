/** The calendar behind the Date header: civil-from-days arithmetic against the Gregorian calendar itself. */
module HttpDate {
  import opened Bytes
  import HostPort

  datatype Date = Date(y: int, m: int, d: int)

  // ------------------------------------------------------------------
  // The reference calendar
  // ------------------------------------------------------------------

  predicate IsLeap(y: int) { y % 4 == 0 && (y % 100 != 0 || y % 400 == 0) }

  function DaysIn(y: int, m: int): int {
    if m == 2 then (if IsLeap(y) then 29 else 28)
    else if m == 4 || m == 6 || m == 9 || m == 11 then 30
    else 31
  }

  predicate IsDate(t: Date) { 1 <= t.m <= 12 && 1 <= t.d <= DaysIn(t.y, t.m) }

  /** The next day of the Gregorian calendar. */
  function NextDay(t: Date): Date {
    if t.d < DaysIn(t.y, t.m) then t.(d := t.d + 1)
    else if t.m < 12 then Date(t.y, t.m + 1, 1)
    else Date(t.y + 1, 1, 1)
  }

  // ------------------------------------------------------------------
  // The date arithmetic of the header
  // ------------------------------------------------------------------

  /** The year of the 400-year era that starts on 1 March, from the day of the era. */
  function YearOfEra(doe: int): int { (doe - doe / 1460 + doe / 36524 - doe / 146096) / 365 }

  /** The day on which year y of the era begins. */
  function YearStart(y: int): int { 365 * y + y / 4 - y / 100 }

  function MonthOf(mp: int): int { if mp < 10 then mp + 3 else mp - 9 }

  function MonthStart(mp: int): int { (153 * mp + 2) / 5 }

  /** A date from its March-based year and the day of that year. */
  function DateOf(year: int, doy: int): Date {
    var mp := (5 * doy + 2) / 153;
    var m := MonthOf(mp);
    Date(if m <= 2 then year + 1 else year, m, doy - MonthStart(mp) + 1)
  }

  function Civil(days: int): Date {
    var z := days + 719468;
    var era, doe := z / 146097, z % 146097;
    var yoe := YearOfEra(doe);
    DateOf(yoe + era * 400, doe - YearStart(yoe))
  }

  function Weekday(days: int): int { (days + 4) % 7 }

  // ------------------------------------------------------------------
  // Years within an era
  // ------------------------------------------------------------------

  /** How long March-based year y lasts; its leap day is its last. */
  function YearLength(y: int): int { if IsLeap(y + 1) then 366 else 365 }

  /** Century c, four-year cycle q, year t of it, day u of that. */
  lemma YearFormula(c: int, q: int, t: int, u: int)
    requires 0 <= c <= 3 && 0 <= q <= 24 && 0 <= t <= 3
    requires 0 <= u <= 365 && (u == 365 ==> t == 3 && (q < 24 || c == 3))
    ensures var doe, y := 36524 * c + 1461 * q + 365 * t + u, 100 * c + 4 * q + t;
            0 <= doe < 146097 && YearOfEra(doe) == y && YearStart(y) == doe - u && 0 <= y < 400
  {
    var s := 365 * t + u;
    var doe := 36524 * c + 1461 * q + s;
    hide YearOfEra, YearStart;
    CenturyTerm(c, q, s);
    CycleTerm(c, q, t, u);
    FourYearTerm(c, q, s);
    var e := (24 * c + q + s) / 1460;
    EraYear(doe, 25 * c + q + e, c, 100 * c + 4 * q, s - e, t);
    StartTerm(c, q, t);
  }

  lemma FourYearTerm(c: int, q: int, s: int)
    requires 0 <= c <= 3 && 0 <= q <= 24 && 0 <= s <= 1460
    ensures (36524 * c + 1461 * q + s) / 1460 == 25 * c + q + (24 * c + q + s) / 1460
  {
    var rest := 24 * c + q + s;
    assert 36524 * c + 1461 * q + s == 1460 * (25 * c + q) + rest;
  }

  lemma EraYear(doe: int, fours: int, centuries: int, years: int, rest: int, t: int)
    requires doe / 1460 == fours && doe / 36524 - doe / 146096 == centuries
    requires doe - fours + centuries == 365 * years + rest && rest / 365 == t
    ensures YearOfEra(doe) == years + t
  {}

  lemma StartTerm(c: int, q: int, t: int)
    requires 0 <= c <= 3 && 0 <= q <= 24 && 0 <= t <= 3
    ensures YearStart(100 * c + 4 * q + t) == 36524 * c + 1461 * q + 365 * t
  {
    var y := 100 * c + 4 * q + t;
    assert y / 4 == 25 * c + q && y / 100 == c;
  }

  lemma CenturyTerm(c: int, q: int, s: int)
    requires 0 <= c <= 3 && 0 <= q <= 24 && 0 <= s <= 1460 && (q == 24 && s == 1460 ==> c == 3)
    ensures var doe := 36524 * c + 1461 * q + s;
            0 <= doe < 146097 && doe / 36524 - doe / 146096 == c
  {
    var doe := 36524 * c + 1461 * q + s;
    if q == 24 && s == 1460 {
      assert doe == 146096;
    } else {
      assert doe == 36524 * c + (1461 * q + s) && 1461 * q + s < 36524;
    }
  }

  lemma CycleTerm(c: int, q: int, t: int, u: int)
    requires 0 <= c <= 3 && 0 <= q <= 24 && 0 <= t <= 3
    requires 0 <= u <= 365 && (u == 365 ==> t == 3)
    ensures var s := 365 * t + u;
            var e := (24 * c + q + s) / 1460;
            (s - e) / 365 == t && 0 <= s - e
  {
    var s := 365 * t + u;
    var e := (24 * c + q + s) / 1460;
    if u == 0 && t < 3 {
      assert s <= 730 && e == 0;
    }
  }

  /** Every day of an era belongs to one year, within that year's length. */
  lemma YearContains(doe: int)
    requires 0 <= doe < 146097
    ensures var y := YearOfEra(doe);
            0 <= y < 400 && 0 <= doe - YearStart(y) < YearLength(y)
  {
    hide YearOfEra, YearStart, IsLeap;
    var c, q, t, u := DigitsOf(doe);
    YearFormula(c, q, t, u);
    LeapYears(c, q, t);
  }

  /** Century, cycle, year and day of a day of the era. */
  lemma DigitsOf(doe: int) returns (c: int, q: int, t: int, u: int)
    requires 0 <= doe < 146097
    ensures 0 <= c <= 3 && 0 <= q <= 24 && 0 <= t <= 3 && 0 <= u <= 365
    ensures doe == 36524 * c + 1461 * q + 365 * t + u
    ensures u == 365 ==> t == 3 && (q < 24 || c == 3)
  {
    c := Min(doe / 36524, 3);
    var r := doe - 36524 * c;
    q := r / 1461;
    var s := r % 1461;
    t := Min(s / 365, 3);
    u := s - 365 * t;
    assert r == 1461 * q + s;
  }

  /** Which March-based years of an era end in a leap day. */
  lemma LeapYears(c: int, q: int, t: int)
    requires 0 <= c <= 3 && 0 <= q <= 24 && 0 <= t <= 3
    ensures IsLeap(100 * c + 4 * q + t + 1) <==> t == 3 && (q < 24 || c == 3)
  {
    var y := 100 * c + 4 * q + t + 1;
    assert y % 4 == (t + 1) % 4;
    if q == 24 && t == 3 {
      assert y == 100 * (c + 1);
    } else {
      assert y % 100 == 4 * q + t + 1;
    }
  }

  lemma YearStartStep(y: int)
    requires 0 <= y < 400
    ensures YearStart(y) + YearLength(y) == if y == 399 then 146097 else YearStart(y + 1)
  {
    assert (y + 1) / 4 == y / 4 + (if (y + 1) % 4 == 0 then 1 else 0);
    assert (y + 1) / 100 == y / 100 + (if (y + 1) % 100 == 0 then 1 else 0);
  }

  lemma {:induction false} YearStartMonotone(x: int, y: int)
    requires 0 <= x < y < 400
    ensures YearStart(x) + YearLength(x) <= YearStart(y)
    decreases y
  {
    YearStartStep(y - 1);
    if x < y - 1 { YearStartMonotone(x, y - 1); } else { YearStartStep(x); }
  }

  /** The next day is the next day of the year, or the first of the next year, or the first of the next era. */
  lemma NextDayOfEra(doe: int)
    requires 0 <= doe < 146096
    ensures var y, y' := YearOfEra(doe), YearOfEra(doe + 1);
            if doe - YearStart(y) + 1 < YearLength(y)
            then y' == y
            else y' == y + 1 && doe + 1 == YearStart(y + 1)
  {
    var y, y' := YearOfEra(doe), YearOfEra(doe + 1);
    YearContains(doe);
    YearContains(doe + 1);
    YearStartStep(y);
    if y' < y { YearStartMonotone(y', y); }
    if y < y' {
      YearStartMonotone(y, y');
      if y + 1 < y' { YearStartMonotone(y + 1, y'); YearLengthPositive(y + 1); }
    }
  }

  lemma YearLengthPositive(y: int)
    ensures YearLength(y) > 0
  {}

  // ------------------------------------------------------------------
  // Months within a year
  // ------------------------------------------------------------------

  /** The month table of the formula is the calendar's own: months of 31 30 31 30 31 31 30 31 30 31 31 and the rest. */
  lemma MonthLengths(year: int, mp: int)
    requires 0 <= mp <= 11
    ensures var m := MonthOf(mp);
            var y := if m <= 2 then year + 1 else year;
            && 1 <= m <= 12
            && DaysIn(y, m) == (if mp == 11 then YearLength(year) - 337 else MonthStart(mp + 1) - MonthStart(mp))
            && MonthStart(11) == 337
  {
    assert MonthStart(0) == 0 && MonthStart(1) == 31 && MonthStart(2) == 61 && MonthStart(3) == 92;
    assert MonthStart(4) == 122 && MonthStart(5) == 153 && MonthStart(6) == 184 && MonthStart(7) == 214;
    assert MonthStart(8) == 245 && MonthStart(9) == 275 && MonthStart(10) == 306;
  }

  lemma MonthContains(doy: int)
    requires 0 <= doy < 366
    ensures var mp := (5 * doy + 2) / 153;
            0 <= mp <= 11 && MonthStart(mp) <= doy < MonthStart(mp + 1)
  {}

  lemma DateOfIsDate(year: int, doy: int)
    requires 0 <= doy < YearLength(year)
    ensures IsDate(DateOf(year, doy))
  {
    MonthContains(doy);
    MonthLengths(year, (5 * doy + 2) / 153);
  }

  /** Within a March-based year, and across its end, the date steps as the calendar does. */
  lemma DateOfSteps(year: int, doy: int)
    requires 0 <= doy < YearLength(year)
    ensures DateOf(if doy + 1 < YearLength(year) then year else year + 1,
                   if doy + 1 < YearLength(year) then doy + 1 else 0) == NextDay(DateOf(year, doy))
  {
    var mp := (5 * doy + 2) / 153;
    MonthContains(doy);
    MonthLengths(year, mp);
    if doy + 1 < YearLength(year) {
      MonthContains(doy + 1);
      SameOrNextMonth(doy);
    } else {
      assert mp == 11;
    }
  }

  lemma SameOrNextMonth(doy: int)
    requires 0 <= doy < 365
    ensures var mp, mp' := (5 * doy + 2) / 153, (5 * (doy + 1) + 2) / 153;
            if doy + 1 < MonthStart(mp + 1) then mp' == mp else mp' == mp + 1 && doy + 1 == MonthStart(mp')
  {
    MonthContains(doy);
    MonthContains(doy + 1);
  }

  // ------------------------------------------------------------------
  // The calendar
  // ------------------------------------------------------------------

  lemma Mod4(y: int, k: int)
    ensures (y + 4 * k) % 4 == y % 4
  {}

  lemma Mod100(y: int, k: int)
    ensures (y + 100 * k) % 100 == y % 100
  {}

  lemma Mod400(y: int, k: int)
    ensures (y + 400 * k) % 400 == y % 400
  {}

  lemma LeapPeriod(y: int, era: int)
    ensures IsLeap(y + 400 * era) <==> IsLeap(y)
  {
    Mod400(y, era);
    Mod100(y, 4 * era);
    Mod4(y, 100 * era);
  }

  /** One day on, the era, the day of the era, the year and the day of the year advance as clock hands do. */
  lemma CivilStep(z: int)
    ensures var era, doe := z / 146097, z % 146097;
            var y := YearOfEra(doe);
            var year, doy := y + era * 400, doe - YearStart(y);
            && 0 <= doy < YearLength(year)
            && Civil(z - 719468) == DateOf(year, doy)
            && Civil(z + 1 - 719468) == DateOf(if doy + 1 < YearLength(year) then year else year + 1,
                                               if doy + 1 < YearLength(year) then doy + 1 else 0)
  {
    hide DateOf, YearOfEra, YearStart, IsLeap;
    var era, doe := z / 146097, z % 146097;
    var y := YearOfEra(doe);
    YearContains(doe);
    LeapPeriod(y + 1, era);
    assert YearLength(y + era * 400) == YearLength(y);
    if doe < 146096 {
      assert (z + 1) / 146097 == era && (z + 1) % 146097 == doe + 1;
      NextDayOfEra(doe);
    } else {
      assert (z + 1) / 146097 == era + 1 && (z + 1) % 146097 == 0;
      YearFormula(3, 24, 3, 365);
      YearFormula(0, 0, 0, 0);
      YearStartStep(399);
    }
  }

  lemma Epoch()
    ensures Civil(0) == Date(1970, 1, 1) && Weekday(0) == 4
  {
    assert 719468 / 146097 == 4 && 719468 % 146097 == 135080;
    assert YearOfEra(135080) == 369 && YearStart(369) == 134774;
  }

  lemma NextWeekday(days: int)
    ensures 0 <= Weekday(days) < 7 && Weekday(days + 1) == (Weekday(days) + 1) % 7
  {}

  /** For every day count: day 0 is Thursday 1 January 1970, every date is a valid Gregorian date, and the date and
      weekday of the next day are the calendar's successors. */
  lemma CivilIsTheCalendar(days: int)
    ensures Civil(0) == Date(1970, 1, 1) && Weekday(0) == 4
    ensures IsDate(Civil(days)) && 0 <= Weekday(days) < 7
    ensures Civil(days + 1) == NextDay(Civil(days))
    ensures Weekday(days + 1) == (Weekday(days) + 1) % 7
  {
    Epoch();
    NextWeekday(days);
    hide Weekday, Civil, DateOf, NextDay, IsDate, YearLength, YearOfEra, YearStart;
    var z := days + 719468;
    var doe := z % 146097;
    var year, doy := YearOfEra(doe) + z / 146097 * 400, doe - YearStart(YearOfEra(doe));
    CivilStep(z);
    DateOfIsDate(year, doy);
    DateOfSteps(year, doy);
  }

  // ------------------------------------------------------------------
  // The header value (format of section 7.1.1.1 of RFC 7231)
  // ------------------------------------------------------------------

  const DAYS := ["Sun", "Mon", "Tue", "Wed", "Thu", "Fri", "Sat"]
  const MONTHS := ["Jan", "Feb", "Mar", "Apr", "May", "Jun", "Jul", "Aug", "Sep", "Oct", "Nov", "Dec"]

  function TwoDigits(n: nat): string {
    if n < 10 then "0" + HostPort.Decimal(n) else HostPort.Decimal(n)
  }

  function HeaderDate(unixSecs: nat): string {
    var days, secs := unixSecs / 86400, unixSecs % 86400;
    CivilIsTheCalendar(days);
    YearNotNegative(days);
    Header(Weekday(days), Civil(days), secs)
  }

  /** The fields of the value, each table index in range. */
  function Header(weekday: int, t: Date, secs: nat): string
    requires 0 <= weekday < 7 && IsDate(t) && t.y >= 0
  {
    DAYS[weekday] + ", " + TwoDigits(t.d) + " " + MONTHS[t.m - 1] + " " + HostPort.Decimal(t.y) + " "
    + TwoDigits(secs / 3600) + ":" + TwoDigits(secs % 3600 / 60) + ":" + TwoDigits(secs % 60) + " GMT"
  }

  lemma YearNotNegative(days: nat)
    ensures Civil(days).y >= 0
  {
    hide YearOfEra, YearStart, DateOf;
    var z := days + 719468;
    YearContains(z % 146097);
    DateOfYear(YearOfEra(z % 146097) + z / 146097 * 400, z % 146097 - YearStart(YearOfEra(z % 146097)));
  }

  lemma DateOfYear(year: int, doy: int)
    ensures DateOf(year, doy).y >= year
  {}

  // ------------------------------------------------------------------
  // The header determines the second
  // ------------------------------------------------------------------

  predicate Before(s: Date, t: Date) {
    s.y < t.y || (s.y == t.y && (s.m < t.m || (s.m == t.m && s.d < t.d)))
  }

  lemma {:induction false} CivilIncreases(a: int, b: int)
    requires a < b
    ensures Before(Civil(a), Civil(b))
    decreases b - a
  {
    hide Civil, DaysIn;
    CivilIsTheCalendar(b - 1);
    if a < b - 1 { CivilIncreases(a, b - 1); }
  }

  lemma TwoDigitsIs(n: nat)
    requires n < 100
    ensures |TwoDigits(n)| == 2 && HostPort.AllDigits(TwoDigits(n)) && HostPort.Value(TwoDigits(n)) == n
  {
    HostPort.DecimalValue(n);
    if n < 10 {
      assert TwoDigits(n)[..1] == "0" && "0"[..0] == "";
      assert HostPort.Value("0") == 0;
    } else {
      assert |HostPort.Decimal(n / 10)| == 1;
    }
  }

  /** Where each field of a header stands, the year being k characters long. */
  lemma HeaderFields(weekday: int, t: Date, secs: nat)
    requires 0 <= weekday < 7 && IsDate(t) && t.y >= 0 && secs < 86400
    ensures var s, k := Header(weekday, t, secs), |HostPort.Decimal(t.y)|;
            && |s| == 25 + k && s[..3] == DAYS[weekday] && s[3..5] == ", "
            && s[5..7] == TwoDigits(t.d) && s[8..11] == MONTHS[t.m - 1] && s[12..12 + k] == HostPort.Decimal(t.y)
            && s[13 + k..15 + k] == TwoDigits(secs / 3600)
            && s[16 + k..18 + k] == TwoDigits(secs % 3600 / 60)
            && s[19 + k..21 + k] == TwoDigits(secs % 60) && s[21 + k..] == " GMT"
  {
    hide TwoDigits, HostPort.Decimal;
    TwoDigitsIs(t.d);
    TwoDigitsIs(secs / 3600);
    TwoDigitsIs(secs % 3600 / 60);
    TwoDigitsIs(secs % 60);
    var year := HostPort.Decimal(t.y);
    var day, month := DAYS[weekday], MONTHS[t.m - 1];
    var dd, h, m, s := TwoDigits(t.d), TwoDigits(secs / 3600), TwoDigits(secs % 3600 / 60), TwoDigits(secs % 60);
    NamesAreShort(weekday, t.m - 1);
    DatePart(day, dd, month);
    ClockPart(h, m, s);
    Regrouped(day, dd, month, year, h, m, s);
    Embedded(day + ", " + dd + " " + month + " ", year, " " + h + ":" + m + ":" + s + " GMT");
  }

  lemma NamesAreShort(i: nat, j: nat)
    requires i < 7 && j < 12
    ensures |DAYS[i]| == 3 && |MONTHS[j]| == 3
  {}

  lemma DatePart(day: string, dd: string, month: string)
    requires |day| == 3 && |dd| == 2 && |month| == 3
    ensures var a := day + ", " + dd + " " + month + " ";
            |a| == 12 && a[..3] == day && a[3..5] == ", " && a[5..7] == dd && a[8..11] == month
  {}

  lemma ClockPart(h: string, m: string, s: string)
    requires |h| == 2 && |m| == 2 && |s| == 2
    ensures var c := " " + h + ":" + m + ":" + s + " GMT";
            |c| == 13 && c[1..3] == h && c[4..6] == m && c[7..9] == s && c[9..] == " GMT"
  {}

  lemma Regrouped(day: string, dd: string, month: string, year: string, h: string, m: string, s: string)
    ensures day + ", " + dd + " " + month + " " + year + " " + h + ":" + m + ":" + s + " GMT"
         == (day + ", " + dd + " " + month + " ") + year + (" " + h + ":" + m + ":" + s + " GMT")
  {
    var a := day + ", " + dd + " " + month + " " + year;
    assert a + " " + h + ":" + m + ":" + s + " GMT" == a + (" " + h + ":" + m + ":" + s + " GMT");
  }

  lemma Embedded(a: string, b: string, c: string)
    requires |a| == 12 && |c| == 13
    ensures var s, k := a + b + c, |b|;
            && s[..3] == a[..3] && s[3..5] == a[3..5] && s[5..7] == a[5..7] && s[8..11] == a[8..11] && s[12..12 + k] == b
            && s[13 + k..15 + k] == c[1..3] && s[16 + k..18 + k] == c[4..6] && s[19 + k..21 + k] == c[7..9]
            && s[21 + k..] == c[9..]
  {}

  lemma MonthsDiffer(i: nat, j: nat)
    requires i < 12 && j < 12 && MONTHS[i] == MONTHS[j]
    ensures i == j
  {}

  /** Two headers are equal only for the same second, and a four-digit year makes the fixed 29-character form. */
  lemma HeaderDeterminesTime(a: nat, b: nat)
    ensures HeaderDate(a) == HeaderDate(b) ==> a == b
    ensures 1000 <= Civil(a / 86400).y <= 9999 ==> |HeaderDate(a)| == 29
  {
    hide Civil, Header, TwoDigits, Weekday, IsDate;
    var da, db := a / 86400, b / 86400;
    CivilIsTheCalendar(da);
    CivilIsTheCalendar(db);
    YearNotNegative(da);
    YearNotNegative(db);
    HeaderFields(Weekday(da), Civil(da), a % 86400);
    if 1000 <= Civil(da).y <= 9999 { FourDigits(Civil(da).y); }
    if HeaderDate(a) == HeaderDate(b) {
      HeaderFields(Weekday(db), Civil(db), b % 86400);
      SameFields(Civil(da), Civil(db), a % 86400, b % 86400);
      if da < db { CivilIncreases(da, db); }
      if db < da { CivilIncreases(db, da); }
    }
  }

  lemma FourDigits(n: nat)
    requires 1000 <= n <= 9999
    ensures |HostPort.Decimal(n)| == 4
  {
    var h := n / 10;
    var t := h / 10;
    assert |HostPort.Decimal(t / 10)| == 1;
    assert |HostPort.Decimal(t)| == 2;
    assert |HostPort.Decimal(h)| == 3;
  }

  lemma SameFields(s: Date, t: Date, x: nat, y: nat)
    requires IsDate(s) && IsDate(t) && s.y >= 0 && t.y >= 0 && x < 86400 && y < 86400
    requires TwoDigits(s.d) == TwoDigits(t.d) && MONTHS[s.m - 1] == MONTHS[t.m - 1]
    requires HostPort.Decimal(s.y) == HostPort.Decimal(t.y)
    requires TwoDigits(x / 3600) == TwoDigits(y / 3600) && TwoDigits(x % 3600 / 60) == TwoDigits(y % 3600 / 60)
    requires TwoDigits(x % 60) == TwoDigits(y % 60)
    ensures s == t && x == y
  {
    hide TwoDigits;
    TwoDigitsIs(s.d);
    TwoDigitsIs(t.d);
    MonthsDiffer(s.m - 1, t.m - 1);
    HostPort.DecimalValue(s.y);
    HostPort.DecimalValue(t.y);
    SameClock(x, y);
  }

  lemma SameTwo(a: nat, b: nat)
    requires a < 100 && b < 100 && TwoDigits(a) == TwoDigits(b)
    ensures a == b
  {
    hide TwoDigits;
    TwoDigitsIs(a);
    TwoDigitsIs(b);
  }

  lemma ClockParts(x: nat)
    requires x < 86400
    ensures x / 3600 < 24 && x % 3600 / 60 < 60
    ensures x == 3600 * (x / 3600) + 60 * (x % 3600 / 60) + x % 60
  {
    var h, r := x / 3600, x % 3600;
    assert x == 3600 * h + r;
    assert r == 60 * (r / 60) + r % 60 && r % 60 == x % 60;
  }

  lemma SameClock(x: nat, y: nat)
    requires x < 86400 && y < 86400
    requires TwoDigits(x / 3600) == TwoDigits(y / 3600) && TwoDigits(x % 3600 / 60) == TwoDigits(y % 3600 / 60)
    requires TwoDigits(x % 60) == TwoDigits(y % 60)
    ensures x == y
  {
    hide TwoDigits;
    ClockParts(x);
    ClockParts(y);
    SameTwo(x / 3600, y / 3600);
    SameTwo(x % 3600 / 60, y % 3600 / 60);
    SameTwo(x % 60, y % 60);
  }

  /** The first second of all, spelt out. */
  lemma EpochHeader()
    ensures HeaderDate(0) == "Thu, 01 Jan 1970 00:00:00 GMT"
  {
    hide Civil, Weekday, TwoDigits, HostPort.Decimal, Header;
    Epoch();
    assert 0 / 86400 == 0 && 0 % 86400 == 0;
    assert HeaderDate(0) == Header(4, Date(1970, 1, 1), 0);
    EpochFields();
  }

  lemma EpochFields()
    ensures Header(4, Date(1970, 1, 1), 0) == "Thu, 01 Jan 1970 00:00:00 GMT"
  {
    hide TwoDigits, HostPort.Decimal;
    DecimalOf1970();
    SmallDigits();
    assert 0 / 3600 == 0 && 0 % 3600 / 60 == 0 && 0 % 60 == 0;
    var date := "Thu" + ", " + "01" + " " + "Jan" + " ";
    var clock := " " + "00" + ":" + "00" + ":" + "00" + " GMT";
    Regrouped("Thu", "01", "Jan", "1970", "00", "00", "00");
    assert date == "Thu, 01 Jan " && clock == " 00:00:00 GMT";
    assert "Thu, 01 Jan " + "1970" == "Thu, 01 Jan 1970";
    assert "Thu, 01 Jan 1970" + " 00:00:00 GMT" == "Thu, 01 Jan 1970 00:00:00 GMT";
  }

  lemma SmallDigits()
    ensures TwoDigits(0) == "00" && TwoDigits(1) == "01"
  {}

  lemma DecimalOf1970()
    ensures HostPort.Decimal(1970) == "1970"
  {
    assert HostPort.Decimal(1) == "1";
    assert HostPort.Decimal(19) == HostPort.Decimal(1) + "9";
    assert HostPort.Decimal(197) == HostPort.Decimal(19) + "7";
    assert HostPort.Decimal(1970) == HostPort.Decimal(197) + "0";
  }
}

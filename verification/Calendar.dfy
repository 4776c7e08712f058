/** Calendar arithmetic of `camouflage.rs`: the closed-form date conversion behind the
    HTTP `Date` header, against counting days one by one. */
module Calendar {

  datatype Date = Date(year: int, month: int, day: int)

  // ---------------------------------------------------------------------------
  // The naive calendar
  // ---------------------------------------------------------------------------

  predicate Leap(y: int) {
    y % 4 == 0 && (y % 100 != 0 || y % 400 == 0)
  }

  function DaysIn(y: int, m: int): int {
    if m == 2 then (if Leap(y) then 29 else 28)
    else if m == 4 || m == 6 || m == 9 || m == 11 then 30
    else 31
  }

  predicate ValidDate(d: Date) {
    1 <= d.month <= 12 && 1 <= d.day <= DaysIn(d.year, d.month)
  }

  function NextDay(d: Date): Date {
    if d.day < DaysIn(d.year, d.month) then d.(day := d.day + 1)
    else if d.month < 12 then Date(d.year, d.month + 1, 1)
    else Date(d.year + 1, 1, 1)
  }

  function PreviousDay(d: Date): Date {
    if d.day > 1 then d.(day := d.day - 1)
    else if d.month > 1 then Date(d.year, d.month - 1, DaysIn(d.year, d.month - 1))
    else Date(d.year - 1, 12, 31)
  }

  /** Day `z` counted from 1 January 1970, one day at a time in either direction. */
  function CountedDate(z: int): Date
    decreases if z < 0 then -z else z
  {
    if z == 0 then Date(1970, 1, 1)
    else if z > 0 then NextDay(CountedDate(z - 1))
    else PreviousDay(CountedDate(z + 1))
  }

  // ---------------------------------------------------------------------------
  // The closed form
  // ---------------------------------------------------------------------------

  /** Integer division truncating toward zero. */
  function Trunc(a: int, b: int): int
    requires b > 0
  {
    if a >= 0 then a / b else -((-a) / b)
  }

  /** Year of the 400-year era, from the day of the era. */
  function YearOfEra(doe: int): int {
    (doe - doe / 1460 + doe / 36_524 - doe / 146_096) / 365
  }

  /** Month and day from a March-based year and its day number. */
  function FromMarch(y: int, doy: int): Date {
    var mp := (5 * doy + 2) / 153;
    var month := if mp < 10 then mp + 3 else mp - 9;
    Date(if month <= 2 then y + 1 else y, month, doy - (153 * mp + 2) / 5 + 1)
  }

  function EraOf(z: int): int {
    Trunc(if z >= 0 then z else z - 146_096, 146_097)
  }

  /** Days since 1 January 1970 to a date; the epoch is moved to 1 March of year 0. */
  function CivilFromDays(days: int): Date {
    var z := days + 719_468;
    var era := EraOf(z);
    var doe := z - era * 146_097;
    var yoe := YearOfEra(doe);
    FromMarch(yoe + era * 400, doe - (365 * yoe + yoe / 4 - yoe / 100))
  }

  /** First day of March-based year `y`, counted from 1 March of year 0. */
  function YearStart(y: int): int {
    365 * y + y / 4 - y / 100 + y / 400
  }

  lemma EraFloor(z: int)
    ensures 0 <= z - EraOf(z) * 146_097 <= 146_096
  {
  }

  /** Day-of-era written as centuries, four-year blocks, years and days. */
  lemma YearOfEraParts(c: int, q: int, s: int, t: int)
    requires 0 <= c <= 3 && 0 <= q <= 24 && 0 <= s <= 3 && 0 <= t <= 365
    requires t == 365 ==> s == 3 && (q < 24 || c == 3)
    ensures YearOfEra(36_524 * c + 1461 * q + 365 * s + t) == 100 * c + 4 * q + s
  {
    var doe := 36_524 * c + 1461 * q + 365 * s + t;
    if doe < 146_096 {
      assert doe / 36_524 == c && doe / 146_096 == 0;
      var e := (24 * c + q + 365 * s + t) / 1460;
      assert doe == 1460 * (25 * c + q) + (24 * c + q + 365 * s + t);
      assert doe / 1460 == 25 * c + q + e;
    }
  }

  lemma YearStartParts(c: int, q: int, s: int)
    requires 0 <= c <= 3 && 0 <= q <= 24 && 0 <= s <= 3
    ensures YearStart(100 * c + 4 * q + s) == 36_524 * c + 1461 * q + 365 * s
    ensures YearStart(100 * c + 4 * q + s + 1) == 36_524 * c + 1461 * q + 365 * s
            + if s == 3 && (q < 24 || c == 3) then 366 else 365
  {
    var y := 100 * c + 4 * q + s;
    Quotients(y, 25 * c + q, c, 0);
    if s < 3 {
      Quotients(y + 1, 25 * c + q, c, 0);
    } else if q < 24 {
      Quotients(y + 1, 25 * c + q + 1, c, 0);
    } else {
      Quotients(y + 1, 25 * c + q + 1, c + 1, if c == 3 then 1 else 0);
    }
  }

  lemma Quotients(y: int, a: int, b: int, c: int)
    requires 4 * a <= y < 4 * a + 4 && 100 * b <= y < 100 * b + 100 && 400 * c <= y < 400 * c + 400
    ensures y / 4 == a && y / 100 == b && y / 400 == c
  {
  }

  /** Every day of an era splits that way. */
  lemma EraParts(doe: int) returns (c: int, q: int, s: int, t: int)
    requires 0 <= doe <= 146_096
    ensures 0 <= c <= 3 && 0 <= q <= 24 && 0 <= s <= 3 && 0 <= t <= 365
    ensures t == 365 ==> s == 3 && (q < 24 || c == 3)
    ensures doe == 36_524 * c + 1461 * q + 365 * s + t
  {
    c := if doe < 36_524 then 0 else if doe < 73_048 then 1 else if doe < 109_572 then 2 else 3;
    var r := doe - 36_524 * c;
    q := r / 1461;
    var d := r - 1461 * q;
    assert 0 <= d < 1461;
    s := if d < 365 then 0 else if d < 730 then 1 else if d < 1095 then 2 else 3;
    t := d - 365 * s;
  }

  lemma YearOfEraExact(doe: int)
    requires 0 <= doe <= 146_096
    ensures var y := YearOfEra(doe);
            0 <= y <= 399 && YearStart(y) <= doe < YearStart(y + 1)
  {
    hide YearOfEra, YearStart;
    var c, q, s, t := EraParts(doe);
    YearOfEraParts(c, q, s, t);
    YearStartParts(c, q, s);
  }

  // ---------------------------------------------------------------------------
  // March-based years over the whole line of days
  // ---------------------------------------------------------------------------

  /** Length of the year from 1 March of calendar year `y`; its February is in `y + 1`. */
  function YearLength(y: int): int {
    if Leap(y + 1) then 366 else 365
  }

  lemma YearStartStep(y: int)
    ensures YearStart(y + 1) == YearStart(y) + YearLength(y)
  {
    assert (y + 1) / 4 == y / 4 + if (y + 1) % 4 == 0 then 1 else 0;
    assert (y + 1) / 100 == y / 100 + if (y + 1) % 100 == 0 then 1 else 0;
    assert (y + 1) / 400 == y / 400 + if (y + 1) % 400 == 0 then 1 else 0;
    assert (y + 1) % 400 == 0 ==> (y + 1) % 100 == 0;
    assert (y + 1) % 100 == 0 ==> (y + 1) % 4 == 0;
  }

  lemma YearStartEra(y: int)
    ensures YearStart(y + 400) == YearStart(y) + 146_097
  {
    Quotients(y, y / 4, y / 100, y / 400);
    Quotients(y + 400, y / 4 + 100, y / 100 + 4, y / 400 + 1);
  }

  lemma {:induction false} YearStartEras(y: int, e: int)
    ensures YearStart(y + 400 * e) == YearStart(y) + 146_097 * e
    decreases if e < 0 then -e else e
  {
    if e > 0 {
      YearStartEras(y, e - 1);
      YearStartEra(y + 400 * (e - 1));
    } else if e < 0 {
      YearStartEras(y, e + 1);
      YearStartEra(y + 400 * e);
    }
  }

  lemma {:induction false} YearStartMonotone(a: int, b: int)
    requires a < b
    ensures YearStart(a + 1) <= YearStart(b)
    decreases b - a
  {
    if a + 1 < b {
      YearStartMonotone(a, b - 1);
      YearStartStep(b - 1);
    }
  }

  predicate InYear(z: int, y: int) {
    YearStart(y) <= z < YearStart(y + 1)
  }

  lemma InYearUnique(z: int, a: int, b: int)
    requires InYear(z, a) && InYear(z, b)
    ensures a == b
  {
    if a < b { YearStartMonotone(a, b); } else if b < a { YearStartMonotone(b, a); }
  }

  /** The closed form finds the March-based year that holds the day. */
  lemma CivilInYear(days: int) returns (y: int)
    ensures InYear(days + 719_468, y)
    ensures CivilFromDays(days) == FromMarch(y, days + 719_468 - YearStart(y))
  {
    hide FromMarch, YearOfEra, EraOf;
    var z := days + 719_468;
    var era := EraOf(z);
    var doe := z - era * 146_097;
    EraFloor(z);
    YearOfEraExact(doe);
    var yoe := YearOfEra(doe);
    y := yoe + 400 * era;
    YearStartEras(yoe, era);
    YearStartEras(yoe + 1, era);
    assert YearStart(yoe) == 365 * yoe + yoe / 4 - yoe / 100;
  }

  function MonthStart(mp: int): int {
    (153 * mp + 2) / 5
  }

  /** The month formula is the inverse of the month starts 0, 31, 61, ... 337. */
  lemma MonthFormula(doy: int)
    requires 0 <= doy <= 365
    ensures var mp := (5 * doy + 2) / 153;
            0 <= mp <= 11 && MonthStart(mp) <= doy && (mp < 11 ==> doy < MonthStart(mp + 1))
  {
  }

  lemma MonthLengths(y: int, mp: int)
    requires 0 <= mp <= 10
    ensures MonthStart(mp + 1) - MonthStart(mp) ==
            DaysIn(if mp < 10 then y else y + 1, if mp < 10 then mp + 3 else mp - 9)
  {
  }

  lemma NextMonth(doy: int)
    requires 0 <= doy < 365
    ensures var mp := (5 * doy + 2) / 153;
            (5 * (doy + 1) + 2) / 153 == if mp < 11 && doy + 1 == MonthStart(mp + 1) then mp + 1 else mp
  {
  }

  lemma MarchMonths(y: int, doy: int)
    requires 0 <= doy < YearLength(y)
    ensures ValidDate(FromMarch(y, doy))
    ensures NextDay(FromMarch(y, doy)) ==
            if doy + 1 < YearLength(y) then FromMarch(y, doy + 1) else FromMarch(y + 1, 0)
  {
    hide Leap;
    MonthFormula(doy);
    var mp := (5 * doy + 2) / 153;
    if mp <= 10 { MonthLengths(y, mp); }
    if doy < 365 { NextMonth(doy); }
    assert MonthStart(11) == 337;
  }

  /** Consecutive days are calendar successors, for every day in either direction. */
  lemma CivilSuccessor(z: int)
    ensures ValidDate(CivilFromDays(z))
    ensures CivilFromDays(z + 1) == NextDay(CivilFromDays(z))
  {
    hide CivilFromDays, FromMarch, YearStart, Leap, ValidDate, NextDay;
    var y := CivilInYear(z);
    var y' := CivilInYear(z + 1);
    var doy := z + 719_468 - YearStart(y);
    YearStartStep(y);
    YearStartStep(y + 1);
    MarchMonths(y, doy);
    InYearUnique(z + 719_469, y', if doy + 1 < YearLength(y) then y else y + 1);
  }

  lemma PreviousUndoesNext(d: Date)
    requires ValidDate(d)
    ensures PreviousDay(NextDay(d)) == d
  {
  }

  lemma Epoch()
    ensures CivilFromDays(0) == Date(1970, 1, 1)
  {
  }

  /** The closed form is the calendar: it agrees with counting days from the epoch. */
  lemma {:induction false} CivilIsCounted(z: int)
    ensures CivilFromDays(z) == CountedDate(z)
    decreases if z < 0 then -z else z
  {
    hide CivilFromDays;
    Epoch();
    if z > 0 {
      CivilIsCounted(z - 1);
      CivilSuccessor(z - 1);
    } else if z < 0 {
      CivilIsCounted(z + 1);
      CivilSuccessor(z);
      PreviousUndoesNext(CivilFromDays(z));
    }
  }

  // ---------------------------------------------------------------------------
  // The HTTP date
  // ---------------------------------------------------------------------------

  const DAY: nat := 86_400
  const WEEKDAYS: seq<string> := ["Sun", "Mon", "Tue", "Wed", "Thu", "Fri", "Sat"]
  const MONTHS: seq<string> :=
    ["Jan", "Feb", "Mar", "Apr", "May", "Jun", "Jul", "Aug", "Sep", "Oct", "Nov", "Dec"]

  /** Weekday of day `z`, counted from Thursday 1 January 1970. */
  function CountedWeekday(z: int): int
    decreases if z < 0 then -z else z
  {
    if z == 0 then 4
    else if z > 0 then (if CountedWeekday(z - 1) == 6 then 0 else CountedWeekday(z - 1) + 1)
    else (if CountedWeekday(z + 1) == 0 then 6 else CountedWeekday(z + 1) - 1)
  }

  lemma {:induction false} WeekdayIsCounted(z: int)
    ensures (z + 4) % 7 == CountedWeekday(z)
    decreases if z < 0 then -z else z
  {
    if z > 0 { WeekdayIsCounted(z - 1); } else if z < 0 { WeekdayIsCounted(z + 1); }
  }

  function Digit(n: nat): char
    requires n < 10
  {
    '0' + n as char
  }

  function Decimal(n: nat): string {
    if n < 10 then [Digit(n)] else Decimal(n / 10) + [Digit(n % 10)]
  }

  /** `{n:0w$}`: at least `w` digits. */
  function Padded(n: nat, w: nat): string {
    var d := Decimal(n);
    if |d| >= w then d else Zeros(w - |d|) + d
  }

  function Zeros(n: nat): string {
    if n == 0 then "" else "0" + Zeros(n - 1)
  }

  datatype TimeOfDay = TimeOfDay(hour: nat, minute: nat, second: nat)

  function Clock(secs: nat): TimeOfDay {
    var tod := secs % DAY;
    TimeOfDay(tod / 3600, (tod % 3600) / 60, tod % 60)
  }

  /** The part after the year. */
  function RenderTime(t: TimeOfDay): string {
    " " + (Padded(t.hour, 2) + (":" + (Padded(t.minute, 2) + (":" + (Padded(t.second, 2) + " GMT")))))
  }

  function Render(wday: string, d: Date, t: TimeOfDay): string
    requires ValidDate(d) && d.year >= 0
  {
    wday + (", " + (Padded(d.day, 2) + (" " + (MONTHS[d.month - 1] + (" " + (Padded(d.year, 4) + RenderTime(t)))))))
  }

  lemma {:induction false} YearsFromEpoch(z: nat)
    ensures CountedDate(z).year >= 1970 && ValidDate(CountedDate(z))
  {
    if z > 0 { YearsFromEpoch(z - 1); }
  }

  function FormatHttpDate(secs: nat): string {
    var days := secs / DAY;
    CivilIsCounted(days);
    YearsFromEpoch(days);
    Render(WEEKDAYS[(days + 4) % 7], CivilFromDays(days), Clock(secs))
  }

  lemma ClockParts(secs: nat)
    ensures var t := Clock(secs);
            && t.hour < 24 && t.minute < 60 && t.second < 60
            && secs == DAY * (secs / DAY) + 3600 * t.hour + 60 * t.minute + t.second
  {
    var tod := secs % DAY;
    assert tod == 3600 * (tod / 3600) + tod % 3600;
    assert (tod % 3600) % 60 == tod % 60;
  }

  /** The header shows the counted weekday, the counted date and the time of day, and
      those fields give the second back. */
  lemma HttpDateFields(secs: nat)
    ensures var days := secs / DAY; var t := Clock(secs);
            && ValidDate(CountedDate(days)) && CountedDate(days).year >= 0
            && 0 <= CountedWeekday(days) < 7
            && FormatHttpDate(secs) == Render(WEEKDAYS[CountedWeekday(days)], CountedDate(days), t)
            && t.hour < 24 && t.minute < 60 && t.second < 60
            && secs == DAY * days + 3600 * t.hour + 60 * t.minute + t.second
  {
    hide CivilFromDays, Render, CountedDate;
    CivilIsCounted(secs / DAY);
    YearsFromEpoch(secs / DAY);
    WeekdayIsCounted(secs / DAY);
    ClockParts(secs);
  }

  lemma PaddedTwo(n: nat)
    requires n < 100
    ensures Padded(n, 2) == [Digit(n / 10), Digit(n % 10)]
  {
    if n < 10 {
      assert Zeros(1) == "0" + Zeros(0) == "0";
      assert Padded(n, 2) == "0" + [Digit(n)];
    } else {
      assert Decimal(n) == Decimal(n / 10) + [Digit(n % 10)];
    }
  }

  lemma {:induction false} DecimalLength(n: nat)
    ensures |Decimal(n)| >= 1
    ensures n >= 1000 ==> |Decimal(n)| >= 4
    ensures n <= 9999 <==> |Decimal(n)| <= 4
  {
    if n >= 10 {
      DecimalLength(n / 10);
      if n >= 100 { DecimalLength(n / 100); assert n / 10 / 10 == n / 100; }
      if n >= 1000 { DecimalLength(n / 1000); assert n / 100 / 10 == n / 1000; }
      if n >= 10000 { DecimalLength(n / 10000); assert n / 1000 / 10 == n / 10000; }
    }
  }

  lemma DayFits(d: Date)
    requires ValidDate(d)
    ensures 1 <= d.day <= 31 && 1 <= d.month <= 12
  {
  }

  lemma MonthNamesWidth(m: int)
    requires 0 <= m < 12
    ensures |MONTHS[m]| == 3
  {
  }

  lemma RenderWidth(wday: string, d: Date, t: TimeOfDay)
    requires |wday| == 3 && ValidDate(d) && d.year >= 1000
    requires t.hour < 24 && t.minute < 60 && t.second < 60
    ensures |Render(wday, d, t)| == 25 + |Decimal(d.year)|
  {
    hide Padded, RenderTime, ValidDate, Decimal;
    DayFits(d);
    PaddedTwo(d.day);
    PaddedYear(d.year);
    MonthNamesWidth(d.month - 1);
    RenderTimeWidth(t);
  }

  lemma PaddedYear(y: nat)
    requires y >= 1000
    ensures Padded(y, 4) == Decimal(y)
  {
    DecimalLength(y);
  }

  /** The header has the fixed width of an IMF-fixdate exactly up to the year 9999. */
  lemma HttpDateWidth(secs: nat)
    ensures |FormatHttpDate(secs)| == 29 <==> CountedDate(secs / DAY).year <= 9999
  {
    hide FormatHttpDate, CivilFromDays, CountedDate, CountedWeekday, Clock, Render, Decimal, ValidDate;
    HttpDateFields(secs);
    YearsFromEpoch(secs / DAY);
    RenderWidth(WEEKDAYS[CountedWeekday(secs / DAY)], CountedDate(secs / DAY), Clock(secs));
    DecimalLength(CountedDate(secs / DAY).year);
  }

  lemma {:induction false} DecimalInjective(a: nat, b: nat)
    requires Decimal(a) == Decimal(b)
    ensures a == b
  {
    DecimalLength(a / 10);
    DecimalLength(b / 10);
    if a >= 10 && b >= 10 {
      var da, db := Decimal(a / 10), Decimal(b / 10);
      assert Decimal(a)[..|da|] == da && Decimal(b)[..|db|] == db;
      assert Decimal(a)[|da|] == Decimal(b)[|db|];
      DecimalInjective(a / 10, b / 10);
    } else if a < 10 && b < 10 {
      assert Decimal(a)[0] == Decimal(b)[0];
    }
  }

  lemma PaddedTwoInjective(a: nat, b: nat)
    requires a < 100 && b < 100 && Padded(a, 2) == Padded(b, 2)
    ensures a == b
  {
    PaddedTwo(a);
    PaddedTwo(b);
    assert Padded(a, 2)[0] == Padded(b, 2)[0] && Padded(a, 2)[1] == Padded(b, 2)[1];
  }

  lemma MonthNamesDistinct(a: int, b: int)
    requires 0 <= a < 12 && 0 <= b < 12 && MONTHS[a] == MONTHS[b]
    ensures a == b
  {
    assert MONTHS[a][0] == MONTHS[b][0] && MONTHS[a][1] == MONTHS[b][1] && MONTHS[a][2] == MONTHS[b][2];
  }

  lemma Cancel(a: string, x: string, b: string, y: string)
    requires |a| == |b| && a + x == b + y
    ensures a == b && x == y
  {
    assert a == (a + x)[..|a|] && x == (a + x)[|a|..];
    assert b == (b + y)[..|b|] && y == (b + y)[|b|..];
  }

  lemma FromMarchInjective(y1: int, d1: int, y2: int, d2: int)
    requires 0 <= d1 <= 365 && 0 <= d2 <= 365 && FromMarch(y1, d1) == FromMarch(y2, d2)
    ensures y1 == y2 && d1 == d2
  {
    assert 0 <= (5 * d1 + 2) / 153 <= 11 && 0 <= (5 * d2 + 2) / 153 <= 11;
    assert (5 * d1 + 2) / 153 == (5 * d2 + 2) / 153;
  }

  lemma DatesDistinct(a: int, b: int)
    requires CountedDate(a) == CountedDate(b)
    ensures a == b
  {
    hide CivilFromDays, FromMarch;
    CivilIsCounted(a);
    CivilIsCounted(b);
    var ya := CivilInYear(a);
    var yb := CivilInYear(b);
    YearStartStep(ya);
    YearStartStep(yb);
    FromMarchInjective(ya, a + 719_468 - YearStart(ya), yb, b + 719_468 - YearStart(yb));
  }

  lemma RenderTimeInjective(ta: TimeOfDay, tb: TimeOfDay)
    requires ta.hour < 24 && ta.minute < 60 && ta.second < 60
    requires tb.hour < 24 && tb.minute < 60 && tb.second < 60
    requires RenderTime(ta) == RenderTime(tb)
    ensures ta == tb
  {
    PaddedTwo(ta.hour); PaddedTwo(ta.minute); PaddedTwo(ta.second);
    PaddedTwo(tb.hour); PaddedTwo(tb.minute); PaddedTwo(tb.second);
    hide Padded;
    var (ha, ma, sa) := (Padded(ta.hour, 2), Padded(ta.minute, 2), Padded(ta.second, 2));
    var (hb, mb, sb) := (Padded(tb.hour, 2), Padded(tb.minute, 2), Padded(tb.second, 2));
    Cancel(" ", ha + (":" + (ma + (":" + (sa + " GMT")))), " ", hb + (":" + (mb + (":" + (sb + " GMT")))));
    Cancel(ha, ":" + (ma + (":" + (sa + " GMT"))), hb, ":" + (mb + (":" + (sb + " GMT"))));
    Cancel(":", ma + (":" + (sa + " GMT")), ":", mb + (":" + (sb + " GMT")));
    Cancel(ma, ":" + (sa + " GMT"), mb, ":" + (sb + " GMT"));
    Cancel(":", sa + " GMT", ":", sb + " GMT");
    Cancel(sa, " GMT", sb, " GMT");
    PaddedTwoInjective(ta.hour, tb.hour);
    PaddedTwoInjective(ta.minute, tb.minute);
    PaddedTwoInjective(ta.second, tb.second);
  }

  lemma RenderTimeWidth(t: TimeOfDay)
    requires t.hour < 24 && t.minute < 60 && t.second < 60
    ensures |RenderTime(t)| == 13
  {
    PaddedTwo(t.hour); PaddedTwo(t.minute); PaddedTwo(t.second);
    hide Padded;
  }

  lemma RenderInjective(wa: string, da: Date, ta: TimeOfDay, wb: string, db: Date, tb: TimeOfDay)
    requires |wa| == 3 && ValidDate(da) && da.year >= 1000
    requires ta.hour < 24 && ta.minute < 60 && ta.second < 60
    requires |wb| == 3 && ValidDate(db) && db.year >= 1000
    requires tb.hour < 24 && tb.minute < 60 && tb.second < 60
    requires Render(wa, da, ta) == Render(wb, db, tb)
    ensures da == db && ta == tb
  {
    hide Padded, Decimal, RenderTime, ValidDate;
    DayFits(da);
    DayFits(db);
    PaddedTwo(da.day);
    PaddedTwo(db.day);
    PaddedYear(da.year);
    PaddedYear(db.year);
    RenderTimeWidth(ta);
    RenderTimeWidth(tb);
    MonthNamesWidth(da.month - 1);
    MonthNamesWidth(db.month - 1);
    var (dda, mona, yya, za) := (Padded(da.day, 2), MONTHS[da.month - 1], Padded(da.year, 4), RenderTime(ta));
    var (ddb, monb, yyb, zb) := (Padded(db.day, 2), MONTHS[db.month - 1], Padded(db.year, 4), RenderTime(tb));
    Cancel(wa, ", " + (dda + (" " + (mona + (" " + (yya + za))))),
           wb, ", " + (ddb + (" " + (monb + (" " + (yyb + zb))))));
    Cancel(", ", dda + (" " + (mona + (" " + (yya + za)))), ", ", ddb + (" " + (monb + (" " + (yyb + zb)))));
    Cancel(dda, " " + (mona + (" " + (yya + za))), ddb, " " + (monb + (" " + (yyb + zb))));
    Cancel(" ", mona + (" " + (yya + za)), " ", monb + (" " + (yyb + zb)));
    Cancel(mona, " " + (yya + za), monb, " " + (yyb + zb));
    Cancel(" ", yya + za, " ", yyb + zb);
    assert |yya + za| == |yyb + zb|;
    Cancel(yya, za, yyb, zb);
    PaddedTwoInjective(da.day, db.day);
    MonthNamesDistinct(da.month - 1, db.month - 1);
    DecimalInjective(da.year, db.year);
    RenderTimeInjective(ta, tb);
  }

  /** Different seconds never share a header: the date line determines the second. */
  lemma HttpDateInjective(a: nat, b: nat)
    requires FormatHttpDate(a) == FormatHttpDate(b)
    ensures a == b
  {
    HttpDateFields(a);
    HttpDateFields(b);
    hide FormatHttpDate, CountedDate, Clock, CountedWeekday, Render;
    YearsFromEpoch(a / DAY);
    YearsFromEpoch(b / DAY);
    RenderInjective(WEEKDAYS[CountedWeekday(a / DAY)], CountedDate(a / DAY), Clock(a),
                    WEEKDAYS[CountedWeekday(b / DAY)], CountedDate(b / DAY), Clock(b));
    DatesDistinct(a / DAY, b / DAY);
  }

  // ---------------------------------------------------------------------------
  // The header, character by character
  // ---------------------------------------------------------------------------

  /** Two decimal digits of a number below 100. */
  predicate TwoDigitsAt(s: string, i: nat, n: nat) {
    i + 2 <= |s| && n < 100 && s[i] as int == 48 + n / 10 && s[i + 1] as int == 48 + n % 10
  }

  lemma DigitsStand(n: nat)
    requires n < 100
    ensures |Padded(n, 2)| == 2 && TwoDigitsAt(Padded(n, 2), 0, n)
  {
    hide Padded;
    PaddedTwo(n);
  }

  lemma NameTables()
    ensures MONTHS[0] == "Jan" && MONTHS[1] == "Feb" && MONTHS[2] == "Mar" && MONTHS[3] == "Apr"
    ensures MONTHS[4] == "May" && MONTHS[5] == "Jun" && MONTHS[6] == "Jul" && MONTHS[7] == "Aug"
    ensures MONTHS[8] == "Sep" && MONTHS[9] == "Oct" && MONTHS[10] == "Nov" && MONTHS[11] == "Dec"
    ensures WEEKDAYS[0] == "Sun" && WEEKDAYS[1] == "Mon" && WEEKDAYS[2] == "Tue" && WEEKDAYS[3] == "Wed"
    ensures WEEKDAYS[4] == "Thu" && WEEKDAYS[5] == "Fri" && WEEKDAYS[6] == "Sat"
  {
  }

  lemma TimeShape(t: TimeOfDay)
    requires t.hour < 24 && t.minute < 60 && t.second < 60
    ensures var r := RenderTime(t);
            && |r| == 13 && r[0] == ' ' && r[3] == ':' && r[6] == ':' && r[9..] == " GMT"
            && TwoDigitsAt(r, 1, t.hour) && TwoDigitsAt(r, 4, t.minute) && TwoDigitsAt(r, 7, t.second)
  {
    hide Padded;
    DigitsStand(t.hour);
    DigitsStand(t.minute);
    DigitsStand(t.second);
    var (h, m, x) := (Padded(t.hour, 2), Padded(t.minute, 2), Padded(t.second, 2));
    assert RenderTime(t) == [' ', h[0], h[1], ':', m[0], m[1], ':', x[0], x[1]] + " GMT";
  }

  lemma DateShape(wday: string, d: Date, t: TimeOfDay)
    requires |wday| == 3 && ValidDate(d) && d.year >= 1000
    ensures var r := Render(wday, d, t); var y := Decimal(d.year);
            && |r| == 12 + |y| + |RenderTime(t)| && r[..3] == wday && r[3..5] == ", " && TwoDigitsAt(r, 5, d.day)
            && r[7] == ' ' && r[8..11] == MONTHS[d.month - 1] && r[11] == ' '
            && r[12..12 + |y|] == y && r[12 + |y|..] == RenderTime(t)
  {
    hide Padded, RenderTime, Decimal, ValidDate;
    DayFits(d);
    DigitsStand(d.day);
    PaddedYear(d.year);
    MonthNamesWidth(d.month - 1);
    var (dd, mon, y, z) := (Padded(d.day, 2), MONTHS[d.month - 1], Decimal(d.year), RenderTime(t));
    var r := Render(wday, d, t);
    var head := wday + (", " + (dd + (" " + (mon + " "))));
    assert |head| == 12;
    assert r == head + (y + z);
    HeadShape(wday, dd, mon, head);
  }

  lemma HeadShape(wday: string, dd: string, mon: string, head: string)
    requires |wday| == 3 && |dd| == 2 && |mon| == 3 && head == wday + (", " + (dd + (" " + (mon + " "))))
    ensures |head| == 12 && head[..3] == wday && head[3..5] == ", " && head[5..7] == dd
    ensures head[7] == ' ' && head[8..11] == mon && head[11] == ' '
  {
  }

  lemma ExampleDay()
    ensures CivilFromDays(9075) == Date(1994, 11, 6)
  {
    assert EraOf(728_543) == 4 && YearOfEra(144_155) == 394;
  }

  lemma ExampleClock()
    ensures Clock(784_111_777) == TimeOfDay(8, 49, 37)
    ensures 784_111_777 / DAY == 9075 && (9075 + 4) % 7 == 0
  {
    assert 784_111_777 % DAY == 31_777;
  }

  lemma ExampleTime()
    ensures RenderTime(TimeOfDay(8, 49, 37)) == " 08:49:37 GMT"
  {
    PaddedTwo(8);
    PaddedTwo(49);
    PaddedTwo(37);
    assert Padded(8, 2) == "08" && Padded(49, 2) == "49" && Padded(37, 2) == "37";
    hide Padded;
  }

  /** The example of section 5.6.7 of RFC 9110: Sun, 06 Nov 1994 08:49:37 GMT. */
  lemma Rfc9110Example()
    ensures var r := FormatHttpDate(784_111_777);
            && |r| == 29 && r[..3] == "Sun" && r[3..5] == ", " && r[5..7] == "06" && r[7] == ' '
            && r[8..11] == "Nov" && r[11] == ' ' && r[12..16] == "1994" && r[16..] == " 08:49:37 GMT"
  {
    hide CivilFromDays, Clock, Render, Decimal, RenderTime;
    ExampleDay();
    ExampleClock();
    ExampleTime();
    Year1994();
    var (w, d, t) := (WEEKDAYS[0], Date(1994, 11, 6), TimeOfDay(8, 49, 37));
    assert FormatHttpDate(784_111_777) == Render(w, d, t);
    DateShape(w, d, t);
    NameTables();
    Digits06(Render(w, d, t));
  }

  lemma Digits06(r: string)
    requires TwoDigitsAt(r, 5, 6)
    ensures r[5..7] == "06"
  {
    assert r[5] as int == 48 && r[6] as int == 54;
  }

  lemma Year1994()
    ensures Decimal(1994) == "1994"
  {
    assert Decimal(1) == "1";
    assert Decimal(19) == Decimal(1) + "9";
    assert Decimal(199) == Decimal(19) + "9";
    assert Decimal(1994) == Decimal(199) + "4";
  }
}

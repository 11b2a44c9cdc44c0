/** The calendar conversion of src/app_time.c, proved against the Gregorian calendar
    counted forward one day at a time. */
module Calendar {
  import Bits
  import Words

  // ----- the Gregorian calendar

  datatype Date = Date(year: int, month: int, day: int)

  predicate IsLeap(y: int) {
    y % 4 == 0 && (y % 100 != 0 || y % 400 == 0)
  }

  function DaysInMonth(y: int, m: int): int {
    if m == 2 then (if IsLeap(y) then 29 else 28)
    else if m == 4 || m == 6 || m == 9 || m == 11 then 30
    else 31
  }

  predicate IsDate(d: Date) {
    1 <= d.month <= 12 && 1 <= d.day <= DaysInMonth(d.year, d.month)
  }

  function NextDay(d: Date): Date {
    if d.day < DaysInMonth(d.year, d.month) then d.(day := d.day + 1)
    else if d.month < 12 then Date(d.year, d.month + 1, 1)
    else Date(d.year + 1, 1, 1)
  }

  /** The date n days after 2000-01-01. */
  function Civil(n: nat): Date {
    if n == 0 then Date(2000, 1, 1) else NextDay(Civil(n - 1))
  }

  /** The last day number a 32-bit second counter can reach. */
  const LAST_DAY := 49710

  // ----- the three layers of the conversion (app_time.c:103-111), each a rounded-down quotient

  const EPOCH := 32044 + 2451911 - 366

  /** ace falls in century b, a1 days after its 1 March. */
  predicate InCentury(ace: int, b: int, a1: int) {
    && 146097 * b <= 4 * ace + 3 < 146097 * (b + 1)
    && 4 * (ace - a1) <= 146097 * b < 4 * (ace - a1) + 4
  }

  /** a1 falls in year d of its century, a2 days after 1 March. */
  predicate InYear(a1: int, d: int, a2: int) {
    && 1461 * d <= 4 * a1 + 3 < 1461 * (d + 1)
    && 4 * (a1 - a2) <= 1461 * d < 4 * (a1 - a2) + 4
  }

  /** a2 falls in month m counted from March, on that day of the month. */
  predicate InMonth(a2: int, m: int, day: int) {
    && 153 * m <= 5 * a2 + 2 < 153 * (m + 1)
    && 5 * (a2 + 1 - day) <= 153 * m + 2 < 5 * (a2 + 1 - day) + 5
  }

  function Compose(b: int, d: int, m: int, day: int): Date {
    Date(100 * b + d - 4800 + m / 10, m + 3 - 12 * (m / 10), day)
  }

  /** Lengths counted from 1 March: the leap day, when there is one, comes last. */
  function CenturyLength(b: int): int {
    if (b + 1) % 4 == 0 then 36525 else 36524
  }

  function YearLength(d: int): int {
    if d % 4 == 3 then 366 else 365
  }

  function CivilLength(b: int, d: int): int {
    if IsLeap(100 * b + d - 4800 + 1) then 366 else 365
  }

  function MonthLength(m: int): int {
    if m == 11 then 29 else if m == 1 || m == 3 || m == 6 || m == 8 then 30 else 31
  }

  // ----- what each layer does from one day to the next

  lemma CenturyStep(ace: int, b: int, a1: int, b': int, a1': int)
    requires EPOCH <= ace <= EPOCH + LAST_DAY
    requires InCentury(ace, b, a1) && InCentury(ace + 1, b', a1')
    ensures 67 <= b <= 69 && 0 <= a1 < CenturyLength(b)
    ensures if a1 + 1 < CenturyLength(b) then b' == b && a1' == a1 + 1 else b' == b + 1 && a1' == 0
  {
  }

  lemma YearStep(a1: int, d: int, a2: int, d': int, a2': int)
    requires 0 <= a1 < 36525 && InYear(a1, d, a2) && InYear(a1 + 1, d', a2')
    ensures 0 <= d <= 99 && 0 <= a2 < YearLength(d)
    ensures if a2 + 1 < YearLength(d) then d' == d && a2' == a2 + 1 else d' == d + 1 && a2' == 0
  {
    var q, s, q', s' := d / 4, d % 4, d' / 4, d' % 4;
    assert d == 4 * q + s && d' == 4 * q' + s';
  }

  lemma MonthStep(a2: int, m: int, day: int, m': int, day': int)
    requires 0 <= a2 < 365 && InMonth(a2, m, day) && InMonth(a2 + 1, m', day')
    ensures 0 <= m <= 11 && 1 <= day <= MonthLength(m)
    ensures if day < MonthLength(m) then m' == m && day' == day + 1 else m' == m + 1 && day' == 1
  {
  }

  lemma MonthEdges(a2: int, m: int, day: int)
    requires 0 <= a2 < 366 && InMonth(a2, m, day)
    ensures 0 <= m <= 11 && 1 <= day <= MonthLength(m)
    ensures a2 == 0 ==> m == 0 && day == 1
    ensures a2 == 364 <==> m == 11 && day == 28
    ensures a2 == 365 <==> m == 11 && day == 29
  {
  }

  lemma LeapFebruary(b: int, d: int)
    requires 0 <= d <= 99
    ensures CivilLength(b, d) == if d == 99 then (if (b + 1) % 4 == 0 then 366 else 365) else YearLength(d)
  {
    if d == 99 { LastOfCentury(b); } else { WithinCentury(b - 48, d); }
  }

  lemma WithinCentury(c: int, d: int)
    requires 0 <= d < 99
    ensures IsLeap(100 * c + d + 1) <==> d % 4 == 3
  {
    var y, q, r := 100 * c + d + 1, d / 4, d % 4;
    assert d == 4 * q + r;
    Bits.DivUnique(y, 100, c, d + 1);
    if r == 3 { Bits.DivUnique(y, 4, 25 * c + q + 1, 0); } else { Bits.DivUnique(y, 4, 25 * c + q, r + 1); }
  }

  lemma LastOfCentury(b: int)
    ensures IsLeap(100 * b + 99 - 4800 + 1) <==> (b + 1) % 4 == 0
  {
    var y, q, r := 100 * (b + 1 - 48), (b + 1) / 4, (b + 1) % 4;
    assert b + 1 == 4 * q + r;
    Bits.DivUnique(y, 4, 25 * (b + 1 - 48), 0);
    Bits.DivUnique(y, 100, b + 1 - 48, 0);
    Bits.DivUnique(y, 400, q - 12, 100 * r);
  }

  /** The day after, inside a March-based year or at its end. */
  lemma DayStep(b: int, d: int, a2: int, m: int, day: int, m': int, day': int)
    requires 0 <= d <= 99 && 0 <= a2 < CivilLength(b, d)
    requires InMonth(a2, m, day)
    requires a2 + 1 < CivilLength(b, d) ==> InMonth(a2 + 1, m', day')
    ensures IsDate(Compose(b, d, m, day))
    ensures NextDay(Compose(b, d, m, day)) == if a2 + 1 < CivilLength(b, d) then Compose(b, d, m', day')
                                               else Date(100 * b + d - 4800 + 1, 3, 1)
  {
    MonthEdges(a2, m, day);
    if a2 + 1 < CivilLength(b, d) { MonthStep(a2, m, day, m', day'); }
  }

  ghost predicate Layers(n: int, b: int, a1: int, d: int, a2: int, m: int, day: int) {
    InCentury(EPOCH + n, b, a1) && InYear(a1, d, a2) && InMonth(a2, m, day)
  }

  /** Where a day sits in its year, once the century's length is taken into account. */
  lemma PlaceInYear(b: int, a1: int, d: int, a2: int, d': int, a2': int)
    requires 0 <= a1 < CenturyLength(b) && InYear(a1, d, a2) && InYear(a1 + 1, d', a2')
    ensures 0 <= d <= 99 && 0 <= a2 < CivilLength(b, d)
    ensures a1 + 1 < CenturyLength(b) ==>
            if a2 + 1 < CivilLength(b, d) then d' == d && a2' == a2 + 1 else d' == d + 1 && a2' == 0
    ensures a1 + 1 == CenturyLength(b) ==> d == 99 && a2 + 1 == CivilLength(b, d)
  {
    YearStep(a1, d, a2, d', a2');
    LeapFebruary(b, d);
  }

  /** The conversion of the next day number is the next calendar day. */
  lemma DateStep(n: int, b: int, a1: int, d: int, a2: int, m: int, day: int,
                 b': int, a1': int, d': int, a2': int, m': int, day': int)
    requires 0 <= n < LAST_DAY
    requires Layers(n, b, a1, d, a2, m, day) && Layers(n + 1, b', a1', d', a2', m', day')
    ensures Compose(b', d', m', day') == NextDay(Compose(b, d, m, day)) && IsDate(Compose(b, d, m, day))
  {
    CenturyStep(EPOCH + n, b, a1, b', a1');
    if a1 + 1 < CenturyLength(b) {
      PlaceInYear(b, a1, d, a2, d', a2');
      DayStep(b, d, a2, m, day, m', day');
    } else {
      var d1, c1 := YearLayer(a1 + 1);
      PlaceInYear(b, a1, d, a2, d1, c1);
      DayStep(b, d, a2, m, day, m', day');
      FirstYear(a1', d', a2');
    }
    if a2' == 0 {
      MonthEdges(a2', m', day');
      FirstOfMarch(b', d', m', day');
    }
  }

  lemma FirstOfMarch(b: int, d: int, m: int, day: int)
    requires m == 0 && day == 1
    ensures Compose(b, d, m, day) == Date(100 * b + d - 4800, 3, 1)
  {
  }

  lemma FirstYear(a1: int, d: int, a2: int)
    requires a1 == 0 && InYear(a1, d, a2)
    ensures d == 0 && a2 == 0
  {
  }

  lemma CenturyLayer(ace: int) returns (b: int, a1: int)
    ensures InCentury(ace, b, a1)
    ensures b == (4 * ace + 3) / 146097 && a1 == ace - (146097 * b) / 4
  {
    b := (4 * ace + 3) / 146097;
    a1 := ace - (146097 * b) / 4;
  }

  lemma YearLayer(a1: int) returns (d: int, a2: int)
    ensures InYear(a1, d, a2)
    ensures d == (4 * a1 + 3) / 1461 && a2 == a1 - (1461 * d) / 4
  {
    d := (4 * a1 + 3) / 1461;
    a2 := a1 - (1461 * d) / 4;
  }

  lemma MonthLayer(a2: int) returns (m: int, day: int)
    ensures InMonth(a2, m, day)
    ensures m == (5 * a2 + 2) / 153 && day == a2 - (153 * m + 2) / 5 + 1
  {
    m := (5 * a2 + 2) / 153;
    day := a2 - (153 * m + 2) / 5 + 1;
  }

  /** The layered conversion of any day number in the counter's range is the civil date that
      many days after 2000-01-01. */
  lemma {:induction false} LayersAreCivil(n: nat, b: int, a1: int, d: int, a2: int, m: int, day: int)
    requires n <= LAST_DAY && Layers(n, b, a1, d, a2, m, day)
    ensures Compose(b, d, m, day) == Civil(n) && IsDate(Civil(n))
  {
    if n == 0 {
      assert b == 67 && a1 == 36465;
      assert d == 99 && a2 == 306;
      assert m == 10 && day == 1;
    } else {
      var b0, c0 := CenturyLayer(EPOCH + n - 1);
      var d0, e0 := YearLayer(c0);
      var m0, day0 := MonthLayer(e0);
      LayersAreCivil(n - 1, b0, c0, d0, e0, m0, day0);
      DateStep(n - 1, b0, c0, d0, e0, m0, day0, b, a1, d, a2, m, day);
      NextIsDate(Compose(b0, d0, m0, day0));
    }
  }

  lemma NextIsDate(d: Date)
    requires IsDate(d)
    ensures IsDate(NextDay(d))
  {
  }

  // ----- the day of the week (app_time.c:116-124)

  function MonthIndex(m: int): int {
    if m == 1 then 6 else if m == 2 || m == 3 || m == 11 then 2 else if m == 4 || m == 7 then 5
    else if m == 5 then 0 else if m == 6 then 3 else if m == 8 then 1 else if m == 9 || m == 12 then 4
    else 6
  }

  function YearTerm(y: int): int {
    (y / 12) + (y % 12) + ((y % 12) / 4)
  }

  /** The formula before its final reduction modulo 7. */
  function WeekdaySum(d: Date): int {
    var y := d.year % 100;
    YearTerm(y) + MonthIndex(d.month) - (if y % 4 == 0 && d.month <= 2 then 1 else 0) + d.day
  }

  function Weekday(d: Date): int {
    WeekdaySum(d) % 7
  }

  /** How far the formula runs ahead of the week: it takes every year for a year of 2000-2099. */
  function Drift(d: Date): int {
    if d.year <= 2099 then 0 else if d.year == 2100 && d.month <= 2 then 1 else 2
  }

  lemma YearTermStep(y: int)
    requires 0 <= y < 99
    ensures YearTerm(y + 1) == YearTerm(y) + if (y + 1) % 12 == 0 then -12 else if (y + 1) % 4 == 0 then 2 else 1
    ensures (y + 1) % 12 == 0 ==> (y + 1) % 4 == 0
  {
    var q, r := y / 12, y % 12;
    assert y == 12 * q + r;
    var s, t := r / 4, r % 4;
    assert r == 4 * s + t;
    if r < 11 {
      Bits.DivUnique(y + 1, 12, q, r + 1);
      if t < 3 {
        Bits.DivUnique(r + 1, 4, s, t + 1);
        Bits.DivUnique(y + 1, 4, 3 * q + s, t + 1);
      } else {
        Bits.DivUnique(r + 1, 4, s + 1, 0);
        Bits.DivUnique(y + 1, 4, 3 * q + s + 1, 0);
      }
    } else {
      Bits.DivUnique(y + 1, 12, q + 1, 0);
      Bits.DivUnique(y + 1, 4, 3 * q + 3, 0);
    }
  }

  /** In 2000-2136 the leap years are the multiples of four other than 2100. */
  lemma LeapInRange(y: int)
    requires 2000 <= y <= 2137
    ensures IsLeap(y) <==> (y % 100) % 4 == 0 && y != 2100
    ensures y % 100 == if y < 2100 then y - 2000 else y - 2100
  {
    var c := if y < 2100 then 20 else 21;
    var r := y - 100 * c;
    var q, s := r / 4, r % 4;
    assert r == 4 * q + s;
    Bits.DivUnique(y, 100, c, r);
    Bits.DivUnique(y, 4, 25 * c + q, s);
    if y < 2100 { Bits.DivUnique(y, 400, 5, r); } else { Bits.DivUnique(y, 400, 5, y - 2000); }
  }

  /** From one day to the next the sum moves by one, give or take whole weeks and the drift. */
  lemma WeekdayStep(d: Date) returns (weeks: int)
    requires IsDate(d) && 2000 <= d.year <= 2136
    ensures WeekdaySum(NextDay(d)) - Drift(NextDay(d)) == WeekdaySum(d) - Drift(d) + 1 + 7 * weeks
  {
    if d.day < DaysInMonth(d.year, d.month) {
      weeks := 0;
    } else if d.month < 12 {
      weeks := NewMonthStep(d);
    } else {
      weeks := NewYearStep(d.year);
    }
  }

  lemma NewMonthStep(d: Date) returns (weeks: int)
    requires 1 <= d.month < 12 && d.day == DaysInMonth(d.year, d.month) && 2000 <= d.year <= 2136
    ensures var e := Date(d.year, d.month + 1, 1);
      WeekdaySum(e) - Drift(e) == WeekdaySum(d) - Drift(d) + 1 + 7 * weeks
  {
    LeapInRange(d.year);
    var m := d.month;
    weeks := if m == 1 || m == 4 || m == 7 || m == 10 then -5 else -4;
    var leave := if (d.year % 100) % 4 == 0 && m == 2 then 1 else 0;
    var drift := if d.year == 2100 && m == 2 then 1 else 0;
    assert MonthIndex(m + 1) - MonthIndex(m) + 1 + leave - d.day - drift == 1 + 7 * weeks;
  }

  lemma NewYearStep(y: int) returns (weeks: int)
    requires 2000 <= y <= 2136
    ensures WeekdaySum(Date(y + 1, 1, 1)) - Drift(Date(y + 1, 1, 1))
         == WeekdaySum(Date(y, 12, 31)) - Drift(Date(y, 12, 31)) + 1 + 7 * weeks
  {
    weeks := TermStep(y);
    DecemberSum(y);
    JanuarySum(y + 1);
  }

  lemma DecemberSum(y: int)
    ensures WeekdaySum(Date(y, 12, 31)) == YearTerm(y % 100) + 35
  {
  }

  lemma JanuarySum(y: int)
    ensures WeekdaySum(Date(y, 1, 1)) == YearTerm(y % 100) + 7 - if (y % 100) % 4 == 0 then 1 else 0
  {
  }

  /** The year's part of the sum from one year to the next, with what January takes off. */
  lemma TermStep(y: int) returns (weeks: int)
    requires 2000 <= y <= 2136
    ensures YearTerm((y + 1) % 100) - (if ((y + 1) % 100) % 4 == 0 then 1 else 0)
            - (if y + 1 <= 2099 then 0 else if y + 1 == 2100 then 1 else 2)
         == YearTerm(y % 100) + 29 - (if y <= 2099 then 0 else 2) + 7 * weeks
  {
    LeapInRange(y);
    LeapInRange(y + 1);
    if y == 2099 {
      assert YearTerm(99) == 11 && YearTerm(0) == 0;
      weeks := -6;
    } else {
      YearTermStep(y % 100);
      weeks := if (y % 100 + 1) % 12 == 0 then -6 else -4;
    }
  }

  lemma {:induction false} WeekdayDrifts(n: nat)
    requires n <= LAST_DAY
    ensures IsDate(Civil(n)) && 2000 <= Civil(n).year <= 2136
    ensures Weekday(Civil(n)) == (6 + n + Drift(Civil(n))) % 7
  {
    if n == 0 {
      assert WeekdaySum(Civil(0)) == 6;
    } else {
      WeekdayDrifts(n - 1);
      YearBound(n);
      var weeks := WeekdayStep(Civil(n - 1));
      NextIsDate(Civil(n - 1));
      WeekdayNext(Civil(n - 1), Civil(n), 6 + n - 1, weeks);
    }
  }

  lemma WeekdayNext(d: Date, e: Date, k: int, weeks: int)
    requires Weekday(d) == (k + Drift(d)) % 7
    requires WeekdaySum(e) - Drift(e) == WeekdaySum(d) - Drift(d) + 1 + 7 * weeks
    ensures Weekday(e) == (k + 1 + Drift(e)) % 7
  {
    Congruent(WeekdaySum(d) - Drift(d), k, weeks, Drift(e), Drift(d));
  }

  lemma Congruent(s: int, k: int, weeks: int, drift: int, drift0: int)
    requires (s + drift0) % 7 == (k + drift0) % 7
    ensures (s + 1 + 7 * weeks + drift) % 7 == (k + 1 + drift) % 7
  {
    var a, b := (s + drift0) / 7, (k + drift0) / 7;
    var x := k + 1 + drift;
    var q, r := x / 7, x % 7;
    assert s - k == 7 * (a - b) && x == 7 * q + r;
    RestOf7(s + 1 + 7 * weeks + drift, q + (a - b) + weeks, r);
  }

  /** The counter's last day is in 2136. */
  lemma YearBound(n: nat)
    requires n <= LAST_DAY
    ensures Civil(n).year <= 2136
  {
    var b, a1 := CenturyLayer(EPOCH + n);
    var d, a2 := YearLayer(a1);
    var m, day := MonthLayer(a2);
    LayersAreCivil(n, b, a1, d, a2, m, day);
  }

  /** The reported weekday is right, Sunday being 0 and 2000-01-01 a Saturday, exactly up to 2099. */
  lemma WeekdayExactly(n: nat)
    requires n <= LAST_DAY
    ensures Weekday(Civil(n)) == (6 + n) % 7 <==> Civil(n).year <= 2099
  {
    WeekdayDrifts(n);
    DriftShows(6 + n, Drift(Civil(n)));
  }

  lemma DriftShows(x: int, drift: int)
    requires 0 <= drift < 7
    ensures (x + drift) % 7 == x % 7 <==> drift == 0
  {
    var q, r := x / 7, x % 7;
    if r + drift < 7 { RestOf7(x + drift, q, r + drift); } else { RestOf7(x + drift, q + 1, r + drift - 7); }
  }

  lemma RestOf7(x: int, q: int, r: int)
    requires x == 7 * q + r && 0 <= r < 7
    ensures x % 7 == r
  {
  }

  // ----- the routine itself

  /** The static ftime record that get_ftime fills. */
  class Ftime {
    var year: nat
    var month: nat
    var day: nat
    var wday: nat
    var hour: nat
    var minute: nat
    var second: nat

    constructor () {
      year, month, day, wday, hour, minute, second := 0, 0, 0, 0, 0, 0, 0;
    }

    ghost function Day(): Date
      reads this
    {
      Date(year, month, day)
    }
  }

  function U8(x: int): nat {
    x % 0x100
  }

  function U16(x: int): nat {
    x % 0x1_0000
  }

  /** The bytes that hold the intermediate values never truncate them. */
  lemma NothingTruncated(n: nat, b: int, a1: int, d: int, a2: int, m: int, day: int)
    requires n <= LAST_DAY && Layers(n, b, a1, d, a2, m, day)
    ensures 67 <= b <= 69 && 0 <= a1 <= 36524 && 0 <= d <= 99 && 0 <= a2 <= 365
    ensures 0 <= m <= 11 && 1 <= day <= 31
    ensures U8(b) == b && U8(d) == d && U8(m) == m && U8(day) == day
  {
    CenturyBounds(EPOCH + n, b, a1);
    var d', a2' := YearLayer(a1 + 1);
    YearStep(a1, d, a2, d', a2');
    MonthEdges(a2, m, day);
  }

  lemma CenturyBounds(ace: int, b: int, a1: int)
    requires EPOCH <= ace <= EPOCH + LAST_DAY && InCentury(ace, b, a1)
    ensures 67 <= b <= 69 && 0 <= a1 <= 36524
  {
  }

  // Each line of the conversion, in the widths the original gives its variables.

  lemma CenturyLine(ace: nat, b: nat, a1: nat)
    requires ace < 0x1000_0000 && b < 256 && InCentury(ace, b, a1)
    ensures U8(Words.U32(4 * ace + 3) / 146097) == b && Words.U32(ace - (146097 * b) / 4) == a1
  {
    Small32(4 * ace + 3);
    Bits.DivUnique(4 * ace + 3, 146097, b, 4 * ace + 3 - 146097 * b);
    Small8(b);
    Bits.DivUnique(146097 * b, 4, ace - a1, 146097 * b - 4 * (ace - a1));
    Small32(a1);
  }

  lemma YearLine(a1: nat, d: nat, a2: nat)
    requires a1 < 0x1000_0000 && d < 256 && InYear(a1, d, a2)
    ensures U8(Words.U32(4 * a1 + 3) / 1461) == d && Words.U32(a1 - (1461 * d) / 4) == a2
  {
    var r := 4 * a1 + 3 - 1461 * d;
    Small32(4 * a1 + 3);
    Bits.DivUnique(4 * a1 + 3, 1461, d, r);
    Small8(d);
    Bits.DivUnique(1461 * d, 4, a1 - a2, 1461 * d - 4 * (a1 - a2));
    Small32(a2);
  }

  lemma Small32(x: int)
    requires 0 <= x < 0x1_0000_0000
    ensures Words.U32(x) == x
  {
    Bits.DivUnique(x, 0x1_0000_0000, 0, x);
  }

  lemma Small8(x: int)
    requires 0 <= x < 0x100
    ensures U8(x) == x
  {
    Bits.DivUnique(x, 0x100, 0, x);
  }

  lemma MonthLine(a2: nat, m: nat, day: nat)
    requires a2 < 0x1000_0000 && m < 256 && 0 < day < 256 && InMonth(a2, m, day)
    ensures U8(Words.U32(5 * a2 + 2) / 153) == m && U8(Words.U32(a2 - (153 * m + 2) / 5 + 1)) == day
  {
    Small32(5 * a2 + 2);
    Bits.DivUnique(5 * a2 + 2, 153, m, 5 * a2 + 2 - 153 * m);
    Small8(m);
    Bits.DivUnique(153 * m + 2, 5, a2 + 1 - day, 153 * m + 2 - 5 * (a2 + 1 - day));
    Small32(day);
    Small8(day);
  }

  lemma DateLine(b: nat, d: nat, m: nat, day: nat)
    requires 67 <= b <= 69 && d <= 99 && m <= 11
    ensures Date(U16(100 * b + d - 4800 + m / 10), U8(m + 3 - 12 * (m / 10)), day) == Compose(b, d, m, day)
  {
  }

  lemma TimeOfDay(t: nat)
    ensures ((t / 3600) % 24) * 3600 + ((t / 60) % 60) * 60 + t % 60 == t % 86400
  {
    var m, s := t / 60, t % 60;
    var h, mi := m / 60, m % 60;
    var d, hr := h / 24, h % 24;
    assert t / 3600 == h by { Hours(t, h, 60 * mi + s); }
    Days(t, d, 3600 * hr + 60 * mi + s);
  }

  lemma TimeFits(t: nat)
    ensures U8((t / 3600) % 24) == (t / 3600) % 24 < 24
    ensures U8((t / 60) % 60) == (t / 60) % 60 < 60 && U8(t % 60) == t % 60 < 60
  {
    Small8((t / 3600) % 24);
    Small8((t / 60) % 60);
    Small8(t % 60);
  }

  lemma Hours(t: nat, h: nat, r: nat)
    requires t == 3600 * h + r && r < 3600
    ensures t / 3600 == h
  {
  }

  lemma Days(t: nat, d: nat, r: nat)
    requires t == 86400 * d + r && r < 86400
    ensures t % 86400 == r
  {
  }

  /** Converts the local time counter, in seconds since 2000-01-01 00:00:00. A zero counter has
      not been set and nothing is filled in. */
  method GetFtime(localTime: nat, ft: Ftime) returns (present: bool)
    requires localTime < 0x1_0000_0000
    modifies ft
    ensures present <==> localTime != 0
    ensures !present ==> unchanged(ft)
    ensures present ==> ft.Day() == Civil(localTime / 86400)
    ensures present ==> ft.hour < 24 && ft.minute < 60 && ft.second < 60
    ensures present ==> ft.hour * 3600 + ft.minute * 60 + ft.second == localTime % 86400
    ensures present ==> (ft.wday == (6 + localTime / 86400) % 7 <==> ft.year <= 2099)
  {
    if localTime == 0 { return false; }
    ghost var n := localTime / 86400;
    ghost var gb, g1 := CenturyLayer(EPOCH + n);
    ghost var gd, g2 := YearLayer(g1);
    ghost var gm, gday := MonthLayer(g2);
    NothingTruncated(n, gb, g1, gd, g2, gm, gday);
    LayersAreCivil(n, gb, g1, gd, g2, gm, gday);
    FillDate(localTime, ft, gb, g1, gd, g2, gm, gday);
    FillTime(localTime, ft);
    FillWeekday(ft);
    WeekdayExactly(n);
    present := true;
  }

  method FillDate(t: nat, ft: Ftime, ghost gb: nat, ghost g1: nat, ghost gd: nat, ghost g2: nat,
                  ghost gm: nat, ghost gday: nat)
    requires t < 0x1_0000_0000 && t / 86400 <= LAST_DAY && Layers(t / 86400, gb, g1, gd, g2, gm, gday)
    requires 67 <= gb <= 69 && g1 <= 36524 && gd <= 99 && g2 <= 365 && gm <= 11 && 1 <= gday <= 31
    modifies ft`year, ft`month, ft`day
    ensures ft.Day() == Compose(gb, gd, gm, gday)
  {
    var ace := Words.U32(t / 86400 + 32044 + 2451911 - 366);
    Small32(EPOCH + t / 86400);
    var b, d, m;
    b, ace := TakeCentury(ace, gb, g1);
    d, ace := TakeYear(ace, gd, g2);
    m, ft.day := TakeMonth(ace, gm, gday);
    DateLine(b, d, m, gday);
    ft.month := U8(m + 3 - 12 * (m / 10));
    ft.year := U16(100 * b + d - 4800 + m / 10);
  }

  method TakeCentury(ace: nat, ghost gb: nat, ghost g1: nat) returns (b: nat, rest: nat)
    requires ace < 0x1000_0000 && gb < 256 && InCentury(ace, gb, g1)
    ensures b == gb && rest == g1
  {
    CenturyLine(ace, gb, g1);
    b := U8(Words.U32(4 * ace + 3) / 146097);
    rest := Words.U32(ace - (146097 * b) / 4);
  }

  method TakeYear(ace: nat, ghost gd: nat, ghost g2: nat) returns (d: nat, rest: nat)
    requires ace < 0x1000_0000 && gd < 256 && InYear(ace, gd, g2)
    ensures d == gd && rest == g2
  {
    YearLine(ace, gd, g2);
    d := U8(Words.U32(4 * ace + 3) / 1461);
    rest := Words.U32(ace - (1461 * d) / 4);
  }

  method TakeMonth(ace: nat, ghost gm: nat, ghost gday: nat) returns (m: nat, day: nat)
    requires ace < 0x1000_0000 && gm < 256 && 0 < gday < 256 && InMonth(ace, gm, gday)
    ensures m == gm && day == gday
  {
    MonthLine(ace, gm, gday);
    m := U8(Words.U32(5 * ace + 2) / 153);
    day := U8(Words.U32(ace - (153 * m + 2) / 5 + 1));
  }

  method FillTime(t: nat, ft: Ftime)
    modifies ft`hour, ft`minute, ft`second
    ensures ft.hour < 24 && ft.minute < 60 && ft.second < 60
    ensures ft.hour * 3600 + ft.minute * 60 + ft.second == t % 86400
  {
    TimeOfDay(t);
    TimeFits(t);
    ft.hour := U8((t / 3600) % 24);
    ft.minute := U8((t / 60) % 60);
    ft.second := U8(t % 60);
  }

  method YearPart(y: nat) returns (w: nat)
    requires y < 100
    ensures w == YearTerm(y) <= 21
  {
    YearTermBound(y);
    w := U8((y / 12) + (y % 12) + ((y % 12) / 4));
  }

  /** The weekday lines, through the byte-sized wday field. */
  method FillWeekday(ft: Ftime)
    requires 1 <= ft.month <= 12 && 1 <= ft.day <= 31
    modifies ft`wday
    ensures ft.wday == Weekday(ft.Day())
  {
    var w := AddUp(ft.year, ft.month, ft.day);
    ft.wday := w % 7;
  }

  method AddUp(year: nat, month: nat, day: nat) returns (w: nat)
    requires 1 <= month <= 12 && 1 <= day <= 31
    ensures w == WeekdaySum(Date(year, month, day))
  {
    var y := year % 100;
    var mIdx := [6, 2, 2, 5, 0, 3, 5, 1, 4, 6, 2, 4];
    MonthTable(mIdx, month);
    w := YearPart(y);
    NoWrap(w, MonthIndex(month), day);
    w := U8(w + mIdx[month - 1]);
    if y % 4 == 0 {
      if month == 1 || month == 2 { w := U8(w - 1); }
    }
    w := U8(w + day);
  }

  lemma MonthTable(mIdx: seq<int>, m: nat)
    requires mIdx == [6, 2, 2, 5, 0, 3, 5, 1, 4, 6, 2, 4] && 1 <= m <= 12
    ensures mIdx[m - 1] == MonthIndex(m) && 0 <= MonthIndex(m) <= 6
  {
  }

  lemma NoWrap(t: nat, k: nat, day: nat)
    requires t <= 21 && k <= 6 && 1 <= day <= 31
    ensures U8(t + k) == t + k && U8(t + k + day) == t + k + day
    ensures t + k > 0 ==> U8(t + k - 1) == t + k - 1 && U8(t + k - 1 + day) == t + k - 1 + day
  {
    Small8(t + k);
    Small8(t + k + day);
    if t + k > 0 { Small8(t + k - 1); }
    Small8(t + k - 1 + day);
  }

  lemma YearTermBound(y: nat)
    requires y < 100
    ensures 0 <= YearTerm(y) <= 21
  {
  }
}

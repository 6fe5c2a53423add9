/** Calendar arithmetic (akar-common `types.rs`): Hinnant's `civil_from_days` against
    the Gregorian calendar, and ISO 8601 timestamps. */
module Calendar {

  datatype Date = Date(year: int, month: int, day: int)

  // ------------------------------------------------------------------ the source

  /** Integer division of the source: truncates toward zero. */
  function TruncDiv(a: int, b: int): int
    requires b > 0
  {
    if a >= 0 then a / b else -((-a) / b)
  }

  function YearOfEra(doe: int): int {
    (doe - doe / 1460 + doe / 36524 - doe / 146096) / 365
  }

  function CivilFromDays(days: int): Date {
    var z := days + 719468;
    var era := TruncDiv(if z >= 0 then z else z - 146096, 146097);
    CivilInEra(era, z - era * 146097)
  }

  function CivilInEra(era: int, doe: int): Date {
    var yoe := YearOfEra(doe);
    CivilOfDay(yoe + era * 400, doe - (365 * yoe + yoe / 4 - yoe / 100))
  }

  /** The date of day `doy` of the year that begins in March of year `y`. */
  function CivilOfDay(y: int, doy: int): Date {
    var mp := (5 * doy + 2) / 153;
    var d := doy - (153 * mp + 2) / 5 + 1;
    var m := if mp < 10 then mp + 3 else mp - 9;
    Date(if m <= 2 then y + 1 else y, m, d)
  }

  // ------------------------------------------------------------------ the Gregorian calendar

  predicate Leap(y: int) {
    y % 4 == 0 && (y % 100 != 0 || y % 400 == 0)
  }

  function DaysIn(y: int, m: int): int {
    if m == 2 then (if Leap(y) then 29 else 28)
    else if m == 4 || m == 6 || m == 9 || m == 11 then 30
    else 31
  }

  predicate ValidDate(t: Date) {
    1 <= t.month <= 12 && 1 <= t.day <= DaysIn(t.year, t.month)
  }

  function Tomorrow(t: Date): Date {
    if t.day < DaysIn(t.year, t.month) then Date(t.year, t.month, t.day + 1)
    else if t.month < 12 then Date(t.year, t.month + 1, 1)
    else Date(t.year + 1, 1, 1)
  }

  // ------------------------------------------------------------------ years that begin in March

  /** Days of the era before its year `k`, which begins on the first of March. */
  function YearStart(k: int): int {
    365 * k + k / 4 - k / 100
  }

  /** Length of the year of the era `k`: the leap day is its last. */
  function YearLength(k: int): int {
    if Leap(k + 1) then 366 else 365
  }

  /** Days of that year before its month `mp`, where March is month 0. */
  function MonthStart(mp: int): int {
    (153 * mp + 2) / 5
  }

  /** The day count of a date: the inverse of `CivilFromDays`. */
  function DaysFromCivil(t: Date): int {
    var y := if t.month <= 2 then t.year - 1 else t.year;
    var mp := if t.month <= 2 then t.month + 9 else t.month - 3;
    y / 400 * 146097 + YearStart(y % 400) + MonthStart(mp) + t.day - 1 - 719468
  }

  /** A year of the era by century `q`, four-year cycle `p` and year `s`. */
  lemma YearParts(q: int, p: int, s: int)
    requires 0 <= q <= 3 && 0 <= p <= 24 && 0 <= s <= 3
    ensures var k := 100 * q + 4 * p + s;
      && 0 <= k < 400
      && YearStart(k) == 36524 * q + 1461 * p + 365 * s
      && (Leap(k + 1) <==> s == 3 && (p < 24 || q == 3))
  {
    var k := 100 * q + 4 * p + s;
    assert k / 4 == 25 * q + p;
    assert k / 100 == q;
  }

  lemma Century(k: int) returns (q: int, p: int, s: int)
    requires 0 <= k < 400
    ensures 0 <= q <= 3 && 0 <= p <= 24 && 0 <= s <= 3 && k == 100 * q + 4 * p + s
  {
    q := k / 100;
    p := k % 100 / 4;
    s := k % 4;
    assert k == 100 * q + k % 100;
    assert k % 100 % 4 == s;
  }

  /** The year of the era, from the day `r` of year `k`. */
  lemma YearOfEraCorrect(k: int, r: int)
    requires 0 <= k < 400 && 0 <= r < YearLength(k)
    ensures 0 <= YearStart(k) + r < 146097 && YearOfEra(YearStart(k) + r) == k
  {
    var q, p, s := Century(k);
    YearParts(q, p, s);
    hide Leap, YearStart;
    var doe := YearStart(k) + r;
    var x := p + 24 * q + 365 * s + r;
    assert doe == 1460 * (25 * q + p) + x;
    assert x / 1460 == (if x >= 1460 then 1 else 0);
    assert doe / 1460 == 25 * q + p + x / 1460;
    var u := 1461 * p + 365 * s + r;
    assert doe == 36524 * q + u;
    if doe == 146096 {
    } else {
      assert doe / 36524 == q && doe / 146096 == 0;
    }
    assert 365 * k <= doe - doe / 1460 + doe / 36524 - doe / 146096 < 365 * k + 365;
  }

  /** Every day of the era lies in a year of the era. */
  lemma EraYear(doe: int) returns (k: int, r: int)
    requires 0 <= doe < 146097
    ensures 0 <= k < 400 && 0 <= r < YearLength(k) && doe == YearStart(k) + r
  {
    var q := if doe == 146096 then 3 else doe / 36524;
    var u := doe - 36524 * q;
    var p := if u >= 1461 * 24 then 24 else u / 1461;
    var w := u - 1461 * p;
    var s := if w >= 365 * 3 then 3 else w / 365;
    r := w - 365 * s;
    k := 100 * q + 4 * p + s;
    YearParts(q, p, s);
  }

  lemma MonthCorrect(mp: int, i: int)
    requires 0 <= mp <= 11 && 0 <= i && MonthStart(mp) + i < (if mp == 11 then 366 else MonthStart(mp + 1))
    ensures (5 * (MonthStart(mp) + i) + 2) / 153 == mp
  {
  }

  lemma YearMonth(r: int) returns (mp: int, i: int)
    requires 0 <= r < 366
    ensures 0 <= mp <= 11 && 0 <= i && r == MonthStart(mp) + i && r < (if mp == 11 then 366 else MonthStart(mp + 1))
  {
    mp := (5 * r + 2) / 153;
    i := r - MonthStart(mp);
  }

  lemma MonthLength(mp: int)
    requires 0 <= mp <= 10
    ensures var m := if mp < 10 then mp + 3 else mp - 9;
      forall y :: m != 2 ==> MonthStart(mp + 1) - MonthStart(mp) == DaysIn(y, m)
  {
  }

  /** Day `i` of month `mp` lies inside that month of a year of the era. */
  predicate InMonth(k: int, mp: int, i: int) {
    && 0 <= k < 400 && 0 <= mp <= 11 && 0 <= i
    && MonthStart(mp) + i < YearLength(k)
    && (mp < 11 ==> MonthStart(mp) + i < MonthStart(mp + 1))
  }

  function MonthOf(mp: int): int {
    if mp < 10 then mp + 3 else mp - 9
  }

  function DateOf(era: int, k: int, mp: int, i: int): Date {
    Date(era * 400 + k + (if mp >= 10 then 1 else 0), MonthOf(mp), i + 1)
  }

  lemma EraIsFloor(z: int)
    ensures TruncDiv(if z >= 0 then z else z - 146096, 146097) == z / 146097
  {
  }

  lemma CivilFrom(era: int, doe: int)
    requires 0 <= doe < 146097
    ensures CivilFromDays(era * 146097 + doe - 719468) == CivilInEra(era, doe)
  {
    hide TruncDiv, CivilInEra;
    var z := era * 146097 + doe;
    EraIsFloor(z);
  }

  lemma CivilOf(era: int, k: int, mp: int, i: int)
    requires InMonth(k, mp, i)
    ensures CivilFromDays(era * 146097 + YearStart(k) + MonthStart(mp) + i - 719468) == DateOf(era, k, mp, i)
  {
    hide YearOfEra, YearLength, CivilInEra, YearStart, MonthStart, DateOf, CivilFromDays, InMonth;
    InMonthDay(k, mp, i);
    YearOfEraCorrect(k, MonthStart(mp) + i);
    CivilInEraOf(era, k, mp, i);
    CivilFrom(era, YearStart(k) + MonthStart(mp) + i);
  }

  lemma CivilInEraOf(era: int, k: int, mp: int, i: int)
    requires InMonth(k, mp, i)
    ensures CivilInEra(era, YearStart(k) + MonthStart(mp) + i) == DateOf(era, k, mp, i)
  {
    hide YearOfEra, YearLength, CivilOfDay, MonthStart, InMonth;
    InMonthDay(k, mp, i);
    YearOfEraCorrect(k, MonthStart(mp) + i);
    CivilOfDayCorrect(era * 400 + k, mp, i);
  }

  lemma InMonthDay(k: int, mp: int, i: int)
    requires InMonth(k, mp, i)
    ensures 0 <= k < 400 && 0 <= mp <= 11 && 0 <= i && 0 <= MonthStart(mp) + i < YearLength(k)
    ensures MonthStart(mp) + i < if mp == 11 then 366 else MonthStart(mp + 1)
  {
  }

  lemma CivilOfDayCorrect(y: int, mp: int, i: int)
    requires 0 <= mp <= 11 && 0 <= i && MonthStart(mp) + i < (if mp == 11 then 366 else MonthStart(mp + 1))
    ensures CivilOfDay(y, MonthStart(mp) + i) == Date(y + (if mp >= 10 then 1 else 0), MonthOf(mp), i + 1)
  {
    MonthCorrect(mp, i);
  }

  /** The dates are the days of the months of the years of the eras. */
  lemma DatesInMonths(era: int, k: int, mp: int, i: int)
    requires 0 <= k < 400 && 0 <= mp <= 11
    ensures InMonth(k, mp, i) <==> ValidDate(DateOf(era, k, mp, i))
  {
    EraLeap(era, k + 1);
    if mp == 11 {
      assert MonthStart(11) == 337;
    } else {
      MonthLength(mp);
      hide Leap;
      assert MonthStart(mp + 1) <= 337;
    }
  }

  lemma EraLeap(era: int, k: int)
    ensures Leap(era * 400 + k) == Leap(k)
  {
    var y := era * 400 + k;
    assert y == 4 * (100 * era) + k && y == 100 * (4 * era) + k;
    Shift4(100 * era, k);
    Shift100(4 * era, k);
    Shift400(era, k);
  }

  lemma Shift4(q: int, k: int)
    ensures (4 * q + k) % 4 == k % 4
  {
  }

  lemma Shift100(q: int, k: int)
    ensures (100 * q + k) % 100 == k % 100
  {
  }

  lemma Shift400(q: int, k: int)
    ensures (q * 400 + k) % 400 == k % 400
  {
  }

  /** Every day has a valid date, which counts back to the day. */
  lemma CivilValid(days: int)
    ensures ValidDate(CivilFromDays(days)) && DaysFromCivil(CivilFromDays(days)) == days
  {
    var z := days + 719468;
    var era, doe := z / 146097, z % 146097;
    var k, r := EraYear(doe);
    var mp, i := YearMonth(r);
    CivilOf(era, k, mp, i);
    DatesInMonths(era, k, mp, i);
    DaysOf(era, k, mp, i);
    hide CivilFromDays, DaysFromCivil, ValidDate;
    assert days == era * 146097 + YearStart(k) + MonthStart(mp) + i - 719468;
  }

  lemma DaysOf(era: int, k: int, mp: int, i: int)
    requires 0 <= k < 400 && 0 <= mp <= 11
    ensures DaysFromCivil(DateOf(era, k, mp, i)) == era * 146097 + YearStart(k) + MonthStart(mp) + i - 719468
  {
    assert (era * 400 + k) / 400 == era && (era * 400 + k) % 400 == k;
  }

  lemma PartsOf(t: Date) returns (era: int, k: int, mp: int, i: int)
    requires ValidDate(t)
    ensures 0 <= k < 400 && 0 <= mp <= 11 && t == DateOf(era, k, mp, i)
  {
    var y := if t.month <= 2 then t.year - 1 else t.year;
    era, k := y / 400, y % 400;
    mp := if t.month <= 2 then t.month + 9 else t.month - 3;
    i := t.day - 1;
  }

  /** Every valid date is the date of its day count, and of no other day. */
  lemma CivilOnto(t: Date)
    requires ValidDate(t)
    ensures CivilFromDays(DaysFromCivil(t)) == t
    ensures forall days :: CivilFromDays(days) == t <==> days == DaysFromCivil(t)
  {
    hide CivilFromDays, DaysFromCivil;
    var era, k, mp, i := PartsOf(t);
    DatesInMonths(era, k, mp, i);
    DaysOf(era, k, mp, i);
    CivilOf(era, k, mp, i);
    forall days ensures CivilFromDays(days) == t <==> days == DaysFromCivil(t) {
      CivilValid(days);
    }
  }

  lemma EpochDate()
    ensures CivilFromDays(0) == Date(1970, 1, 1)
  {
  }

  lemma YearSteps(k: int)
    requires 0 <= k < 400
    ensures YearStart(k) + YearLength(k) == if k == 399 then 146097 else YearStart(k + 1)
  {
    hide Leap, YearStart;
    var q, p, s := Century(k);
    YearParts(q, p, s);
    if s < 3 {
      YearParts(q, p, s + 1);
    } else if p < 24 {
      YearParts(q, p + 1, 0);
    } else if q < 3 {
      YearParts(q + 1, 0, 0);
    }
  }

  /** Tomorrow's day count is one more. */
  lemma TomorrowCounts(t: Date)
    requires ValidDate(t)
    ensures ValidDate(Tomorrow(t)) && DaysFromCivil(Tomorrow(t)) == DaysFromCivil(t) + 1
  {
    hide DaysFromCivil, DateOf, YearStart, MonthStart, YearLength, Tomorrow, ValidDate;
    var era, k, mp, i := PartsOf(t);
    DaysOf(era, k, mp, i);
    DatesInMonths(era, k, mp, i);
    TomorrowParts(era, k, mp, i);
    if InMonth(k, mp, i + 1) {
      DaysOf(era, k, mp, i + 1);
      DatesInMonths(era, k, mp, i + 1);
    } else if mp < 11 {
      DaysOf(era, k, mp + 1, 0);
      DatesInMonths(era, k, mp + 1, 0);
    } else if k < 399 {
      YearSteps(k);
      DaysOf(era, k + 1, 0, 0);
      DatesInMonths(era, k + 1, 0, 0);
    } else {
      YearSteps(k);
      DaysOf(era + 1, 0, 0, 0);
      DatesInMonths(era + 1, 0, 0, 0);
    }
  }

  lemma TomorrowParts(era: int, k: int, mp: int, i: int)
    requires InMonth(k, mp, i)
    ensures var t := DateOf(era, k, mp, i);
      if InMonth(k, mp, i + 1) then Tomorrow(t) == DateOf(era, k, mp, i + 1)
      else if mp < 11 then
        && Tomorrow(t) == DateOf(era, k, mp + 1, 0) && InMonth(k, mp + 1, 0)
        && MonthStart(mp + 1) == MonthStart(mp) + i + 1
      else
        && MonthStart(mp) + i + 1 == YearLength(k)
        && Tomorrow(t) == (if k < 399 then DateOf(era, k + 1, 0, 0) else DateOf(era + 1, 0, 0, 0))
        && InMonth(if k < 399 then k + 1 else 0, 0, 0) && YearStart(0) == MonthStart(0) == 0
  {
    DatesInMonths(era, k, mp, i);
    DatesInMonths(era, k, mp, i + 1);
    hide ValidDate, Leap;
    if mp < 11 {
      MonthLength(mp);
      assert MonthStart(mp + 1) <= 337;
    }
  }

  /** The next day has tomorrow's date. */
  lemma CivilSuccessor(days: int)
    ensures CivilFromDays(days + 1) == Tomorrow(CivilFromDays(days))
  {
    hide CivilFromDays, DaysFromCivil, ValidDate, Tomorrow;
    CivilValid(days);
    TomorrowCounts(CivilFromDays(days));
    CivilOnto(Tomorrow(CivilFromDays(days)));
  }
}

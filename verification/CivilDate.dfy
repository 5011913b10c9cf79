/**
 * wm_read_datetime: the local civil date and time of a number of seconds since 1970, by the era formula.
 * The reference is the Gregorian calendar itself, counted day by day.
 */
module CivilDate {
  import opened Arith

  datatype Date = Date(year: int, month: int, day: int)

  // ---- the calendar

  /** The Gregorian rule. */
  ghost predicate Leap(y: int)
  {
    forall i: int {:trigger Judged(y, i)} :: Judged(y, i) ==> y % 4 == 0 && (y % 100 != 0 || y % 400 == 0)
  }

  /** Marks the years whose rule a proof looks into. */
  ghost predicate Judged(y: int, i: int)
  {
    true
  }

  lemma LeapRule(y: int)
    ensures Leap(y) <==> y % 4 == 0 && (y % 100 != 0 || y % 400 == 0)
  {
    assert Judged(y, 0);
  }

  ghost function DaysInMonth(y: int, m: int): (n: int)
    requires 1 <= m <= 12
    ensures 28 <= n <= 31
  {
    if m == 2 then (if Leap(y) then 29 else 28)
    else if m == 4 || m == 6 || m == 9 || m == 11 then 30
    else 31
  }

  ghost predicate ValidDate(d: Date)
  {
    1 <= d.month <= 12 && 1 <= d.day <= DaysInMonth(d.year, d.month)
  }

  ghost function NextDay(d: Date): (r: Date)
    requires ValidDate(d)
    ensures ValidDate(r)
  {
    if d.day < DaysInMonth(d.year, d.month) then d.(day := d.day + 1)
    else if d.month < 12 then Date(d.year, d.month + 1, 1)
    else Date(d.year + 1, 1, 1)
  }

  ghost function PreviousDay(d: Date): (r: Date)
    requires ValidDate(d)
    ensures ValidDate(r) && NextDay(r) == d
  {
    if d.day > 1 then d.(day := d.day - 1)
    else if d.month > 1 then Date(d.year, d.month - 1, DaysInMonth(d.year, d.month - 1))
    else Date(d.year - 1, 12, 31)
  }

  /** The date n days after 1 January 1970, counted one day at a time. */
  ghost function Calendar(n: int): (d: Date)
    ensures ValidDate(d)
    decreases if n < 0 then -n else n
  {
    if n == 0 then Date(1970, 1, 1)
    else if n > 0 then NextDay(Calendar(n - 1))
    else PreviousDay(Calendar(n + 1))
  }

  lemma CalendarStep(n: int)
    ensures Calendar(n + 1) == NextDay(Calendar(n))
  {
  }

  lemma NextDayInjective(a: Date, b: Date)
    requires ValidDate(a) && ValidDate(b) && NextDay(a) == NextDay(b)
    ensures a == b
  {
  }

  ghost predicate Before(a: Date, b: Date)
  {
    a.year < b.year || (a.year == b.year && (a.month < b.month || (a.month == b.month && a.day < b.day)))
  }

  lemma NextDayLater(d: Date)
    requires ValidDate(d)
    ensures Before(d, NextDay(d))
  {}

  lemma BeforeTransitive(a: Date, b: Date, c: Date)
    requires Before(a, b) && Before(b, c)
    ensures Before(a, c)
  {}

  /** Later days have later dates. */
  lemma {:induction false} CalendarIncreases(m: int, n: int)
    requires m < n
    ensures Before(Calendar(m), Calendar(n))
    decreases n - m
  {
    CalendarStep(n - 1);
    NextDayLater(Calendar(n - 1));
    if m < n - 1 {
      CalendarIncreases(m, n - 1);
      BeforeTransitive(Calendar(m), Calendar(n - 1), Calendar(n));
    }
  }

  // ---- eras of 400 years that start on 1 March

  /** Days of an era before its year y, counted year by year: year y - 1 ends with the February of year y. */
  ghost function YearStart(y: int): (d: int)
    requires 0 <= y
    decreases y
  {
    if y == 0 then 0 else YearStart(y - 1) + (if Leap(y) then 366 else 365)
  }

  /** Days of such a year before its month mp, where March is month 0. */
  function MonthStart(mp: int): (d: int)
  {
    if mp <= 0 then 0 else if mp == 1 then 31 else if mp == 2 then 61 else if mp == 3 then 92
    else if mp == 4 then 122 else if mp == 5 then 153 else if mp == 6 then 184 else if mp == 7 then 214
    else if mp == 8 then 245 else if mp == 9 then 275 else if mp == 10 then 306 else 337
  }

  /** The closed forms that the code uses for both. */
  function YearFormula(y: int): (d: int) { 365 * y + y / 4 - y / 100 }

  function MonthFormula(mp: int): (d: int) { (153 * mp + 2) / 5 }

  /** Month mp of era year y, day dom, as a position and as a date. */
  datatype Place = Place(era: int, y: int, mp: int, dom: int)

  ghost function CivilYear(p: Place): (y: int) { p.y + p.era * 400 + (if p.mp >= 10 then 1 else 0) }

  ghost function DateOf(p: Place): (d: Date)
  {
    Date(CivilYear(p), if p.mp < 10 then p.mp + 3 else p.mp - 9, p.dom)
  }

  ghost predicate ValidPlace(p: Place)
  {
    0 <= p.y <= 399 && 0 <= p.mp <= 11 && ValidDate(DateOf(p))
  }

  /** Days before an era, counted era by era. */
  ghost function EraStart(era: int): (d: int)
    decreases if era < 0 then -era else era
  {
    if era == 0 then 0 else if era > 0 then EraStart(era - 1) + 146097 else EraStart(era + 1) - 146097
  }

  lemma {:induction false} EraStartIs(era: int)
    ensures EraStart(era) == era * 146097
    decreases if era < 0 then -era else era
  {
    if era > 0 {
      EraStartIs(era - 1);
      Distribute(era - 1, 1, 146097);
    } else if era < 0 {
      EraStartIs(era + 1);
      Distribute(era, 1, 146097);
    }
  }

  lemma NextEra(era: int)
    ensures EraStart(era + 1) == EraStart(era) + 146097
  {}

  ghost function DayIndex(p: Place): (n: int)
    requires 0 <= p.y
  {
    EraStart(p.era) + YearStart(p.y) + MonthStart(p.mp) + p.dom - 1 - 719468
  }

  lemma LeapPeriod(z: int, era: int)
    ensures Leap(z + era * 400) <==> Leap(z)
  {
    LeapRule(z);
    LeapRule(z + era * 400);
    ModAddMul(z, era * 100, 4);
    ModAddMul(z, era * 4, 100);
    ModAddMul(z, era, 400);
  }

  lemma NextMultiple(y: int, n: int)
    requires n > 0
    ensures (y + 1) / n == y / n + (if (y + 1) % n == 0 then 1 else 0)
  {
    var q, r := y / n, y % n;
    DivIdentity(y, n);
    if r + 1 < n {
      DivModUnique(y + 1, n, q, r + 1);
    } else {
      Distribute(q, 1, n);
      DivModUnique(y + 1, n, q + 1, 0);
    }
  }

  lemma CenturyIsFourth(z: int)
    ensures z % 100 == 0 ==> z % 4 == 0
  {
    DivIdentity(z, 100);
    if z % 100 == 0 {
      DivModUnique(z, 4, 25 * (z / 100), 0);
    }
  }

  lemma YearFormulaStep(y: int)
    requires 0 <= y < 399
    ensures YearFormula(y + 1) == YearFormula(y) + (if Leap(y + 1) then 366 else 365)
  {
    LeapRule(y + 1);
    NextMultiple(y, 4);
    NextMultiple(y, 100);
    ModSmall(y + 1, 400);
    CenturyIsFourth(y + 1);
  }

  /** The closed form counts the days of the years right. */
  lemma {:induction false} YearStartIs(y: int)
    requires 0 <= y <= 399
    ensures YearStart(y) == YearFormula(y)
    decreases y
  {
    if y > 0 {
      YearStartIs(y - 1);
      YearFormulaStep(y - 1);
    }
  }

  /** The month formula counts the days of the months right. */
  lemma MonthStartIs(mp: int)
    requires 0 <= mp <= 11
    ensures MonthFormula(mp) == MonthStart(mp)
  {}

  /** The number of days from 1 March of era year y to the next 1 March. */
  ghost function YearLength(y: int): (n: int)
  {
    if Leap(y + 1) then 366 else 365
  }

  lemma YearLengthIs(y: int, era: int)
    ensures Leap(y + era * 400 + 1) <==> Leap(y + 1)
  {
    LeapPeriod(y + 1, era);
  }

  /** The last year of an era ends with the era. */
  lemma EraEnd(y: int)
    requires y == 399
    ensures YearStart(y) == 145731 && YearLength(y) == 366
  {
    YearStartIs(y);
    LeapRule(y + 1);
  }

  lemma MonthLengths(mp: int)
    requires 0 <= mp <= 10
    ensures MonthStart(mp + 1) - MonthStart(mp) == if mp == 1 || mp == 3 || mp == 6 || mp == 8 then 30 else 31
  {}

  ghost function NextPlace(p: Place): (q: Place)
    requires ValidPlace(p)
  {
    if p.dom < DaysInMonth(CivilYear(p), DateOf(p).month) then p.(dom := p.dom + 1)
    else if p.mp < 11 then p.(mp := p.mp + 1, dom := 1)
    else if p.y < 399 then Place(p.era, p.y + 1, 0, 1)
    else Place(p.era + 1, 0, 0, 1)
  }

  lemma NextPlaceIsNextDay(p: Place)
    requires ValidPlace(p)
    ensures ValidPlace(NextPlace(p)) && DateOf(NextPlace(p)) == NextDay(DateOf(p))
  {}

  /** The last day of a month other than February. */
  lemma MonthEnd(p: Place)
    requires ValidPlace(p) && p.mp < 11 && p.dom == DaysInMonth(CivilYear(p), DateOf(p).month)
    ensures MonthStart(p.mp) + p.dom == MonthStart(p.mp + 1)
  {
    MonthLengths(p.mp);
  }

  /** The last day of February ends the era year. */
  lemma YearEnd(p: Place)
    requires ValidPlace(p) && p.mp == 11 && p.dom == DaysInMonth(CivilYear(p), 2)
    ensures MonthStart(p.mp) + p.dom == YearLength(p.y)
  {
    YearLengthIs(p.y, p.era);
  }

  /** The next place is the next day, across months, years and eras. */
  lemma NextPlaceIndex(p: Place)
    requires ValidPlace(p)
    ensures DayIndex(NextPlace(p)) == DayIndex(p) + 1
  {
    if p.dom == DaysInMonth(CivilYear(p), DateOf(p).month) {
      if p.mp < 11 {
        MonthEnd(p);
      } else {
        YearEnd(p);
        if p.y == 399 {
          EraEnd(p.y);
          NextEra(p.era);
        }
      }
    }
  }

  ghost function PreviousPlace(p: Place): (q: Place)
    requires ValidPlace(p)
  {
    if p.dom > 1 then p.(dom := p.dom - 1)
    else if p.mp > 0 then
      var q := p.(mp := p.mp - 1, dom := 1);
      q.(dom := DaysInMonth(CivilYear(q), DateOf(q).month))
    else
      var q := if p.y > 0 then Place(p.era, p.y - 1, 11, 1) else Place(p.era - 1, 399, 11, 1);
      q.(dom := DaysInMonth(CivilYear(q), 2))
  }

  lemma PreviousThenNext(p: Place)
    requires ValidPlace(p)
    ensures ValidPlace(PreviousPlace(p)) && NextPlace(PreviousPlace(p)) == p
  {}

  lemma {:induction false} YearStartMono(y: int, y': int)
    requires 0 <= y <= y'
    ensures YearStart(y) + 365 * (y' - y) <= YearStart(y') <= YearStart(y) + 366 * (y' - y)
    decreases y' - y
  {
    if y < y' {
      YearStartMono(y, y' - 1);
    }
  }

  lemma PlaceInYear(p: Place)
    requires ValidPlace(p)
    ensures 0 <= MonthStart(p.mp) + p.dom - 1 < YearLength(p.y) <= 366
  {
    YearLengthIs(p.y, p.era);
  }

  lemma {:induction false} EraStartMono(era: int, era': int)
    requires era <= era'
    ensures EraStart(era) + 146097 * (era' - era) == EraStart(era')
    decreases era' - era
  {
    if era < era' {
      EraStartMono(era, era' - 1);
      NextEra(era' - 1);
    }
  }

  /** Day 0 lies in era 4. */
  lemma EpochEra(era: int, inEra: int)
    requires EraStart(era) + inEra == 719468 && 0 <= inEra < 146097
    ensures era == 4 && inEra == 135080
  {
    EraStartIs(era);
  }

  /** Day 135080 of an era lies in its year 369. */
  lemma EpochYear(y: int, doy: int)
    requires 0 <= y <= 399 && 0 <= doy < YearLength(y) && YearStart(y) + doy == 135080
    ensures y == 369 && doy == 306
  {
    var e := 369;
    YearStartIs(e);
    YearStartIs(e + 1);
    if y < e {
      YearStartMono(y + 1, e);
    } else if y > e {
      YearStartMono(e + 1, y);
    }
  }

  lemma DayInEra(y: int, doy: int)
    requires 0 <= y <= 399 && 0 <= doy < YearLength(y)
    ensures 0 <= YearStart(y) + doy < 146097
  {
    var last := 399;
    EraEnd(last);
    YearStartMono(0, y);
    if y < last { YearStartMono(y + 1, last); }
  }

  /** Day 0 is 1 January 1970 and nothing else. */
  lemma EpochPlace(p: Place)
    requires ValidPlace(p) && DayIndex(p) == 0
    ensures DateOf(p) == Date(1970, 1, 1)
  {
    var doy := MonthStart(p.mp) + p.dom - 1;
    PlaceInYear(p);
    DayInEra(p.y, doy);
    EpochEra(p.era, YearStart(p.y) + doy);
    EpochYear(p.y, doy);
  }

  /** Every place carries the calendar's date. */
  lemma {:induction false} CalendarAt(p: Place)
    requires ValidPlace(p)
    ensures Calendar(DayIndex(p)) == DateOf(p)
    decreases if DayIndex(p) < 0 then -DayIndex(p) else DayIndex(p)
  {
    var n := DayIndex(p);
    if n == 0 {
      EpochPlace(p);
    } else if n > 0 {
      var q := PreviousPlace(p);
      PreviousThenNext(p);
      NextPlaceIndex(q);
      CalendarAt(q);
      NextPlaceIsNextDay(q);
    } else {
      NextPlaceIndex(p);
      NextPlaceIsNextDay(p);
      CalendarAt(NextPlace(p));
      CalendarStep(n);
      NextDayInjective(Calendar(n), DateOf(p));
    }
  }

  /** The place of a date: years are counted from March. */
  ghost function PlaceOf(d: Date): (p: Place)
    requires ValidDate(d)
  {
    var y := if d.month <= 2 then d.year - 1 else d.year;
    Place(y / 400, y % 400, if d.month > 2 then d.month - 3 else d.month + 9, d.day)
  }

  lemma PlaceOfDate(d: Date)
    requires ValidDate(d)
    ensures ValidPlace(PlaceOf(d)) && DateOf(PlaceOf(d)) == d
  {
    var y := if d.month <= 2 then d.year - 1 else d.year;
    DivIdentity(y, 400);
  }

  /** The inverse: the day number of a date. */
  ghost function DaysFromCivil(d: Date): (n: int)
    requires ValidDate(d)
  {
    PlaceOfDate(d);
    DayIndex(PlaceOf(d))
  }

  lemma CivilOfDays(d: Date)
    requires ValidDate(d)
    ensures Calendar(DaysFromCivil(d)) == d
  {
    PlaceOfDate(d);
    CalendarAt(PlaceOf(d));
  }

  lemma DaysOfCivil(n: int)
    ensures DaysFromCivil(Calendar(n)) == n
  {
    var m := DaysFromCivil(Calendar(n));
    CivilOfDays(Calendar(n));
    if m < n {
      CalendarIncreases(m, n);
    } else if m > n {
      CalendarIncreases(n, m);
    }
  }

  // ---- the formulas

  /** C's division by a positive constant. */
  function TDiv(a: int, b: int): (q: int)
    requires b > 0
  {
    if a >= 0 then a / b else -((-a) / b)
  }

  /** C's rounding of the era, for days on either side of the epoch of the formula. */
  lemma EraIs(d: int)
    ensures TDiv(if d >= 0 then d else d - 146096, 146097) == d / 146097
  {
    var era, doe := d / 146097, d % 146097;
    DivIdentity(d, 146097);
    if d < 0 {
      DivModUnique(146096 - d, 146097, -era, 146096 - doe);
    }
  }

  /** Within century c of an era, day e lies in year k of the century. */
  lemma YearOfCentury(c: int, e: int)
    requires 0 <= c <= 3 && 0 <= e < 36524
    ensures var k := (e - (24 * c + e) / 1460) / 365;
            0 <= k <= 99 && 365 * k + k / 4 <= e && (k < 99 ==> e < 365 * (k + 1) + (k + 1) / 4)
  {
    var q, s := e / 1461, e % 1461;
    var t := 24 * c + q + s;
    assert 24 * c + e == 1460 * q + t;
    assert (24 * c + e) / 1460 == q + (if t >= 1460 then 1 else 0);
    var j := if s < 365 then 0 else if s < 730 then 1 else if s < 1095 then 2 else 3;
    assert (e - (24 * c + e) / 1460) / 365 == 4 * q + j;
    assert (4 * q + j) / 4 == q;
    assert (4 * q + j + 1) / 4 == if j == 3 then q + 1 else q;
  }

  lemma CenturyYear(c: int, k: int)
    requires 0 <= c <= 3 && 0 <= k <= 99
    ensures YearFormula(100 * c + k) == 36524 * c + 365 * k + k / 4
  {
    assert (100 * c + k) / 4 == 25 * c + k / 4;
    assert (100 * c + k) / 100 == c;
  }

  /** The quotients of the year formula, by century. */
  lemma YearQuotients(c: int, e: int, k: int)
    requires 0 <= c <= 3 && 0 <= e < 36524 && k == (e - (24 * c + e) / 1460) / 365
    ensures var doe := 36524 * c + e;
            doe < 146096 ==> (doe - doe / 1460 + c - doe / 146097) / 365 == 100 * c + k
  {
    var doe, q := 36524 * c + e, (24 * c + e) / 1460;
    assert doe / 1460 == 25 * c + q;
    if doe < 146096 {
      assert doe / 146097 == 0;
      assert doe - doe / 1460 + c == 36500 * c + (e - q);
    }
  }

  lemma YearByCentury(doe: int, c: int, e: int) returns (y: int)
    requires doe == 36524 * c + e && 0 <= doe < 146096 && 0 <= c <= 3 && 0 <= e < 36524
    ensures y == (doe - doe / 1460 + c - doe / 146097) / 365
    ensures 0 <= y <= 399 && YearFormula(y) <= doe < if y == 399 then 146097 else YearFormula(y + 1)
  {
    var k := (e - (24 * c + e) / 1460) / 365;
    YearOfCentury(c, e);
    YearQuotients(c, e, k);
    YearInCentury(c, e, k);
    y := 100 * c + k;
  }

  /** The year formula of the code, on every day of the era but the last. */
  lemma YearOfEra(doe: int)
    requires 0 <= doe < 146096
    ensures var y := (doe - doe / 1460 + doe / 36524 - doe / 146097) / 365;
            0 <= y <= 399 && YearFormula(y) <= doe < if y == 399 then 146097 else YearFormula(y + 1)
  {
    var y := YearByCentury(doe, doe / 36524, doe % 36524);
  }

  lemma YearInCentury(c: int, e: int, k: int)
    requires 0 <= c <= 3 && 0 <= e < 36524 && 36524 * c + e < 146096
    requires 0 <= k <= 99 && 365 * k + k / 4 <= e && (k < 99 ==> e < 365 * (k + 1) + (k + 1) / 4)
    ensures var y, doe := 100 * c + k, 36524 * c + e;
            YearFormula(y) <= doe < if y == 399 then 146097 else YearFormula(y + 1)
  {
    CenturyYear(c, k);
    if k < 99 {
      CenturyYear(c, k + 1);
    } else if c < 3 {
      CenturyYear(c + 1, 0);
    }
  }

  /** The month formula, on every day of a year that starts in March. */
  lemma MonthOfYear(doy: int)
    requires 0 <= doy <= 365
    ensures var mp := (5 * doy + 2) / 153;
            && 0 <= mp <= 11 && MonthStart(mp) <= doy
            && (mp < 11 ==> doy < MonthStart(mp + 1))
  {}

  /** A day that the closed form puts into year y lies in it. */
  lemma InYear(doe: int, y: int)
    requires 0 <= y <= 399 && YearFormula(y) <= doe < if y == 399 then 146097 else YearFormula(y + 1)
    ensures 0 <= doe - YearFormula(y) < YearLength(y) && YearFormula(y) == YearStart(y)
  {
    YearStartIs(y);
    if y == 399 { EraEnd(y); } else { YearFormulaStep(y); }
  }

  /** The place the formulas find is the calendar's place for that day. */
  lemma PlaceFound(era: int, y: int, doy: int, mp: int)
    requires 0 <= y <= 399 && 0 <= doy < YearLength(y) && 0 <= mp <= 11
    requires MonthStart(mp) <= doy && (mp < 11 ==> doy < MonthStart(mp + 1))
    ensures ValidPlace(Place(era, y, mp, doy - MonthStart(mp) + 1))
  {
    YearLengthIs(y, era);
    if mp < 11 { MonthLengths(mp); }
  }

  /** The days on which the code goes wrong: the last of each 400-year era. */
  predicate LastOfEra(days: int) { (days + 719468) % 146097 == 146096 }

  /** What the formulas find on day doe of an era, unless it is the last. */
  lemma FoundInEra(doe: int, y: int, doy: int, mp: int)
    requires 0 <= doe < 146096 && y == (doe - doe / 1460 + doe / 36524 - doe / 146097) / 365
    requires doy == doe - YearFormula(y) && mp == (5 * doy + 2) / 153
    ensures 0 <= mp <= 11 && 0 <= y <= 399 && 0 <= doy < YearLength(y) && YearStart(y) + doy == doe
    ensures MonthStart(mp) <= doy && (mp < 11 ==> doy < MonthStart(mp + 1)) && MonthFormula(mp) == MonthStart(mp)
  {
    YearOfEra(doe);
    InYear(doe, y);
    MonthOfYear(doy);
    MonthStartIs(mp);
  }

  /** The place found is that day's. */
  lemma DayOfEra(era: int, doe: int, y: int, doy: int, mp: int, n: int)
    requires 0 <= mp <= 11 && 0 <= y <= 399 && 0 <= doy < YearLength(y) && YearStart(y) + doy == doe
    requires MonthStart(mp) <= doy && (mp < 11 ==> doy < MonthStart(mp + 1))
    requires n == EraStart(era) + doe - 719468
    ensures Calendar(n) == DateOf(Place(era, y, mp, doy - MonthStart(mp) + 1))
  {
    PlaceFound(era, y, doy, mp);
    CalendarAt(Place(era, y, mp, doy - MonthStart(mp) + 1));
  }

  lemma LastDay(days: int, era: int, y: int)
    requires y == 399 && days + 719468 == era * 146097 + 146096
    ensures Calendar(days) == Date(era * 400 + 400, 2, 29)
    ensures Calendar(days + 1) == Date(era * 400 + 400, 3, 1)
  {
    EraEnd(y);
    EraStartIs(era);
    DayOfEra(era, 146096, y, 365, 11, days);
    CalendarStep(days);
  }

  /** The date made from what the formulas find. */
  function Assemble(era: int, y: int, doy: int, mp: int): (date: Date)
  {
    var month := if mp < 10 then mp + 3 else mp - 9;
    Date(y + era * 400 + (if month <= 2 then 1 else 0), month, doy - MonthFormula(mp) + 1)
  }

  /** It is the calendar's, on every day of the era but the last. */
  lemma AssembleRight(days: int, era: int, doe: int, y: int, doy: int, mp: int)
    requires days + 719468 == era * 146097 + doe
    requires 0 <= doe < 146096 && y == (doe - doe / 1460 + doe / 36524 - doe / 146097) / 365
    requires doy == doe - YearFormula(y) && mp == (5 * doy + 2) / 153
    ensures Assemble(era, y, doy, mp) == Calendar(days)
  {
    FoundInEra(doe, y, doy, mp);
    EraStartIs(era);
    DayOfEra(era, doe, y, doy, mp, days);
  }

  /** On the last day it is 1 March instead of 29 February. */
  lemma AssembleLast(days: int, era: int, doe: int, y: int, doy: int, mp: int)
    requires days + 719468 == era * 146097 + doe
    requires doe == 146096 && y == (doe - doe / 1460 + doe / 36524 - doe / 146097) / 365
    requires doy == doe - YearFormula(y) && mp == (5 * doy + 2) / 153
    ensures var date := Assemble(era, y, doy, mp);
            && date == Calendar(days + 1) == Date(date.year, 3, 1)
            && Calendar(days) == Date(date.year, 2, 29) && date.year % 400 == 0
  {
    var last := 399;
    LastDay(days, era, last);
    LastFormula(doe, y, doy);
    ModAddMul(0, era + 1, 400);
  }

  predicate IsInt32(v: int) { -0x8000_0000 <= v < 0x8000_0000 }

  /** A year as an int holds it. */
  function ToInt32(v: int): (r: int)
    ensures IsInt32(r) && (r == v <==> IsInt32(v))
  {
    (v + 0x8000_0000) % 0x1_0000_0000 - 0x8000_0000
  }

  /** A date whose year has been stored in an int. */
  function Cut(date: Date): (r: Date) { date.(year := ToInt32(date.year)) }

  /** Lines 268 to 276: the date of a day number. */
  method CivilFromDays(days: int) returns (date: Date)
    ensures date == Calendar(days) <==> !LastOfEra(days) && IsInt32(Calendar(days).year)
    ensures date == Cut(Calendar(if LastOfEra(days) then days + 1 else days))
    ensures LastOfEra(days) ==>
      var year := Calendar(days).year;
      Calendar(days) == Date(year, 2, 29) && Calendar(days + 1) == Date(year, 3, 1) && year % 400 == 0
  {
    var d := days + 719468;
    EraIs(d);
    DivIdentity(d, 146097);
    var era := TDiv(if d >= 0 then d else d - 146096, 146097);
    var doe := d - era * 146097;
    var y := (doe - doe / 1460 + doe / 36524 - doe / 146097) / 365;
    var doy := doe - YearFormula(y);
    var mp := (5 * doy + 2) / 153;
    var wide := Assemble(era, y, doy, mp);
    date := Cut(wide);
    if doe == 146096 {
      AssembleLast(days, era, doe, y, doy, mp);
    } else {
      AssembleRight(days, era, doe, y, doy, mp);
    }
  }

  lemma LastFormula(doe: int, y: int, doy: int)
    requires doe == 146096 && y == (doe - doe / 1460 + doe / 36524 - doe / 146097) / 365 && doy == doe - YearFormula(y)
    ensures y == 400 && doy == 0
  {
    assert doe / 1460 == 100 && doe / 36524 == 4 && doe / 146097 == 0;
    assert YearFormula(400) == 146096;
  }

  /** A day on which the code is wrong: 29 February 2000 comes out as 1 March. */
  method CivilWrongDay() returns (date: Date)
    ensures Calendar(11016) == Date(2000, 2, 29) && date == Date(2000, 3, 1)
  {
    ghost var last := 399;
    LastDay(11016, 4, last);
    date := CivilFromDays(11016);
  }

  // ---- dates and times

  /** C's quotient and remainder, corrected for a negative remainder, are those of floor division. */
  lemma LocalDay(ls: int)
    ensures var days := TDiv(ls, 86400);
            var rem := ls - days * 86400;
            && (if rem < 0 then days - 1 else days) == ls / 86400
            && (if rem < 0 then rem + 86400 else rem) == ls % 86400
  {
    var q, r := ls / 86400, ls % 86400;
    DivIdentity(ls, 86400);
    if ls < 0 {
      if r == 0 {
        DivModUnique(-ls, 86400, -q, 0);
      } else {
        DivModUnique(-ls, 86400, -q - 1, 86400 - r);
      }
    }
  }

  lemma TimeOfDay(rest: int)
    requires 0 <= rest < 86400
    ensures 0 <= rest / 3600 < 24 && 0 <= rest / 60 % 60 < 60
    ensures 0 <= rest - (rest / 3600 * 3600 + rest / 60 % 60 * 60) < 60
  {
    DivDiv(rest, 60, 60);
    DivIdentity(rest, 60);
    DivIdentity(rest, 3600);
  }

  predicate IsInt64(v: int) { -0x8000_0000_0000_0000 <= v < 0x8000_0000_0000_0000 }

  /**
   * wm_read_datetime for a clock reading s and a zone tz minutes east of UTC: hour and minute are exact, and the
   * date is the calendar's exactly on the days that are not the last of an era and whose year fits an int.
   */
  method ReadDateTime(s: int, tz: int) returns (ok: bool, date: Date, hh: int, mm: int)
    requires IsInt64(s) && (s >= 0 ==> IsInt64(s + tz * 60))
    ensures ok <==> s >= 0
    ensures ok ==>
              var ls := s + tz * 60;
              && 0 <= hh < 24 && 0 <= mm < 60
              && 0 <= ls - (ls / 86400 * 86400 + hh * 3600 + mm * 60) < 60
              && (date == Calendar(ls / 86400) <==> !LastOfEra(ls / 86400) && IsInt32(Calendar(ls / 86400).year))
              && date == Cut(Calendar(if LastOfEra(ls / 86400) then ls / 86400 + 1 else ls / 86400))
  {
    if s < 0 {
      return false, Date(0, 0, 0), 0, 0;
    }
    var ls := s + tz * 60;
    LocalDay(ls);
    TimeOfDay(ls % 86400);
    DivIdentity(ls, 86400);
    var days := TDiv(ls, 86400);
    var rem := ls - days * 86400;
    if rem < 0 {
      rem := rem + 86400;
      days := days - 1;
    }
    hh := rem / 3600;
    mm := rem / 60 % 60;
    date := CivilFromDays(days);
    ok := true;
  }
}

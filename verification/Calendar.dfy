// Julian-day arithmetic of src/common/dateTime.cpp: the proleptic Gregorian calendar without a year 0.
module Calendar {
  // ----- C++ arithmetic -----

  /** C++ division of integers truncates toward zero. */
  function TruncDiv(a: int, b: int): int
    requires b != 0
  {
    if a >= 0 then (if b > 0 then a / b else -(a / -b)) else (if b > 0 then -(-a / b) else -a / -b)
  }

  function TruncMod(a: int, b: int): int
    requires b != 0
  {
    a - b * TruncDiv(a, b)
  }

  function FloorDiv(a: int, b: int): int
    requires b != 0
  {
    if b < 0 && a < 0 then TruncDiv(a, b)
    else
      var (p, q) := if b < 0 then (-a, -b) else (a, b);
      TruncDiv(p - (if p < 0 then q - 1 else 0), q)
  }

  /** For either sign of the divisor the quotient is rounded down. */
  lemma FloorDivIsFloor(a: int, b: int)
    requires b != 0
    ensures b > 0 ==> FloorDiv(a, b) * b <= a < FloorDiv(a, b) * b + b
    ensures b < 0 ==> FloorDiv(a, b) * b >= a > FloorDiv(a, b) * b + b
  {
    if b < 0 && a < 0 {
      DivMod(-a, -b);
      Distribute(-a / -b, b);
    } else {
      var p, q := if b < 0 then -a else a, if b < 0 then -b else b;
      var n := p - (if p < 0 then q - 1 else 0);
      if n >= 0 { DivMod(n, q); } else { DivMod(-n, q); Distribute(-n / q, q); }
      Distribute(FloorDiv(a, b), q);
    }
  }

  lemma DivMod(a: int, b: int)
    requires a >= 0 && b > 0
    ensures (a / b) * b <= a < (a / b) * b + b
  {
    assert a == b * (a / b) + a % b;
  }

  lemma Distribute(x: int, y: int)
    ensures (-x) * y == -(x * y) && x * (-y) == -(x * y)
  {
  }

  lemma SameQuotient(a: int, b: int, q: int, r: int)
    requires b > 0 && q * b <= a < q * b + b && r * b <= a < r * b + b
    ensures q == r
  {
    if q < r { MulLe(q + 1, r, b); }
    if r < q { MulLe(r + 1, q, b); }
  }

  lemma MulLe(x: int, y: int, b: int)
    requires x <= y && b > 0
    ensures x * b <= y * b
  {
  }

  lemma FloorDivPositive(a: int, b: int)
    requires b > 0
    ensures FloorDiv(a, b) == a / b
  {
    FloorDivIsFloor(a, b);
    assert a == b * (a / b) + a % b;
    SameQuotient(a, b, FloorDiv(a, b), a / b);
  }

  // ----- the source's functions -----

  datatype Ymd = Ymd(year: int, month: int, day: int)

  function IsLeapYear(year: int): bool {
    var y := if year < 1 then year + 1 else year;
    (TruncMod(y, 4) == 0 && TruncMod(y, 100) != 0) || TruncMod(y, 400) == 0
  }

  const DAYS: seq<int> := [0, 31, 28, 31, 30, 31, 30, 31, 31, 30, 31, 30, 31]

  function DaysInMonth(month: int): int {
    DAYS[if month < 1 || month > 12 then 0 else month]
  }

  predicate IsValid(t: Ymd) {
    t.year != 0 && t.day >= 1 && (t.day <= DaysInMonth(t.month) || (t.day == 29 && t.month == 2 && IsLeapYear(t.year)))
  }

  function YmdToJd(t: Ymd): int {
    var year := if t.year < 0 then t.year + 1 else t.year;
    var a := FloorDiv(14 - t.month, 12);
    var y := year + 4800 - a;
    var m := t.month + 12 * a - 3;
    t.day + FloorDiv(153 * m + 2, 5) + 365 * y + FloorDiv(y, 4) - FloorDiv(y, 100) + FloorDiv(y, 400) - 32045
  }

  function JdToYmd(jd: int): Ymd {
    var a := jd + 32044;
    var b := FloorDiv(4 * a + 3, 146097);
    var c := a - FloorDiv(146097 * b, 4);
    var d := FloorDiv(4 * c + 3, 1461);
    var e := c - FloorDiv(1461 * d, 4);
    var m := FloorDiv(5 * e + 2, 153);
    var year := 100 * b + d - 4800 + FloorDiv(m, 10);
    Ymd(if year <= 0 then year - 1 else year, m + 3 - 12 * FloorDiv(m, 10), e - FloorDiv(153 * m + 2, 5) + 1)
  }

  function DayOfWeek(jd: int): int {
    if jd >= 0 then TruncMod(jd, 7) + 1 else TruncMod(jd + 1, 7) + 7
  }

  function DayOfYear(jd: int): int {
    jd - YmdToJd(Ymd(JdToYmd(jd).year, 1, 1)) + 1
  }

  function DaysInYear(year: int): int { if IsLeapYear(year) then 366 else 365 }

  /** The dates there are: no year 0, thirty days in April, June, September and November, 28 in February, or
      29 in leap years, where year -1 counts as 0, year -2 as -1, and so on. */
  lemma ValidDates(y: int, m: int, d: int)
    ensures IsValid(Ymd(y, m, d)) <==>
      && y != 0 && 1 <= m <= 12 && 1 <= d
      && d <= if m == 4 || m == 6 || m == 9 || m == 11 then 30
              else if m != 2 then 31
              else
                var c := if y < 0 then y + 1 else y;
                if (c % 4 == 0 && c % 100 != 0) || c % 400 == 0 then 29 else 28
  {
    if y != 0 { LeapIsLeap(y); }
    MonthLengths(m);
  }

  lemma MonthLengths(m: int)
    ensures DaysInMonth(m) == if m < 1 || m > 12 then 0 else if m == 2 then 28 else if m == 4 || m == 6 || m == 9 || m == 11 then 30 else 31
  {
  }

  // ----- years that begin in March -----

  /** Years counted with a year 0. */
  function Counted(year: int): int { if year < 0 then year + 1 else year }

  predicate Leap(y: int) { (y % 4 == 0 && y % 100 != 0) || y % 400 == 0 }

  lemma LeapIsLeap(year: int)
    requires year != 0
    ensures IsLeapYear(year) == Leap(Counted(year))
  {
    var y := Counted(year);
    TruncModZero(y, 4);
    TruncModZero(y, 100);
    TruncModZero(y, 400);
  }

  lemma TruncModZero(a: int, b: int)
    requires b > 0
    ensures TruncMod(a, b) == 0 <==> a % b == 0
  {
    if a < 0 {
      var q := -a / b;
      assert -a == b * q + -a % b;
      assert TruncMod(a, b) == a + b * q by { Distribute(q, b); }
      if -a % b == 0 { Multiple(-q, b); assert a == -q * b; } 
      if a % b == 0 { var r := a / b; assert a == b * r; Multiple(-r, b); Distribute(r, b); }
    }
  }

  lemma Multiple(k: int, b: int)
    requires b > 0
    ensures (k * b) % b == 0
  {
    assert k * b == b * ((k * b) / b) + (k * b) % b;
    SameQuotient(k * b, b, (k * b) / b, k);
  }

  /** Days from 1 March of year 0 to 1 March of year y. */
  function YearStart(y: int): int { 365 * y + y / 4 - y / 100 + y / 400 }

  /** Days from 1 March to the first of the k-th month after it. */
  function MonthStart(k: int): int { (153 * k + 2) / 5 }

  lemma YearLength(y: int)
    ensures YearStart(y + 1) - YearStart(y) == if Leap(y + 1) then 366 else 365
  {
    StepDiv(y, 4);
    StepDiv(y, 100);
    StepDiv(y, 400);
    assert (y + 1) % 400 == 0 ==> (y + 1) % 100 == 0;
    assert (y + 1) % 100 == 0 ==> (y + 1) % 4 == 0;
  }

  lemma StepDiv(y: int, n: int)
    requires n == 4 || n == 100 || n == 400
    ensures (y + 1) / n - y / n == if (y + 1) % n == 0 then 1 else 0
  {
  }

  lemma {:induction false} YearMono(y: int, z: int)
    requires y <= z
    ensures YearStart(y) + 365 * (z - y) <= YearStart(z)
    decreases z - y
  {
    if y < z {
      YearMono(y, z - 1);
      YearLength(z - 1);
    }
  }

  /** The March year of a date, counted from -4800, and the month in it, March being 0. */
  function MarchYearOf(t: Ymd): int { Counted(t.year) + 4800 - (if t.month <= 2 then 1 else 0) }

  function MarchMonthOf(t: Ymd): int { if t.month <= 2 then t.month + 9 else t.month - 3 }

  /** The source's formula is: days before the March year, days before the month in it, day. */
  lemma YmdToJdParts(t: Ymd)
    requires 1 <= t.month <= 12
    ensures var y := MarchYearOf(t);
            var k := MarchMonthOf(t);
            YmdToJd(t) == YearStart(y) + MonthStart(k) + t.day - 1 - 32044
  {
    var a := if t.month <= 2 then 1 else 0;
    assert FloorDiv(14 - t.month, 12) == a by { FloorDivPositive(14 - t.month, 12); }
    var y, m := Counted(t.year) + 4800 - a, t.month + 12 * a - 3;
    assert FloorDiv(153 * m + 2, 5) == MonthStart(m) by { FloorDivPositive(153 * m + 2, 5); }
    YearStartForm(y);
  }

  lemma YearStartForm(y: int)
    ensures 365 * y + FloorDiv(y, 4) - FloorDiv(y, 100) + FloorDiv(y, 400) == YearStart(y)
  {
    FloorDivPositive(y, 4);
    FloorDivPositive(y, 100);
    FloorDivPositive(y, 400);
  }

  /** The March year and the day in it that a day count falls into, as the source computes them. */
  function CenturyOf(a: int): int { (4 * a + 3) / 146097 }

  function InCentury(a: int): int { a - 146097 * CenturyOf(a) / 4 }

  function YearOf(a: int): int { 100 * CenturyOf(a) + (4 * InCentury(a) + 3) / 1461 }

  function InYear(a: int): int { InCentury(a) - 1461 * ((4 * InCentury(a) + 3) / 1461) / 4 }

  function MonthOf(e: int): int { (5 * e + 2) / 153 }

  lemma JdToYmdParts(jd: int)
    requires 0 <= InYear(jd + 32044) <= 365
    ensures var a := jd + 32044; var e := InYear(a); var m := MonthOf(e);
            var y := YearOf(a) - 4800 + (if m >= 10 then 1 else 0);
            && 0 <= m <= 11
            && JdToYmd(jd) == Ymd(if y <= 0 then y - 1 else y, if m >= 10 then m - 9 else m + 3, e - MonthStart(m) + 1)
  {
    var a := jd + 32044;
    var b, c, e := CenturyOf(a), InCentury(a), InYear(a);
    var d, m := (4 * c + 3) / 1461, MonthOf(e);
    FloorDivPositive(4 * a + 3, 146097);
    FloorDivPositive(146097 * b, 4);
    FloorDivPositive(4 * c + 3, 1461);
    FloorDivPositive(1461 * d, 4);
    FloorDivPositive(5 * e + 2, 153);
    JdToYmdSteps(jd, b, c, d, e, m);
    MonthSteps(e, m);
  }

  lemma MonthSteps(e: int, m: int)
    requires 0 <= e <= 365 && m == MonthOf(e)
    ensures 0 <= m <= 11 && FloorDiv(m, 10) == (if m >= 10 then 1 else 0) && FloorDiv(153 * m + 2, 5) == MonthStart(m)
  {
    FloorDivPositive(m, 10);
    FloorDivPositive(153 * m + 2, 5);
  }

  lemma CenturyBounds(a: int)
    ensures var b := CenturyOf(a); 146097 * b / 4 == 36524 * b + b / 4
    ensures 0 <= InCentury(a) <= if CenturyOf(a) % 4 == 3 then 36524 else 36523
  {
    var b := CenturyOf(a);
    var q, s := b / 4, b % 4;
    assert b == 4 * q + s;
    assert 146097 * b == 4 * (36524 * b + q) + s;
    assert 146097 * b <= 4 * a + 3 < 146097 * b + 146097;
  }

  lemma YearBounds(a: int)
    ensures var d := (4 * InCentury(a) + 3) / 1461; 1461 * d / 4 == 365 * d + d / 4 && 0 <= d <= 99
    ensures 0 <= InYear(a) <= if Leap(YearOf(a) + 1) then 365 else 364
  {
    CenturyBounds(a);
    var c := InCentury(a);
    var d := (4 * c + 3) / 1461;
    assert 1461 * d == 4 * (365 * d + d / 4) + d % 4;
    LeapInCentury(CenturyOf(a), d);
  }

  lemma LeapInCentury(b: int, d: int)
    requires 0 <= d <= 99
    ensures Leap(100 * b + d + 1) <==> if d == 99 then b % 4 == 3 else d % 4 == 3
    ensures (100 * b + d) / 4 == 25 * b + d / 4 && (100 * b + d) / 100 == b && (100 * b + d) / 400 == b / 4
  {
    var q, s := b / 4, b % 4;
    var r := 100 * s + d;
    assert 100 * b + d == 400 * q + r;
    QuadCentury(q, s, d);
  }

  lemma QuadCentury(q: int, s: int, d: int)
    requires 0 <= s <= 3 && 0 <= d <= 99
    ensures var y := 400 * q + 100 * s + d;
            && y / 4 == 100 * q + 25 * s + d / 4 && y / 100 == 4 * q + s && y / 400 == q
            && (Leap(y + 1) <==> if d == 99 then s == 3 else d % 4 == 3)
  {
    var y := 400 * q + 100 * s + d;
    LeapOfQuad(q, s, d);
    DivOf(y, 4, 100 * q + 25 * s + d / 4, d % 4);
    DivOf(y, 100, 4 * q + s, d);
    DivOf(y, 400, q, 100 * s + d);
  }

  lemma DivOf(a: int, b: int, q: int, r: int)
    requires (b == 4 || b == 100 || b == 400) && a == b * q + r && 0 <= r < b
    ensures a / b == q && a % b == r
  {
  }

  lemma LeapOfQuad(q: int, s: int, d: int)
    requires 0 <= s <= 3 && 0 <= d <= 99
    ensures Leap(400 * q + 100 * s + d + 1) <==> if d == 99 then s == 3 else d % 4 == 3
  {
    var y := 400 * q + 100 * s + d + 1;
    if d == 99 {
      DivOf(y, 400, if s == 3 then q + 1 else q, if s == 3 then 0 else 100 * (s + 1));
      DivOf(y, 100, 4 * q + s + 1, 0);
    } else {
      DivOf(y, 400, q, 100 * s + d + 1);
      DivOf(y, 100, 4 * q + s, d + 1);
      DivOf(y, 4, 100 * q + 25 * s + (d + 1) / 4, (d + 1) % 4);
    }
  }

  /** Every day count lies in the March year that the source computes for it. */
  lemma InItsYear(a: int)
    ensures YearStart(YearOf(a)) + InYear(a) == a
    ensures 0 <= InYear(a) && a < YearStart(YearOf(a) + 1)
  {
    CenturyBounds(a);
    YearBounds(a);
    LeapInCentury(CenturyOf(a), (4 * InCentury(a) + 3) / 1461);
    YearLength(YearOf(a));
  }

  /** It lies in no other. */
  lemma OnlyYear(a: int, y: int)
    requires YearStart(y) <= a < YearStart(y + 1)
    ensures YearOf(a) == y && InYear(a) == a - YearStart(y)
  {
    InItsYear(a);
    if y < YearOf(a) { YearMono(y + 1, YearOf(a)); }
    if YearOf(a) < y { YearMono(YearOf(a) + 1, y); }
  }

  lemma InItsMonth(e: int)
    requires 0 <= e <= 365
    ensures 0 <= MonthOf(e) <= 11 && MonthStart(MonthOf(e)) <= e < MonthStart(MonthOf(e) + 1)
  {
  }

  lemma OnlyMonth(e: int, k: int)
    requires 0 <= k <= 11 && 0 <= e <= 365 && MonthStart(k) <= e < MonthStart(k + 1)
    ensures MonthOf(e) == k
  {
  }

  /** Months of a March year, the last one apart, have the lengths of the table. */
  lemma MonthLength(k: int)
    requires 0 <= k <= 11
    ensures var month := if k >= 10 then k - 9 else k + 3;
            if k == 11 then MonthStart(k) == 337 && DaysInMonth(month) == 28
            else MonthStart(k + 1) - MonthStart(k) == DaysInMonth(month) && MonthStart(k + 1) <= 337
  {
  }

  lemma LeapShift(y: int)
    ensures Leap(y + 4800) == Leap(y)
  {
    ShiftMod(y, 4);
    ShiftMod(y, 100);
    ShiftMod(y, 400);
  }

  lemma ShiftMod(y: int, n: int)
    requires n == 4 || n == 100 || n == 400
    ensures (y + 4800) % n == y % n
  {
  }

  // ----- the two conversions invert each other -----

  /** A valid date lies in the March year that the source counts it to. */
  lemma ValidInMarchYear(t: Ymd)
    requires IsValid(t)
    ensures 1 <= t.month <= 12
    ensures var y := MarchYearOf(t);
            var k := MarchMonthOf(t);
            && MonthStart(k) <= MonthStart(k) + t.day - 1 < MonthStart(k + 1)
            && MonthStart(k) + t.day - 1 < YearStart(y + 1) - YearStart(y) <= 366
  {
    LeapIsLeap(t.year);
    LeapShift(Counted(t.year));
    YearLength(MarchYearOf(t));
    MonthLength(MarchMonthOf(t));
  }

  /** The Julian day in terms of March years. */
  function MarchJd(t: Ymd): int {
    YearStart(MarchYearOf(t)) + MonthStart(MarchMonthOf(t)) + t.day - 1 - 32044
  }

  lemma YmdToJdIsMarch(t: Ymd)
    requires 1 <= t.month <= 12
    ensures YmdToJd(t) == MarchJd(t)
  {
    YmdToJdParts(t);
  }

  /** The date in terms of March years. */
  function MarchYmd(jd: int): Ymd {
    var a := jd + 32044;
    var m := MonthOf(InYear(a));
    var y := YearOf(a) - 4800 + (if m >= 10 then 1 else 0);
    Ymd(if y <= 0 then y - 1 else y, if m >= 10 then m - 9 else m + 3, InYear(a) - MonthStart(m) + 1)
  }

  lemma JdToYmdIsMarch(jd: int)
    ensures JdToYmd(jd) == MarchYmd(jd)
  {
    YearBounds(jd + 32044);
    JdToYmdParts(jd);
  }

  lemma MarchYmdAt(jd: int, y: int, k: int, day: int)
    requires 0 <= k <= 11 && jd + 32044 == YearStart(y) + MonthStart(k) + day - 1
    requires MonthStart(k) <= MonthStart(k) + day - 1 < MonthStart(k + 1)
    requires MonthStart(k) + day - 1 < YearStart(y + 1) - YearStart(y) <= 366
    ensures var n := y - 4800 + (if k >= 10 then 1 else 0);
            MarchYmd(jd) == Ymd(if n <= 0 then n - 1 else n, if k >= 10 then k - 9 else k + 3, day)
  {
    OnlyYear(jd + 32044, y);
    OnlyMonth(MonthStart(k) + day - 1, k);
  }

  lemma MarchInverse(t: Ymd)
    requires IsValid(t)
    ensures MarchYmd(MarchJd(t)) == t
  {
    ValidInMarchYear(t);
    MarchYmdAt(MarchJd(t), MarchYearOf(t), MarchMonthOf(t), t.day);
  }

  lemma JdOfYmd(t: Ymd)
    requires IsValid(t)
    ensures JdToYmd(YmdToJd(t)) == t
  {
    ValidInMarchYear(t);
    YmdToJdIsMarch(t);
    JdToYmdIsMarch(MarchJd(t));
    MarchInverse(t);
  }

  lemma MarchInverse2(jd: int)
    ensures IsValid(MarchYmd(jd)) && MarchJd(MarchYmd(jd)) == jd
  {
    var y, e, m := PlaceOf(jd + 32044);
    MarchDate(MarchYmd(jd), y, e, m);
  }

  /** The March year, the day in it and the month of a day. */
  lemma PlaceOf(a: int) returns (y: int, e: int, m: int)
    ensures y == YearOf(a) && e == InYear(a) && m == MonthOf(e)
    ensures YearStart(y) + e == a && 0 <= e < YearStart(y + 1) - YearStart(y) && 0 <= m <= 11 && MonthStart(m) <= e < MonthStart(m + 1)
    ensures YearStart(y + 1) - YearStart(y) == if Leap(y + 1) then 366 else 365
  {
    y, e := YearOf(a), InYear(a);
    m := MonthOf(e);
    InItsYear(a);
    YearLength(y);
    InItsMonth(e);
  }

  /** Month m and day e of March year y, as a date. */
  lemma MarchDate(t: Ymd, y: int, e: int, m: int)
    requires 0 <= m <= 11 && 0 <= e < YearStart(y + 1) - YearStart(y) && MonthStart(m) <= e < MonthStart(m + 1)
    requires YearStart(y + 1) - YearStart(y) == if Leap(y + 1) then 366 else 365
    requires var n := y - 4800 + (if m >= 10 then 1 else 0);
             t == Ymd(if n <= 0 then n - 1 else n, if m >= 10 then m - 9 else m + 3, e - MonthStart(m) + 1)
    ensures IsValid(t) && MarchJd(t) == YearStart(y) + e - 32044
  {
    MonthLength(m);
    LeapIsLeap(t.year);
    LeapShift(Counted(t.year));
  }

  lemma YmdOfJd(jd: int)
    ensures IsValid(JdToYmd(jd)) && YmdToJd(JdToYmd(jd)) == jd
  {
    JdToYmdIsMarch(jd);
    MarchInverse2(jd);
    ValidInMarchYear(MarchYmd(jd));
    YmdToJdIsMarch(MarchYmd(jd));
  }

  // ----- the calendar as people count it -----

  /** The day after a date. */
  function Next(t: Ymd): Ymd {
    if t.day < LastDay(t) then t.(day := t.day + 1)
    else if t.month < 12 then Ymd(t.year, t.month + 1, 1)
    else Ymd(if t.year == -1 then 1 else t.year + 1, 1, 1)
  }

  /** Consecutive days have consecutive numbers. */
  lemma NextIsNext(t: Ymd)
    requires IsValid(t)
    ensures IsValid(Next(t)) && YmdToJd(Next(t)) == YmdToJd(t) + 1
  {
    ValidInMarchYear(t);
    MarchNext(t);
    YmdToJdIsMarch(t);
    YmdToJdIsMarch(Next(t));
  }

  lemma MarchNext(t: Ymd)
    requires IsValid(t)
    ensures IsValid(Next(t)) && 1 <= Next(t).month <= 12 && MarchJd(Next(t)) == MarchJd(t) + 1
  {
    if t.day < LastDay(t) {
    } else if t.month == 2 {
      NextOfFebruary(t);
    } else {
      NextOfMonth(t);
    }
  }

  lemma NextOfMonth(t: Ymd)
    requires IsValid(t) && t.month != 2 && t.day == LastDay(t)
    ensures IsValid(Next(t)) && 1 <= Next(t).month <= 12 && MarchJd(Next(t)) == MarchJd(t) + 1
  {
    var k := MarchMonthOf(t);
    MonthLength(k);
    assert DaysInMonth(1) == 31 && DaysInMonth(t.month % 12 + 1) >= 1;
    SameMarchYear(t);
  }

  lemma SameMarchYear(t: Ymd)
    requires IsValid(t) && t.month != 2 && t.day == LastDay(t)
    ensures MarchYearOf(Next(t)) == MarchYearOf(t) && MarchMonthOf(Next(t)) == MarchMonthOf(t) + 1
  {
  }

  function LastDay(t: Ymd): int {
    if t.month == 2 && IsLeapYear(t.year) then 29 else DaysInMonth(t.month)
  }

  lemma NextOfFebruary(t: Ymd)
    requires IsValid(t) && t.month == 2 && t.day == LastDay(t)
    ensures IsValid(Next(t)) && Next(t) == Ymd(t.year, 3, 1) && MarchJd(Next(t)) == MarchJd(t) + 1
  {
    LeapIsLeap(t.year);
    LeapShift(Counted(t.year));
    YearLength(Counted(t.year) + 4799);
    MarchFirst(t.year);
  }

  lemma MarchFirst(year: int)
    requires year != 0
    ensures IsValid(Ymd(year, 3, 1)) && MonthStart(11) == 337 && MonthStart(0) == 0
  {
  }

  ghost predicate Before(s: Ymd, t: Ymd) {
    s.year < t.year || (s.year == t.year && (s.month < t.month || (s.month == t.month && s.day < t.day)))
  }

  /** The order in March years: year, month from March on, day. */
  ghost predicate MarchBefore(y: int, k: int, d: int, y': int, k': int, d': int) {
    y < y' || (y == y' && (k < k' || (k == k' && d < d')))
  }

  /** Counting years from March and leaving out year 0 change nothing in the order. */
  lemma BeforeIsMarchBefore(s: Ymd, t: Ymd)
    requires s.year != 0 && t.year != 0 && 1 <= s.month <= 12 && 1 <= t.month <= 12
    ensures Before(s, t) <==> MarchBefore(MarchYearOf(s), MarchMonthOf(s), s.day, MarchYearOf(t), MarchMonthOf(t), t.day)
  {
  }

  lemma MarchOrder(y: int, k: int, d: int, y': int, k': int, d': int)
    requires 0 <= k <= 11 && MonthStart(k) + d - 1 < MonthStart(k + 1) && MonthStart(k) + d - 1 < YearStart(y + 1) - YearStart(y)
    requires 0 <= k' <= 11 && d' >= 1 && MarchBefore(y, k, d, y', k', d')
    ensures YearStart(y) + MonthStart(k) + d < YearStart(y') + MonthStart(k') + d'
  {
    if y < y' {
      YearMono(y + 1, y');
    } else if k < k' {
      MonthMono(k + 1, k');
    }
  }

  lemma MonthMono(k: int, l: int)
    requires 0 <= k <= l <= 11
    ensures MonthStart(k) <= MonthStart(l)
  {
  }

  lemma Earlier(s: Ymd, t: Ymd)
    requires IsValid(s) && IsValid(t) && Before(s, t)
    ensures MarchJd(s) < MarchJd(t)
  {
    var y, k := InMarchYear(s);
    var y', k' := InMarchYear(t);
    BeforeIsMarchBefore(s, t);
    MarchOrder(y, k, s.day, y', k', t.day);
  }

  lemma InMarchYear(t: Ymd) returns (y: int, k: int)
    requires IsValid(t)
    ensures y == MarchYearOf(t) && k == MarchMonthOf(t) && 1 <= t.month <= 12 && 0 <= k <= 11 && t.day >= 1
    ensures MonthStart(k) + t.day - 1 < MonthStart(k + 1) && MonthStart(k) + t.day - 1 < YearStart(y + 1) - YearStart(y)
    ensures MarchJd(t) == YearStart(y) + MonthStart(k) + t.day - 1 - 32044
  {
    y, k := MarchYearOf(t), MarchMonthOf(t);
    ValidInMarchYear(t);
  }

  /** The order of Julian days is the order of the calendar. */
  lemma OrderIsOrder(s: Ymd, t: Ymd)
    requires IsValid(s) && IsValid(t)
    ensures YmdToJd(s) < YmdToJd(t) <==> Before(s, t)
  {
    ValidInMarchYear(s);
    ValidInMarchYear(t);
    YmdToJdIsMarch(s);
    YmdToJdIsMarch(t);
    OrderByMarch(s, t);
  }

  lemma OrderByMarch(s: Ymd, t: Ymd)
    requires IsValid(s) && IsValid(t)
    ensures MarchJd(s) < MarchJd(t) <==> Before(s, t)
  {
    if Before(s, t) {
      Earlier(s, t);
    } else if s != t {
      Earlier(t, s);
    }
  }

  /** The weekday advances by one every day, before day 0 as after it; day 0 is a Monday. */
  lemma WeekdayCycles(jd: int)
    ensures 1 <= DayOfWeek(jd) <= 7 && DayOfWeek(jd + 1) == DayOfWeek(jd) % 7 + 1 && DayOfWeek(0) == 1
    ensures DayOfWeek(jd) == jd % 7 + 1
  {
    WeekdayIs(jd);
    WeekdayIs(jd + 1);
    WeekdayIs(0);
    NextMod(jd);
  }

  lemma NextMod(jd: int)
    ensures (jd + 1) % 7 == (jd % 7 + 1) % 7
  {
    var q, r := jd / 7, jd % 7;
    assert jd == 7 * q + r;
    if r == 6 { assert jd + 1 == 7 * (q + 1); }
  }

  lemma WeekdayIs(jd: int)
    ensures DayOfWeek(jd) == jd % 7 + 1
  {
    if jd < 0 { assert -(jd + 1) == 7 * (-(jd + 1) / 7) + -(jd + 1) % 7; }
  }

  /** Days in the months of a year before one. */
  function DaysBefore(year: int, month: int): int
    decreases month
  {
    if month <= 1 then 0
    else DaysBefore(year, month - 1) + (if month - 1 == 2 && IsLeapYear(year) then 29 else DaysInMonth(month - 1))
  }

  lemma {:induction false} MonthBegins(year: int, month: int)
    requires year != 0 && 1 <= month <= 12
    ensures MarchJd(Ymd(year, month, 1)) == MarchJd(Ymd(year, 1, 1)) + DaysBefore(year, month)
    decreases month
  {
    if month > 1 {
      MonthBegins(year, month - 1);
      NextMonthBegins(year, month - 1);
    }
  }

  lemma NextMonthBegins(year: int, month: int)
    requires year != 0 && 1 <= month <= 11
    ensures MarchJd(Ymd(year, month + 1, 1))
            == MarchJd(Ymd(year, month, 1)) + (if month == 2 && IsLeapYear(year) then 29 else DaysInMonth(month))
  {
    var last := Ymd(year, month, LastDay(Ymd(year, month, 1)));
    LastIsValid(last);
    MarchNext(last);
    FirstOfMonth(last);
  }

  lemma LastIsValid(t: Ymd)
    requires t.year != 0 && 1 <= t.month <= 11 && t.day == LastDay(t)
    ensures IsValid(t) && Next(t) == Ymd(t.year, t.month + 1, 1)
  {
  }

  lemma FirstOfMonth(t: Ymd)
    ensures MarchJd(t) == MarchJd(Ymd(t.year, t.month, 1)) + t.day - 1
  {
  }

  lemma DayOfYearMarch(t: Ymd)
    requires IsValid(t)
    ensures DayOfYear(YmdToJd(t)) == MarchJd(t) - MarchJd(Ymd(t.year, 1, 1)) + 1
  {
    JdOfYmd(t);
    ValidInMarchYear(t);
    YmdToJdIsMarch(t);
    YmdToJdIsMarch(Ymd(t.year, 1, 1));
  }

  /** The day of the year is the days of the months before, and the day; it runs from 1 to the length
      of the year. */
  lemma DayOfYearIs(t: Ymd)
    requires IsValid(t)
    ensures DayOfYear(YmdToJd(t)) == DaysBefore(t.year, t.month) + t.day
    ensures 1 <= DayOfYear(YmdToJd(t)) <= DaysInYear(t.year)
  {
    DayOfYearMarch(t);
    MarchDayOfYear(t);
  }

  lemma MarchDayOfYear(t: Ymd)
    requires IsValid(t)
    ensures MarchJd(t) - MarchJd(Ymd(t.year, 1, 1)) + 1 == DaysBefore(t.year, t.month) + t.day
    ensures 1 <= DaysBefore(t.year, t.month) + t.day <= DaysInYear(t.year)
  {
    ValidInMarchYear(t);
    MonthBegins(t.year, t.month);
    DaysBeforeBounds(t.year, t.month);
  }

  lemma {:induction false} DaysBeforeBounds(year: int, month: int)
    requires 1 <= month <= 12
    ensures 0 <= DaysBefore(year, month)
    ensures DaysBefore(year, month) + (if month == 2 && IsLeapYear(year) then 29 else DaysInMonth(month)) <= DaysInYear(year)
  {
    assert DaysBefore(year, 2) == 31;
    assert DaysBefore(year, 3) == DaysInYear(year) - 306;
    assert DaysBefore(year, 5) == DaysInYear(year) - 245;
    assert DaysBefore(year, 7) == DaysInYear(year) - 184;
    assert DaysBefore(year, 9) == DaysInYear(year) - 122;
    assert DaysBefore(year, 11) == DaysInYear(year) - 61;
    assert DaysBefore(year, 12) == DaysInYear(year) - 31;
  }

  // ----- 32-bit integers -----

  newtype int32 = x: int | -0x8000_0000 <= x < 0x8000_0000

  const DATE_JD_INVALID: int32 := -0x8000_0000

  /** Division as FloorDiv does it for a positive divisor, every intermediate an int32. */
  function FloorDiv32(a: int32, b: int32): (r: int32)
    requires b > 0 && a as int >= -0x8000_0000 + b as int
    ensures r as int == FloorDiv(a as int, b as int)
  {
    var n := a - (if a < 0 then b - 1 else 0);
    TruncFits(n as int, b as int);
    if n >= 0 then n / b else -((-n) / b)
  }

  lemma TruncFits(n: int, b: int)
    requires b > 0
    ensures n >= 0 ==> 0 <= n / b <= n
    ensures n < 0 ==> 0 <= -n / b <= -n
  {
    DivLe(if n >= 0 then n else -n, b);
  }

  lemma DivLe(n: int, b: int)
    requires n >= 0 && b > 0
    ensures 0 <= n / b <= n
  {
    DivMod(n, b);
    QuotientFits(n, b, n / b);
  }

  lemma QuotientFits(n: int, b: int, q: int)
    requires n >= 0 && b > 0 && q * b <= n < q * b + b
    ensures 0 <= q <= n
  {
    if q < 0 { MulLe(q + 1, 0, b); }
    if q > n { MulLe(n + 1, q, b); MulLe(1, b, n + 1); }
  }

  lemma DivForms32(m: int, y: int)
    ensures FloorDiv(153 * m + 2, 5) == (153 * m + 2) / 5
    ensures FloorDiv(y, 4) == y / 4 && FloorDiv(y, 100) == y / 100 && FloorDiv(y, 400) == y / 400
  {
    FloorDivPositive(153 * m + 2, 5);
    FloorDivPositive(y, 4);
    FloorDivPositive(y, 100);
    FloorDivPositive(y, 400);
  }

  // ----- exactly when nothing overflows -----

  predicate Fits(x: int) { -0x8000_0000 <= x < 0x8000_0000 }

  /** Everything that YmdToJd computes on the way, in its order, fits 32 bits; of the steps within a floor
      division only the rounding of a negative year can leave the range. */
  predicate SumsFit(t: Ymd) {
    var y, days := MarchYearOf(t), t.day + MonthStart(MarchMonthOf(t));
    var q4, q100, q400 := FloorDiv(y, 4), FloorDiv(y, 100), FloorDiv(y, 400);
    && Fits(Counted(t.year) + 4800) && Fits(y) && (y < 0 ==> Fits(y - 399)) && Fits(365 * y)
    && Fits(days + 365 * y) && Fits(days + 365 * y + q4) && Fits(days + 365 * y + q4 - q100)
    && Fits(days + 365 * y + q4 - q100 + q400) && Fits(days + 365 * y + q4 - q100 + q400 - 32045)
  }

  const FIRST_DATE := Ymd(-5884291, 5, 14)
  const LAST_DATE := Ymd(5874689, 12, 15)

  ghost predicate DateFits(t: Ymd) { !Before(t, FIRST_DATE) && !Before(LAST_DATE, t) }

  /** The sum that leaves the range first, on either side: days counted with every fourth year leap. */
  function JulianDays(t: Ymd): int {
    t.day + MonthStart(MarchMonthOf(t)) + 365 * MarchYearOf(t) + MarchYearOf(t) / 4
  }

  lemma JulianDecides(t: Ymd)
    requires IsValid(t)
    ensures SumsFit(t) <==> Fits(JulianDays(t))
    ensures Fits(JulianDays(t)) ==> -5890000 <= MarchYearOf(t) <= 5890000
  {
    ValidInMarchYear(t);
    var y, days := MarchYearOf(t), t.day + MonthStart(MarchMonthOf(t));
    FloorDivPositive(y, 4);
    FloorDivPositive(y, 100);
    FloorDivPositive(y, 400);
    assert 1 <= days <= 366;
    Quarters(y);
  }

  lemma Quarters(y: int)
    ensures 4 * (y / 4) <= y < 4 * (y / 4) + 4 && 100 * (y / 100) <= y < 100 * (y / 100) + 100
    ensures 400 * (y / 400) <= y < 400 * (y / 400) + 400
  {
  }

  /** Valid dates are in the same order by these days as by the calendar. */
  lemma JulianOrder(s: Ymd, t: Ymd)
    requires IsValid(s) && IsValid(t) && Before(s, t)
    ensures JulianDays(s) < JulianDays(t)
  {
    var y, k := InMarchYear(s);
    var y', k' := InMarchYear(t);
    BeforeIsMarchBefore(s, t);
    JulianMarchOrder(y, k, s.day, y', k', t.day);
  }

  lemma JulianMarchOrder(y: int, k: int, d: int, y': int, k': int, d': int)
    requires 0 <= k <= 11 && MonthStart(k) + d - 1 < MonthStart(k + 1) && MonthStart(k) + d - 1 < YearStart(y + 1) - YearStart(y)
    requires 0 <= k' <= 11 && d' >= 1 && MarchBefore(y, k, d, y', k', d')
    ensures 365 * y + y / 4 + MonthStart(k) + d < 365 * y' + y' / 4 + MonthStart(k') + d'
  {
    if y < y' {
      JulianYear(y);
      QuarterMono(y + 1, y');
    } else if k < k' {
      MonthMono(k + 1, k');
    }
  }

  lemma JulianYear(y: int)
    ensures YearStart(y + 1) - YearStart(y) <= 365 + (y + 1) / 4 - y / 4
  {
    StepDiv(y, 4);
    StepDiv(y, 100);
    StepDiv(y, 400);
    FourHundredth(y + 1);
  }

  lemma FourHundredth(y: int)
    ensures y % 400 == 0 ==> y % 100 == 0
  {
  }

  lemma QuarterMono(y: int, z: int)
    requires y <= z
    ensures y / 4 <= z / 4
  {
  }

  /** Nothing overflows on the way from a valid date to its day exactly between these two dates. */
  lemma DateFitsExactly(t: Ymd)
    requires IsValid(t)
    ensures SumsFit(t) <==> DateFits(t)
  {
    JulianDecides(t);
    EndsFit();
    if Before(t, FIRST_DATE) { JulianOrder(t, FIRST_DATE); }
    if Before(FIRST_DATE, t) { JulianOrder(FIRST_DATE, t); }
    if Before(LAST_DATE, t) { JulianOrder(LAST_DATE, t); }
    if Before(t, LAST_DATE) { JulianOrder(t, LAST_DATE); }
  }

  lemma EndsFit()
    ensures IsValid(FIRST_DATE) && JulianDays(FIRST_DATE) == -0x8000_0000
    ensures IsValid(LAST_DATE) && JulianDays(LAST_DATE) == 0x7fff_ffff
  {
  }

  /** The middle of YmdToJd's sum, in the order it is added up. */
  function AddYears32(days: int32, y: int32): (r: int32)
    requires 0 <= days <= 400 && -5890000 <= y <= 5890000 && Fits(days as int + 365 * y as int + y as int / 4)
    ensures r as int == days as int + 365 * y as int + FloorDiv(y as int, 4) - FloorDiv(y as int, 100) + FloorDiv(y as int, 400)
    ensures -0x8000_0000 + 32045 <= r as int
  {
    DivForms32(0, y as int);
    Quarters(y as int);
    days + 365 * y + FloorDiv32(y, 4) - FloorDiv32(y, 100) + FloorDiv32(y, 400)
  }

  lemma PartsFit(t: Ymd)
    requires IsValid(t) && DateFits(t)
    ensures 1 <= t.month <= 12 && 1 <= t.day <= 31 && 1 <= t.day + MonthStart(MarchMonthOf(t)) <= 366
    ensures -5890000 <= MarchYearOf(t) <= 5890000 && -5900000 <= t.year <= 5900000 && 0 <= MarchMonthOf(t) <= 11
    ensures Fits(t.day + MonthStart(MarchMonthOf(t)) + 365 * MarchYearOf(t) + MarchYearOf(t) / 4)
  {
    ValidMonth(t);
    ValidInMarchYear(t);
    DateFitsExactly(t);
    JulianDecides(t);
  }

  function YmdToJd32(year: int32, month: int32, day: int32): (jd: int32)
    requires IsValid(Ymd(year as int, month as int, day as int)) && DateFits(Ymd(year as int, month as int, day as int))
    ensures jd as int == YmdToJd(Ymd(year as int, month as int, day as int))
  {
    ghost var t := Ymd(year as int, month as int, day as int);
    PartsFit(t);
    var (y, m) := MarchParts32(year, month, day);
    YmdToJdSum(t);
    AddYears32(DaysBefore32(day, m), y) - 32045
  }

  lemma YmdToJdSum(t: Ymd)
    requires 1 <= t.month <= 12
    ensures var y := MarchYearOf(t);
            YmdToJd(t) == t.day + MonthStart(MarchMonthOf(t)) + 365 * y + FloorDiv(y, 4) - FloorDiv(y, 100) + FloorDiv(y, 400) - 32045
  {
    YmdToJdParts(t);
    YearStartForm(MarchYearOf(t));
  }

  /** The March year and the month in it. */
  function MarchParts32(year: int32, month: int32, ghost day: int32): (r: (int32, int32))
    requires 1 <= month <= 12 && -5900000 <= year <= 5900000
    ensures var t := Ymd(year as int, month as int, day as int); r.0 as int == MarchYearOf(t) && r.1 as int == MarchMonthOf(t)
  {
    var t_year := if year < 0 then year + 1 else year;
    var a := FloorDiv32(14 - month, 12);
    FloorDivPositive(14 - month as int, 12);
    (t_year + 4800 - a, month + 12 * a - 3)
  }

  function DaysBefore32(day: int32, m: int32): (r: int32)
    requires 1 <= day <= 31 && 0 <= m <= 11
    ensures r as int == day as int + MonthStart(m as int)
  {
    DivForms32(m as int, 0);
    day + FloorDiv32(153 * m + 2, 5)
  }

  const FIRST_DAY := -536866432
  const LAST_DAY := 536838867

  /** Everything that JdToYmd computes up to the division by the length of four centuries, the rounding of
      the division included, fits 32 bits. */
  predicate CenturiesFit(jd: int) {
    var a := jd + 32044;
    var n := 4 * a + 3;
    Fits(a) && Fits(4 * a) && Fits(n) && Fits(n - (if n < 0 then 146096 else 0))
  }

  /** That is so exactly between these two days, and then the rest fits as well. */
  lemma DayFitsExactly(jd: int)
    ensures CenturiesFit(jd) <==> FIRST_DAY <= jd <= LAST_DAY
  {
  }

  function JdToYmd32(jd: int32): (t: Ymd)
    requires CenturiesFit(jd as int)
    ensures t == JdToYmd(jd as int)
  {
    var a := jd + 32044;
    CenturyFits(a as int);
    var b := FloorDiv32(4 * a + 3, 146097);
    var c := a - FloorDiv32(146097 * b, 4);
    var d := FloorDiv32(4 * c + 3, 1461);
    var e := c - FloorDiv32(1461 * d, 4);
    var m := FloorDiv32(5 * e + 2, 153);
    var day := e - FloorDiv32(153 * m + 2, 5) + 1;
    var month := m + 3 - 12 * FloorDiv32(m, 10);
    var year := 100 * b + d - 4800 + FloorDiv32(m, 10);
    JdToYmdSteps(jd as int, b as int, c as int, d as int, e as int, m as int);
    Ymd((if year <= 0 then year - 1 else year) as int, month as int, day as int)
  }

  lemma JdToYmdSteps(jd: int, b: int, c: int, d: int, e: int, m: int)
    requires b == FloorDiv(4 * (jd + 32044) + 3, 146097) && c == jd + 32044 - FloorDiv(146097 * b, 4)
    requires d == FloorDiv(4 * c + 3, 1461) && e == c - FloorDiv(1461 * d, 4) && m == FloorDiv(5 * e + 2, 153)
    ensures var year := 100 * b + d - 4800 + FloorDiv(m, 10);
            JdToYmd(jd) == Ymd(if year <= 0 then year - 1 else year, m + 3 - 12 * FloorDiv(m, 10), e - FloorDiv(153 * m + 2, 5) + 1)
  {
  }

  lemma CenturyFits(a: int)
    requires FIRST_DAY + 32044 <= a <= LAST_DAY + 32044
    ensures var b := FloorDiv(4 * a + 3, 146097); var c := a - FloorDiv(146097 * b, 4);
            var d := FloorDiv(4 * c + 3, 1461); var e := c - FloorDiv(1461 * d, 4);
            && -14700 <= b <= 14700 && -0x7fff_ffff <= 146097 * b - 3 && 146097 * b <= 0x7fff_ffff
            && 0 <= c <= 36524 && 0 <= d <= 99 && 0 <= e <= 365
  {
    FloorDivPositive(4 * a + 3, 146097);
    FloorDivPositive(146097 * CenturyOf(a), 4);
    CenturyBounds(a);
    FloorDivPositive(4 * InCentury(a) + 3, 1461);
    FloorDivPositive(1461 * ((4 * InCentury(a) + 3) / 1461), 4);
    YearBounds(a);
  }

  lemma ValidMonth(t: Ymd)
    requires IsValid(t)
    ensures 1 <= t.month <= 12 && 1 <= t.day <= 31
  {
  }

  class Date {
    var m_jd: int32

    constructor ()
      ensures IsInvalid()
    {
      m_jd := DATE_JD_INVALID;
    }

    predicate IsInvalid()
      reads this
    {
      m_jd == DATE_JD_INVALID
    }

    method Set(year: int32, month: int32, day: int32)
      requires IsValid(Ymd(year as int, month as int, day as int)) ==> DateFits(Ymd(year as int, month as int, day as int))
      modifies this
      ensures var t := Ymd(year as int, month as int, day as int);
              if IsValid(t) then !IsInvalid() && JdToYmd(m_jd as int) == t && m_jd as int == YmdToJd(t) else IsInvalid()
    {
      if IsValid(Ymd(year as int, month as int, day as int)) {
        m_jd := YmdToJd32(year, month, day);
        JdOfYmd(Ymd(year as int, month as int, day as int));
        NotMarker(Ymd(year as int, month as int, day as int));
      } else {
        m_jd := DATE_JD_INVALID;
      }
    }

    method Get() returns (t: Ymd)
      requires IsInvalid() || CenturiesFit(m_jd as int)
      ensures if IsInvalid() then t == Ymd(0, 0, 0) else IsValid(t) && YmdToJd(t) == m_jd as int
    {
      if m_jd == DATE_JD_INVALID { return Ymd(0, 0, 0); }
      t := JdToYmd32(m_jd);
      YmdOfJd(m_jd as int);
    }
  }

  /** No date that can be stored has the day that marks an invalid date. */
  lemma NotMarker(t: Ymd)
    requires IsValid(t) && DateFits(t)
    ensures YmdToJd(t) > -0x8000_0000
  {
    DateFitsExactly(t);
    JulianDecides(t);
    ValidInMarchYear(t);
    YmdToJdIsMarch(t);
    Quarters(MarchYearOf(t));
  }

  const FIRST_READABLE := Ymd(-1474604, 7, 13)
  const LAST_READABLE := Ymd(1465102, 10, 18)

  /** A stored date can be read back without overflow exactly between these two dates: about a quarter of
      the dates that can be stored. */
  lemma ReadableExactly(t: Ymd)
    requires IsValid(t)
    ensures CenturiesFit(YmdToJd(t)) <==> !Before(t, FIRST_READABLE) && !Before(LAST_READABLE, t)
    ensures CenturiesFit(YmdToJd(t)) ==> DateFits(t)
  {
    DayFitsExactly(YmdToJd(t));
    ReadableEnds();
    OrderIsOrder(t, FIRST_READABLE);
    OrderIsOrder(LAST_READABLE, t);
  }

  lemma ReadableEnds()
    ensures IsValid(FIRST_READABLE) && YmdToJd(FIRST_READABLE) == FIRST_DAY
    ensures IsValid(LAST_READABLE) && YmdToJd(LAST_READABLE) == LAST_DAY
  {
    YmdToJdParts(FIRST_READABLE);
    YmdToJdParts(LAST_READABLE);
  }

  /** The day that Unix time starts from has the number the source uses for it. */
  lemma UnixDay()
    ensures IsValid(Ymd(1970, 1, 1)) && YmdToJd(Ymd(1970, 1, 1)) == 2440588
  {
    assert YearStart(6769) == 2472326 && MonthStart(10) == 306;
    YmdToJdParts(Ymd(1970, 1, 1));
  }
}

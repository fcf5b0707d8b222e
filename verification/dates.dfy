/** Proleptic Gregorian calendar arithmetic on whole days, standing in for the
    date-fns helpers the calendar view calls (`startOfMonth`, `endOfMonth`,
    `startOfWeek`, `endOfWeek`, `addDays`, `isWeekend`, `format`). A day is
    identified by its ordinal: the number of days since 0000-01-01. */
module Dates {
  import opened Text

  /** A calendar day: `getFullYear()`, `getMonth() + 1` and `getDate()` of a
      JavaScript Date at local midnight. */
  datatype Date = Date(year: nat, month: nat, day: nat)

  predicate IsLeapYear(y: nat) { y % 4 == 0 && (y % 100 != 0 || y % 400 == 0) }

  function DaysInYear(y: nat): nat { if IsLeapYear(y) then 366 else 365 }

  function DaysInMonth(y: nat, m: nat): (n: nat)
    requires 1 <= m <= 12
    ensures 28 <= n <= 31
  {
    if m == 2 then (if IsLeapYear(y) then 29 else 28)
    else if m == 4 || m == 6 || m == 9 || m == 11 then 30
    else 31
  }

  predicate ValidDate(d: Date)
  {
    1 <= d.month <= 12 && 1 <= d.day <= DaysInMonth(d.year, d.month)
  }

  /** Days from 0000-01-01 to the first of January of year `y`. */
  function DaysBeforeYear(y: nat): nat
  {
    if y == 0 then 0 else DaysBeforeYear(y - 1) + DaysInYear(y - 1)
  }

  /** Leap years in [0, y): multiples of 4, less multiples of 100, plus
      multiples of 400. */
  function LeapYearsBefore(y: nat): int
  {
    (y + 3) / 4 - (y + 99) / 100 + (y + 399) / 400
  }

  lemma CeilStep4(x: nat)
    ensures (x + 4) / 4 == (x + 3) / 4 + (if x % 4 == 0 then 1 else 0)
  {
    var q := x / 4;
    assert x == 4 * q + x % 4;
  }

  lemma CeilStep100(x: nat)
    ensures (x + 100) / 100 == (x + 99) / 100 + (if x % 100 == 0 then 1 else 0)
  {
    var q := x / 100;
    assert x == 100 * q + x % 100;
  }

  lemma CeilStep400(x: nat)
    ensures (x + 400) / 400 == (x + 399) / 400 + (if x % 400 == 0 then 1 else 0)
  {
    var q := x / 400;
    assert x == 400 * q + x % 400;
  }

  lemma CenturyDivisibility(x: nat)
    ensures x % 100 == 0 ==> x % 4 == 0
    ensures x % 400 == 0 ==> x % 100 == 0
  {
    var a, b := x / 100, x / 400;
    assert x == 100 * a + x % 100;
    assert x == 400 * b + x % 400;
    assert x % 100 == 0 ==> x == 4 * (25 * a) + 0;
    assert x % 400 == 0 ==> x == 100 * (4 * b) + 0;
  }

  /** Moving past year `x` adds one to the count exactly when `x` is a leap year. */
  lemma LeapYearsStep(x: nat)
    ensures LeapYearsBefore(x + 1) == LeapYearsBefore(x) + (if IsLeapYear(x) then 1 else 0)
  {
    CeilStep4(x);
    CeilStep100(x);
    CeilStep400(x);
    CenturyDivisibility(x);
  }

  /** The count in closed form: 365 per year plus one per leap year in [0, y). */
  lemma {:induction false} DaysBeforeYearClosedForm(y: nat)
    ensures DaysBeforeYear(y) == 365 * y + LeapYearsBefore(y)
  {
    if y > 0 {
      DaysBeforeYearClosedForm(y - 1);
      LeapYearsStep(y - 1);
    }
  }

  /** Days from the first of January of year `y` to the first of month `m`. */
  function DaysBeforeMonth(y: nat, m: nat): nat
    requires 1 <= m <= 12
  {
    if m == 1 then 0 else DaysBeforeMonth(y, m - 1) + DaysInMonth(y, m - 1)
  }

  /** December of year `y` ends the year: the next day is the first of year `y + 1`. */
  lemma DaysBeforeDecember(y: nat)
    ensures DaysBeforeMonth(y, 12) + 31 == DaysInYear(y)
    ensures DaysBeforeYear(y + 1) == DaysBeforeYear(y) + DaysInYear(y)
  {
    var leap := if IsLeapYear(y) then 1 else 0;
    assert DaysBeforeMonth(y, 2) == 31;
    assert DaysBeforeMonth(y, 3) == 59 + leap;
    assert DaysBeforeMonth(y, 4) == 90 + leap;
    assert DaysBeforeMonth(y, 5) == 120 + leap;
    assert DaysBeforeMonth(y, 6) == 151 + leap;
    assert DaysBeforeMonth(y, 7) == 181 + leap;
    assert DaysBeforeMonth(y, 8) == 212 + leap;
    assert DaysBeforeMonth(y, 9) == 243 + leap;
    assert DaysBeforeMonth(y, 10) == 273 + leap;
    assert DaysBeforeMonth(y, 11) == 304 + leap;
    assert DaysBeforeMonth(y, 12) == 334 + leap;
  }

  /** The ordinal of a day: days since 0000-01-01. */
  function Ordinal(d: Date): nat
    requires ValidDate(d)
  {
    DaysBeforeYear(d.year) + DaysBeforeMonth(d.year, d.month) + d.day - 1
  }

  /** Day of the week of an ordinal, as JavaScript's `getDay()`: 0 is Sunday,
      6 is Saturday. Day 0 (0000-01-01) was a Saturday. */
  function Weekday(n: nat): (w: nat)
    ensures w < 7
  {
    (n + 6) % 7
  }

  /** Ordinal of the first day of month index `k`, where month index
      12 * year + month - 1 counts months from January of year 0. */
  function MonthFirst(k: nat): nat
  {
    DaysBeforeYear(k / 12) + DaysBeforeMonth(k / 12, k % 12 + 1)
  }

  function MonthLength(k: nat): (n: nat)
    ensures 28 <= n <= 31
  {
    DaysInMonth(k / 12, k % 12 + 1)
  }

  function MonthIndex(d: Date): nat
    requires ValidDate(d)
  {
    12 * d.year + d.month - 1
  }

  lemma MonthFirstStep(k: nat)
    ensures MonthFirst(k + 1) == MonthFirst(k) + MonthLength(k)
  {
    if k % 12 == 11 {
      assert (k + 1) / 12 == k / 12 + 1 && (k + 1) % 12 == 0;
      DaysBeforeDecember(k / 12);
    } else {
      assert (k + 1) / 12 == k / 12 && (k + 1) % 12 == k % 12 + 1;
    }
  }

  /** Months do not overlap: every later month starts after month `j` ends. */
  lemma {:induction false} MonthFirstMonotone(j: nat, k: nat)
    requires j < k
    ensures MonthFirst(j) + MonthLength(j) <= MonthFirst(k)
    decreases k - j
  {
    MonthFirstStep(j);
    if j + 1 < k {
      MonthFirstMonotone(j + 1, k);
    }
  }

  lemma OrdinalByMonth(d: Date)
    requires ValidDate(d)
    ensures Ordinal(d) == MonthFirst(MonthIndex(d)) + d.day - 1
    ensures MonthLength(MonthIndex(d)) == DaysInMonth(d.year, d.month)
  {
    var k := MonthIndex(d);
    assert k / 12 == d.year && k % 12 == d.month - 1;
  }

  /** A day lies in month index `k` exactly when its ordinal lies in that
      month's range of ordinals. */
  lemma OrdinalWithinMonth(d: Date, k: nat)
    requires ValidDate(d)
    ensures MonthFirst(k) <= Ordinal(d) < MonthFirst(k) + MonthLength(k) <==> MonthIndex(d) == k
  {
    OrdinalByMonth(d);
    var kd := MonthIndex(d);
    if kd < k {
      MonthFirstMonotone(kd, k);
    } else if k < kd {
      MonthFirstMonotone(k, kd);
    }
  }

  lemma MonthIndexInjective(a: Date, b: Date)
    requires ValidDate(a) && ValidDate(b) && MonthIndex(a) == MonthIndex(b)
    ensures a.year == b.year && a.month == b.month
  {
  }

  /** Distinct valid days have distinct ordinals. */
  lemma OrdinalInjective(a: Date, b: Date)
    requires ValidDate(a) && ValidDate(b)
    ensures Ordinal(a) == Ordinal(b) <==> a == b
  {
    if Ordinal(a) == Ordinal(b) {
      var k := MonthIndex(a);
      OrdinalByMonth(a);
      OrdinalWithinMonth(b, k);
      OrdinalByMonth(b);
      assert MonthIndex(b) == k;
      MonthIndexInjective(a, b);
    }
  }

  /** The day after `d`, as `addDays(d, 1)`. */
  function NextDay(d: Date): (r: Date)
    requires ValidDate(d)
    ensures ValidDate(r) && Ordinal(r) == Ordinal(d) + 1
  {
    if d.day < DaysInMonth(d.year, d.month) then Date(d.year, d.month, d.day + 1)
    else if d.month < 12 then
      assert DaysBeforeMonth(d.year, d.month + 1) == DaysBeforeMonth(d.year, d.month) + d.day;
      Date(d.year, d.month + 1, 1)
    else
      DaysBeforeDecember(d.year);
      assert d.month == 12 && d.day == 31 && DaysBeforeMonth(d.year + 1, 1) == 0;
      Date(d.year + 1, 1, 1)
  }

  /** The day before `d`; 0000-01-01 has none in this model. */
  function PrevDay(d: Date): (r: Date)
    requires ValidDate(d) && Ordinal(d) > 0
    ensures ValidDate(r) && Ordinal(r) + 1 == Ordinal(d)
  {
    if d.day > 1 then Date(d.year, d.month, d.day - 1)
    else if d.month > 1 then
      Date(d.year, d.month - 1, DaysInMonth(d.year, d.month - 1))
    else
      DaysBeforeDecember(d.year - 1);
      Date(d.year - 1, 12, 31)
  }

  /** `addDays(d, k)` for k >= 0. */
  function AddDays(d: Date, k: nat): (r: Date)
    requires ValidDate(d)
    ensures ValidDate(r) && Ordinal(r) == Ordinal(d) + k
    decreases k
  {
    if k == 0 then d else AddDays(NextDay(d), k - 1)
  }

  /** `subDays(d, k)`, defined while the result stays in year 0 or later. */
  function SubDays(d: Date, k: nat): (r: Date)
    requires ValidDate(d) && k <= Ordinal(d)
    ensures ValidDate(r) && Ordinal(r) + k == Ordinal(d)
    decreases k
  {
    if k == 0 then d else SubDays(PrevDay(d), k - 1)
  }

  lemma {:induction false} DaysBeforeYearMonotone(a: nat, b: nat)
    requires a <= b
    ensures DaysBeforeYear(a) <= DaysBeforeYear(b)
    decreases b - a
  {
    if a < b {
      DaysBeforeYearMonotone(a, b - 1);
    }
  }

  /** Every day from year 1 on has an ordinal of at least 366. */
  lemma OrdinalFromYearOne(d: Date)
    requires ValidDate(d) && d.year >= 1
    ensures Ordinal(d) >= 366
  {
    assert DaysBeforeYear(1) == 366;
    DaysBeforeYearMonotone(1, d.year);
  }

  lemma WeekdayBack(r: nat, n: nat)
    requires r + Weekday(n) == n
    ensures Weekday(r) == 0
  {
    var q := (n + 6) / 7;
    assert n + 6 == 7 * q + Weekday(n);
    assert r + 6 == 7 * q;
  }

  lemma WeekdayForward(n: nat, r: nat)
    requires r == n + 6 - Weekday(n)
    ensures Weekday(r) == 6
  {
    var q := (n + 6) / 7;
    assert n + 6 == 7 * q + Weekday(n);
    assert r + 6 == 7 * q + 6;
  }

  /** `startOfWeek(d)` with weeks starting on Sunday: the Sunday on or before `d`. */
  function StartOfWeek(d: Date): (r: Date)
    requires ValidDate(d) && d.year >= 1
    ensures ValidDate(r) && Weekday(Ordinal(r)) == 0
    ensures Ordinal(r) <= Ordinal(d) < Ordinal(r) + 7
  {
    OrdinalFromYearOne(d);
    var r := SubDays(d, Weekday(Ordinal(d)));
    WeekdayBack(Ordinal(r), Ordinal(d));
    r
  }

  /** `endOfWeek(d)` with weeks ending on Saturday: the Saturday on or after `d`. */
  function EndOfWeek(d: Date): (r: Date)
    requires ValidDate(d)
    ensures ValidDate(r) && Weekday(Ordinal(r)) == 6
    ensures Ordinal(d) <= Ordinal(r) < Ordinal(d) + 7
  {
    var r := AddDays(d, 6 - Weekday(Ordinal(d)));
    WeekdayForward(Ordinal(d), Ordinal(r));
    r
  }

  /** date-fns `isWeekend`: Saturday or Sunday. */
  predicate IsWeekend(d: Date)
    requires ValidDate(d)
    ensures IsWeekend(d) <==> Ordinal(d) % 7 <= 1
  {
    WeekdayOfRemainder(Ordinal(d));
    Weekday(Ordinal(d)) == 0 || Weekday(Ordinal(d)) == 6
  }

  /** Day 0 is a Saturday: ordinals 0 and 1 modulo 7 are Saturdays and
      Sundays. */
  lemma WeekdayOfRemainder(n: nat)
    ensures Weekday(n) == 6 <==> n % 7 == 0
    ensures Weekday(n) == 0 <==> n % 7 == 1
  {
    var q := n / 7;
    assert n + 6 == 7 * q + (n % 7 + 6);
  }

  /** `format(d, 'ddMMyyyy')`: the key reminders are stored under. Within
      four-digit years it is eight digits. */
  function KeyOf(d: Date): (k: string)
    ensures AllDigits(k)
    ensures ValidDate(d) && d.year < 10000 ==> |k| == 8
  {
    var k := Padded(d.day, 2) + Padded(d.month, 2) + Padded(d.year, 4);
    if ValidDate(d) && d.year < 10000 then
      PaddedWidth(d.day, 2);
      PaddedWidth(d.month, 2);
      PaddedWidth(d.year, 4);
      k
    else k
  }

  /** `format(d, 'yyyy-MM-dd')`: the value of a date input field. Splitting
      it on '-' gives the year, month and day back. */
  function IsoDate(d: Date): (r: string)
    ensures Split(r, '-') == [Padded(d.year, 4), Padded(d.month, 2), Padded(d.day, 2)]
  {
    var year, month, day := Padded(d.year, 4), Padded(d.month, 2), Padded(d.day, 2);
    DigitsHaveNoDash(year);
    DigitsHaveNoDash(month);
    DigitsHaveNoDash(day);
    SplitWithoutSeparator(day, '-');
    SplitAfterPiece(month, '-', day);
    SplitAfterPiece(year, '-', month + "-" + day);
    assert year + "-" + month + "-" + day == year + ['-'] + (month + ['-'] + day);
    year + "-" + month + "-" + day
  }

  /** Two valid days have the same key exactly when they are the same day. */
  lemma KeyOfInjective(a: Date, b: Date)
    requires ValidDate(a) && ValidDate(b)
    ensures KeyOf(a) == KeyOf(b) <==> a == b
  {
    if KeyOf(a) == KeyOf(b) {
      PaddedWidth(a.day, 2);
      PaddedWidth(b.day, 2);
      PaddedWidth(a.month, 2);
      PaddedWidth(b.month, 2);
      var ka, kb := KeyOf(a), KeyOf(b);
      assert ka[..2] == Padded(a.day, 2) && kb[..2] == Padded(b.day, 2);
      assert ka[2..4] == Padded(a.month, 2) && kb[2..4] == Padded(b.month, 2);
      assert ka[4..] == Padded(a.year, 4) && kb[4..] == Padded(b.year, 4);
      PaddedInjective(a.day, b.day, 2);
      PaddedInjective(a.month, b.month, 2);
      PaddedInjective(a.year, b.year, 4);
    }
  }

  /** A fixed day as a check on the calendar arithmetic: 26 March 2021 was a Friday. */
  lemma March26Of2021IsAFriday()
    ensures Weekday(Ordinal(Date(2021, 3, 26))) == 5
  {
    DaysBeforeYearClosedForm(2021);
    assert LeapYearsBefore(2021) == 491;
    assert Ordinal(Date(2021, 3, 26)) == 738240;
  }
}

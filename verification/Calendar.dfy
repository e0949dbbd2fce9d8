/**
 Day numbers of proleptic Gregorian dates, in the four forms the repository computes them:
 with flooring division (clients/python/clockchain_public/coordinate.py), with truncating division
 (clients/typescript/src/coordinate.ts and crates/cc-authoring/src/lib.rs) and in closed form for
 1 January (ops/corpus_audit.py).
 */
module Calendar {
  datatype Date = Date(year: int, month: int, day: int)

  /** Division that truncates towards zero. */
  function TruncDiv(a: int, b: int): int
    requires b > 0
  {
    if a >= 0 then a / b else -((-a) / b)
  }

  function TruncRem(a: int, b: int): int
    requires b > 0
  {
    a - b * TruncDiv(a, b)
  }

  predicate Leap(year: int) { year % 4 == 0 && (year % 100 != 0 || year % 400 == 0) }

  predicate TruncLeap(year: int) {
    TruncRem(year, 4) == 0 && (TruncRem(year, 100) != 0 || TruncRem(year, 400) == 0)
  }

  function LastDay(month: int, leap: bool): int
    requires 1 <= month <= 12
  {
    [31, if leap then 29 else 28, 31, 30, 31, 30, 31, 31, 30, 31, 30, 31][month - 1]
  }

  predicate Valid(d: Date) { 1 <= d.month <= 12 && 1 <= d.day <= LastDay(d.month, Leap(d.year)) }

  // ----- The four forms -----

  function FloorDays(d: Date): int {
    var y := if d.month <= 2 then d.year - 1 else d.year;
    var era := y / 400;
    var yoe := y - era * 400;
    var mp := (d.month + 9) % 12;
    var doy := (153 * mp + 2) / 5 + d.day - 1;
    era * 146097 + (yoe * 365 + yoe / 4 - yoe / 100 + doy) - 719468
  }

  function TruncDays(d: Date): int {
    var y := if d.month <= 2 then d.year - 1 else d.year;
    var era := TruncDiv(if y >= 0 then y else y - 399, 400);
    var yoe := y - era * 400;
    var mp := TruncRem(d.month + 9, 12);
    var doy := TruncDiv(153 * mp + 2, 5) + d.day - 1;
    era * 146097 + (yoe * 365 + TruncDiv(yoe, 4) - TruncDiv(yoe, 100) + doy) - 719468
  }

  /** `year_tick`, whose month and day are always 1. */
  function YearTickDays(year: int): int {
    var y := year - 1;
    var era := TruncDiv(if y >= 0 then y else y - 399, 400);
    var yoe := y - era * 400;
    var doy := TruncDiv(153 * TruncRem(1 + 9, 12) + 2, 5) + 1 - 1;
    era * 146097 + (yoe * 365 + TruncDiv(yoe, 4) - TruncDiv(yoe, 100) + doy) - 719468
  }

  /** `year_coord`. */
  function YearCoordDays(year: int): int {
    var y := year - 1;
    var era, yoe := y / 400, y % 400;
    era * 146097 + yoe * 365 + yoe / 4 - yoe / 100 + 306 - 719468
  }

  // ----- They agree -----

  lemma TruncEra(y: int)
    ensures TruncDiv(if y >= 0 then y else y - 399, 400) == y / 400
  {
  }

  /** Flooring and truncating forms agree on every month from 1 to 12, every year and day. */
  lemma FloorIsTrunc(d: Date)
    requires 1 <= d.month <= 12
    ensures FloorDays(d) == TruncDays(d)
  {
    TruncEra(if d.month <= 2 then d.year - 1 else d.year);
  }

  lemma Rem4(a: int)
    ensures TruncRem(a, 4) == 0 <==> a % 4 == 0
  {
    if a < 0 {
      var q, r := (-a) / 4, (-a) % 4;
      assert -a == 4 * q + r;
      if r == 0 {
        assert a == 4 * (-q);
      } else {
        assert a == 4 * (-q - 1) + (4 - r);
      }
    }
  }

  lemma Rem100(a: int)
    ensures TruncRem(a, 100) == 0 <==> a % 100 == 0
  {
    if a < 0 {
      var q, r := (-a) / 100, (-a) % 100;
      assert -a == 100 * q + r;
      if r == 0 {
        assert a == 100 * (-q);
      } else {
        assert a == 100 * (-q - 1) + (100 - r);
      }
    }
  }

  lemma Rem400(a: int)
    ensures TruncRem(a, 400) == 0 <==> a % 400 == 0
  {
    if a < 0 {
      var q, r := (-a) / 400, (-a) % 400;
      assert -a == 400 * q + r;
      if r == 0 {
        assert a == 400 * (-q);
      } else {
        assert a == 400 * (-q - 1) + (400 - r);
      }
    }
  }

  lemma LeapAgrees(year: int)
    ensures Leap(year) <==> TruncLeap(year)
  {
    hide TruncRem;
    Rem4(year);
    Rem100(year);
    Rem400(year);
  }

  /** Both forms for 1 January are the general one. */
  lemma NewYearForms(year: int)
    ensures YearTickDays(year) == YearCoordDays(year) == FloorDays(Date(year, 1, 1)) == TruncDays(Date(year, 1, 1))
  {
    FloorIsTrunc(Date(year, 1, 1));
  }

  // ----- They are the calendar -----

  function NextDay(d: Date): Date
    requires Valid(d)
  {
    if d.day < LastDay(d.month, Leap(d.year)) then d.(day := d.day + 1)
    else if d.month < 12 then Date(d.year, d.month + 1, 1)
    else Date(d.year + 1, 1, 1)
  }

  function PreviousDay(d: Date): (p: Date)
    requires Valid(d)
    ensures Valid(p) && NextDay(p) == d
  {
    if d.day > 1 then d.(day := d.day - 1)
    else if d.month > 1 then Date(d.year, d.month - 1, LastDay(d.month - 1, Leap(d.year)))
    else Date(d.year - 1, 12, 31)
  }

  /** Days from 1 March of year 0 to 1 March of year `y`. */
  function MarchDays(y: int): int {
    var yoe := y % 400;
    y / 400 * 146097 + yoe * 365 + yoe / 4 - yoe / 100
  }

  lemma EraMod4(era: int, yoe: int)
    ensures (400 * era + yoe) % 4 == yoe % 4
  {
    var q, r := yoe / 4, yoe % 4;
    assert 400 * era + yoe == 4 * (100 * era + q) + r;
  }

  lemma EraMod100(era: int, yoe: int)
    ensures (400 * era + yoe) % 100 == yoe % 100
  {
    var q, r := yoe / 100, yoe % 100;
    assert 400 * era + yoe == 100 * (4 * era + q) + r;
  }

  lemma LeapInEra(y: int, yoe: int)
    requires y % 400 == yoe
    ensures Leap(y) <==> Leap(yoe)
  {
    assert y == 400 * (y / 400) + yoe;
    EraMod4(y / 400, yoe);
    EraMod100(y / 400, yoe);
  }

  lemma Carry(n: nat, b: int)
    requires b == 4 || b == 100
    ensures (n + 1) / b == n / b + if (n + 1) % b == 0 then 1 else 0
  {
  }

  lemma YearOfEra(yoe: int)
    requires 0 <= yoe < 399
    ensures (yoe + 1) / 4 - (yoe + 1) / 100 == yoe / 4 - yoe / 100 + if Leap(yoe + 1) then 1 else 0
  {
    Carry(yoe, 4);
    Carry(yoe, 100);
  }

  /** A year that starts in March ends with the leap day, if any, of the next year's February. */
  lemma MarchYear(y: int)
    ensures MarchDays(y + 1) == MarchDays(y) + if Leap(y + 1) then 366 else 365
  {
    var era, yoe := y / 400, y % 400;
    assert y == 400 * era + yoe;
    if yoe == 399 {
      assert y + 1 == 400 * (era + 1);
      assert (y + 1) / 400 == era + 1 && (y + 1) % 400 == 0;
    } else {
      assert (y + 1) / 400 == era && (y + 1) % 400 == yoe + 1;
      LeapInEra(y + 1, yoe + 1);
      YearOfEra(yoe);
    }
  }

  /** Days from 1 March to the first of a month. */
  function MonthDays(month: int): int { (153 * ((month + 9) % 12) + 2) / 5 }

  function MarchOf(d: Date): int { if d.month <= 2 then d.year - 1 else d.year }

  lemma FloorIsMarch(d: Date)
    requires 1 <= d.month <= 12
    ensures FloorDays(d) == MarchDays(MarchOf(d)) + MonthDays(d.month) + d.day - 1 - 719468
  {
  }

  /** Month lengths, February's by way of the year that ends with it. */
  lemma MonthLengths(month: int, leap: bool)
    requires 1 <= month <= 12
    ensures month != 2 ==> MonthDays(if month < 12 then month + 1 else 1) == MonthDays(month) + LastDay(month, leap)
    ensures month == 2 ==> MonthDays(2) + LastDay(2, leap) == (if leap then 366 else 365) && MonthDays(3) == 0
  {
    assert MonthDays(1) == 306 && MonthDays(2) == 337 && MonthDays(3) == 0 && MonthDays(4) == 31;
    assert MonthDays(5) == 61 && MonthDays(6) == 92 && MonthDays(7) == 122 && MonthDays(8) == 153;
    assert MonthDays(9) == 184 && MonthDays(10) == 214 && MonthDays(11) == 245 && MonthDays(12) == 275;
    hide MonthDays;
  }

  lemma MonthEnds(year: int, month: int)
    requires 1 <= month <= 12
    ensures var first := if month < 12 then Date(year, month + 1, 1) else Date(year + 1, 1, 1);
            FloorDays(first) == FloorDays(Date(year, month, LastDay(month, Leap(year)))) + 1
  {
    hide FloorDays, MarchDays, MonthDays, LastDay, Leap;
    var first := if month < 12 then Date(year, month + 1, 1) else Date(year + 1, 1, 1);
    FloorIsMarch(first);
    FloorIsMarch(Date(year, month, LastDay(month, Leap(year))));
    MonthLengths(month, Leap(year));
    MarchYear(year - 1);
  }

  lemma NextIsValid(d: Date)
    requires Valid(d)
    ensures Valid(NextDay(d))
  {
  }

  lemma ShiftDay(d: Date, day: int)
    ensures FloorDays(d.(day := day)) == FloorDays(d) + day - d.day
  {
  }

  /** Consecutive dates have consecutive numbers, in every year. */
  lemma ConsecutiveDays(d: Date)
    requires Valid(d)
    ensures Valid(NextDay(d)) && FloorDays(NextDay(d)) == FloorDays(d) + 1
  {
    hide FloorDays;
    NextIsValid(d);
    hide LastDay, Leap;
    if d.day < LastDay(d.month, Leap(d.year)) {
      ShiftDay(d, d.day + 1);
    } else {
      MonthEnds(d.year, d.month);
      assert d == Date(d.year, d.month, LastDay(d.month, Leap(d.year)));
    }
  }

  lemma EpochIsZero()
    ensures FloorDays(Date(1970, 1, 1)) == 0
  {
  }

  predicate Before(a: Date, b: Date) {
    a.year < b.year || (a.year == b.year && (a.month < b.month || (a.month == b.month && a.day < b.day)))
  }

  lemma FirstOfNextMonth(d: Date)
    requires Valid(d)
    ensures var first := if d.month < 12 then Date(d.year, d.month + 1, 1) else Date(d.year + 1, 1, 1);
            Valid(first) && FloorDays(first) == FloorDays(d) + LastDay(d.month, Leap(d.year)) - d.day + 1
  {
    var last := d.(day := LastDay(d.month, Leap(d.year)));
    ShiftDay(d, last.day);
    hide FloorDays;
    ConsecutiveDays(last);
  }

  /** Day numbers are in date order. */
  lemma {:induction false} NumbersFollowDates(a: Date, b: Date)
    requires Valid(a) && Valid(b) && Before(a, b)
    ensures FloorDays(a) < FloorDays(b)
    decreases 12 * b.year + b.month - 12 * a.year - a.month
  {
    if a.year < b.year || a.month < b.month {
      hide FloorDays, Leap, LastDay;
      FirstOfNextMonth(a);
      var first := if a.month < 12 then Date(a.year, a.month + 1, 1) else Date(a.year + 1, 1, 1);
      if first != b {
        NumbersFollowDates(first, b);
      }
    }
  }

  lemma OrderIff(a: Date, b: Date)
    requires Valid(a) && Valid(b)
    ensures Before(a, b) <==> FloorDays(a) < FloorDays(b)
    ensures a == b <==> FloorDays(a) == FloorDays(b)
  {
    if Before(a, b) {
      NumbersFollowDates(a, b);
    } else if Before(b, a) {
      NumbersFollowDates(b, a);
    }
  }

  /** Every whole number is the number of one date. */
  lemma {:induction false} EveryDayHasOneDate(n: int) returns (d: Date)
    ensures Valid(d) && FloorDays(d) == n
    ensures forall e :: Valid(e) && FloorDays(e) == n ==> e == d
    decreases if n < 0 then -n else n
  {
    hide FloorDays;
    if n == 0 {
      d := Date(1970, 1, 1);
      EpochIsZero();
    } else if n > 0 {
      var p := EveryDayHasOneDate(n - 1);
      ConsecutiveDays(p);
      d := NextDay(p);
    } else {
      var p := EveryDayHasOneDate(n + 1);
      d := PreviousDay(p);
      ConsecutiveDays(d);
    }
    forall e | Valid(e) && FloorDays(e) == n
      ensures e == d
    {
      OrderIff(e, d);
    }
  }
}

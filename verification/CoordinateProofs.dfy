/** The two clients agree, coordinates lose nothing, and their text order is time order. */
module CoordinateProofs {
  import opened Bytes
  import opened Digits
  import opened Calendar
  import opened Coordinate

  // ----- The three ways to write 64 digits -----

  lemma {:induction false} NibblesOfWrite(n: nat, width: nat)
    ensures Nibbles(Write(Octets, n, width)) == Write(Hex, n, 2 * width)
  {
    if width > 0 {
      var bytes := Write(Octets, n, width);
      NibblesOfWrite(n / 256, width - 1);
      assert bytes[..width - 1] == Write(Octets, n / 256, width - 1);
      var w := 2 * width;
      assert n / 16 / 16 == n / 256 && (n / 16) % 16 == (n % 256) / 16 && n % 16 == (n % 256) % 16;
      assert Write(Hex, n, w) == Write(Hex, n / 16, w - 1) + [n % 16];
      assert Write(Hex, n / 16, w - 1) == Write(Hex, n / 256, w - 2) + [(n / 16) % 16];
    }
  }

  lemma {:induction false} PairedValue(digits: seq<nat>)
    requires AllDigits(Hex, digits) && |digits| % 2 == 0
    ensures Value(Octets, Paired(digits)) == Value(Hex, digits)
  {
    if digits != [] {
      var n := |digits| - 2;
      PairedValue(digits[..n]);
      var bytes := Paired(digits);
      assert bytes[..|bytes| - 1] == Paired(digits[..n]);
      assert digits[..n + 1][..n] == digits[..n];
      assert Value(Hex, digits[..n + 1]) == 16 * Value(Hex, digits[..n]) + digits[n];
    }
  }

  lemma {:induction false} LeadingZero(n: nat, width: nat)
    requires n < Span(Hex, width)
    ensures Write(Hex, n, width + 1) == [0] + Write(Hex, n, width)
  {
    if width > 0 {
      LeadingZero(n / 16, width - 1);
      assert Write(Hex, n, width + 1) == Write(Hex, n / 16, width) + [n % 16];
      assert Write(Hex, n, width) == Write(Hex, n / 16, width - 1) + [n % 16];
    } else {
      assert Write(Hex, 0, 0) == [];
    }
  }

  lemma {:induction false} PrintedIsWrite(n: nat, width: nat)
    requires 0 < width && n < Span(Hex, width)
    ensures |Printed(n)| <= width && n < Span(Hex, |Printed(n)|) && Printed(n) == Write(Hex, n, |Printed(n)|)
  {
    if n < 16 {
      assert Span(Hex, 1) == 16 * Span(Hex, 0);
      assert Write(Hex, n, 1) == Write(Hex, n / 16, 0) + [n % 16];
    } else {
      assert width > 1;
      PrintedIsWrite(n / 16, width - 1);
    }
  }

  lemma {:induction false} PaddedIsWrite(n: nat, have: nat, width: nat)
    requires have <= width && n < Span(Hex, have)
    ensures PadStart(Write(Hex, n, have), width) == Write(Hex, n, width)
    decreases width - have
  {
    if have < width {
      LeadingZero(n, have);
      assert Span(Hex, have + 1) == 16 * Span(Hex, have);
      PaddedIsWrite(n, have + 1, width);
    }
  }

  /** The text of a tick in range: 64 digits of its offset value. */
  lemma PythonText(raw: int)
    requires -HALF <= raw < HALF
    ensures CoordinateFromTicks(raw) == Ok(HexText(Write(Hex, raw + HALF, 64)))
  {
    hide Write, Nibbles;
    NibblesOfWrite(Offset(raw), 32);
  }

  /** The clients write the same text for every integer, and refuse the same. */
  lemma ClientsWriteAlike(raw: int)
    ensures CoordinateFromTicks(raw) == TsCoordinateFromTicks(raw)
  {
    if -HALF <= raw < HALF {
      hide Write, Nibbles, Printed, PadStart, Span;
      PythonText(raw);
      Hex64();
      var n := Offset(raw);
      PrintedIsWrite(n, 64);
      PaddedIsWrite(n, |Printed(n)|, 64);
    }
  }

  lemma UnsignedIsValue(s: string)
    requires |s| == 64 && IsHexText(s)
    ensures Unsigned(s) == Value(Hex, DigitsOf(s))
  {
    hide Value, Paired;
    PairedValue(DigitsOf(s));
  }

  /** The clients read every string alike. */
  lemma ClientsReadAlike(s: string)
    ensures TicksFromCoordinate(s) == TsTicksFromCoordinate(s)
  {
    hide Value, Unsigned;
    if |s| == 64 && IsHexText(s) {
      UnsignedIsValue(s);
    }
  }

  /** The clients give every date, possible or not, the same answer. */
  lemma ClientsDateAlike(d: Date)
    ensures CoordinateFromDate(d) == TsCoordinateFromDate(d)
  {
    hide CoordinateFromTicks, TsCoordinateFromTicks, FloorDays, TruncDays, Leap, TruncLeap;
    LeapAgrees(d.year);
    if 1 <= d.month <= 12 {
      FloorIsTrunc(d);
      ClientsWriteAlike((FloorDays(d) * SECONDS_PER_DAY - J2000_UNIX) * U64);
    }
  }

  // ----- Nothing is lost -----

  lemma HexChar(d: nat)
    requires d < 16
    ensures HEX[d] as int == if d < 10 then 48 + d else 87 + d
  {
  }

  lemma HexDistinct(d: nat, e: nat)
    requires d < 16 && e < 16
    ensures HEX[d] == HEX[e] ==> d == e
    ensures HEX[d] < HEX[e] <==> d < e
  {
    HexChar(d);
    HexChar(e);
  }

  lemma DigitsOfText(digits: seq<nat>)
    requires AllDigits(Hex, digits)
    ensures IsHexText(HexText(digits)) && DigitsOf(HexText(digits)) == digits
  {
    var s := HexText(digits);
    forall i | 0 <= i < |digits|
      ensures s[i] in HEX && DigitOf(s[i]) == digits[i]
    {
      assert s[i] == HEX[digits[i]];
      HexDistinct(DigitOf(s[i]), digits[i]);
    }
  }

  lemma TextOfDigits(s: string)
    requires IsHexText(s)
    ensures HexText(DigitsOf(s)) == s
  {
  }

  lemma OnlyInRange(raw: int)
    ensures CoordinateFromTicks(raw).Ok? <==> -HALF <= raw < HALF
  {
  }

  /** Writing and reading are inverse to each other, over all integers and all strings. */
  lemma CoordinateIff(raw: int, s: string)
    ensures CoordinateFromTicks(raw) == Ok(s) <==> TicksFromCoordinate(s) == Ok(raw)
  {
    hide Write, Value, Span, CoordinateFromTicks, Unsigned, HexText, DigitsOf;
    assert CoordinateFromTicks(raw).Ok? ==> -HALF <= raw < HALF by { OnlyInRange(raw); }
    Hex64();
    if CoordinateFromTicks(raw) == Ok(s) {
      PythonText(raw);
      DigitsOfText(Write(Hex, raw + HALF, 64));
      UnsignedIsValue(s);
      ValueOfWrite(Hex, raw + HALF, 64);
    }
    if TicksFromCoordinate(s) == Ok(raw) {
      UnsignedIsValue(s);
      PythonText(raw);
      WriteOfValue(Hex, DigitsOf(s));
      TextOfDigits(s);
    }
  }

  // ----- Order -----

  ghost function Codes(s: string): (codes: seq<nat>)
    ensures |codes| == |s| && forall i :: 0 <= i < |s| ==> codes[i] == s[i] as int
  {
    seq(|s|, i requires 0 <= i < |s| => s[i] as int)
  }

  lemma SamePrefix(a: seq<nat>, b: seq<nat>, c: seq<nat>, d: seq<nat>, k: nat)
    requires |a| == |b| == |c| == |d| && k <= |a| && a[..k] == b[..k]
    requires forall i :: 0 <= i < |a| ==> a[i] == b[i] ==> c[i] == d[i]
    ensures c[..k] == d[..k]
  {
    forall i | 0 <= i < k
      ensures c[i] == d[i]
    {
      assert a[..k][i] == b[..k][i];
    }
  }

  /** Hexadecimal text sorts as its digits do. */
  lemma TextSortsAsDigits(a: seq<nat>, b: seq<nat>)
    requires |a| == |b| && AllDigits(Hex, a) && AllDigits(Hex, b)
    ensures LexLess(Codes(HexText(a)), Codes(HexText(b))) <==> LexLess(a, b)
  {
    var s, t := Codes(HexText(a)), Codes(HexText(b));
    forall i | 0 <= i < |a|
      ensures (s[i] == t[i] <==> a[i] == b[i]) && (s[i] < t[i] <==> a[i] < b[i])
    {
      HexDistinct(a[i], b[i]);
    }
    hide HexText;
    if LexLess(s, t) {
      var k :| 0 <= k < |s| && s[..k] == t[..k] && s[k] < t[k];
      SamePrefix(s, t, a, b, k);
    }
    if LexLess(a, b) {
      var k :| 0 <= k < |a| && a[..k] == b[..k] && a[k] < b[k];
      SamePrefix(a, b, s, t, k);
    }
  }

  /** Text order is time order. */
  lemma OrderIsTime(a: int, b: int, s: string, t: string)
    requires CoordinateFromTicks(a) == Ok(s) && CoordinateFromTicks(b) == Ok(t)
    ensures |s| == |t| == 64 && (LexLess(Codes(s), Codes(t)) <==> a < b)
  {
    hide Write, Value, Span, CoordinateFromTicks, HexText, LexLess, Codes;
    OnlyInRange(a);
    OnlyInRange(b);
    PythonText(a);
    PythonText(b);
    Hex64();
    var p, q := Write(Hex, a + HALF, 64), Write(Hex, b + HALF, 64);
    ValueOfWrite(Hex, a + HALF, 64);
    ValueOfWrite(Hex, b + HALF, 64);
    LexIsNumeric(Hex, p, q);
    TextSortsAsDigits(p, q);
  }

  // ----- Seconds and dates -----

  /** Whole seconds survive, and any coordinate floors to the second it lies in. */
  lemma SecondsFloor(s: string, seconds: int)
    ensures CoordinateFromSeconds(seconds) == Ok(s) ==> SecondsFromCoordinate(s) == Ok(seconds)
    ensures SecondsFromCoordinate(s) == Ok(seconds)
       <==> TicksFromCoordinate(s).Ok?
            && seconds * U64 <= TicksFromCoordinate(s).value < (seconds + 1) * U64
  {
    hide CoordinateFromTicks, TicksFromCoordinate;
    CoordinateIff(seconds * U64, s);
  }

  lemma DaysInRange(d: Date)
    requires Valid(d) && -9999 <= d.year <= 9999
    ensures -HALF <= (FloorDays(d) * SECONDS_PER_DAY - J2000_UNIX) * U64 < HALF
  {
  }

  /** A date has a coordinate if and only if it exists and its year has at most four digits. */
  lemma DateIff(d: Date)
    ensures CoordinateFromDate(d).Ok? <==> Valid(d) && -9999 <= d.year <= 9999
  {
    hide FloorDays, CoordinateFromTicks, Leap, LastDay;
    if Valid(d) && -9999 <= d.year <= 9999 {
      DaysInRange(d);
      OnlyInRange((FloorDays(d) * SECONDS_PER_DAY - J2000_UNIX) * U64);
    }
  }

  /** The coordinates of two dates sort as the dates do, and only equal dates share one. */
  lemma DateOrder(d: Date, e: Date, s: string, t: string)
    requires CoordinateFromDate(d) == Ok(s) && CoordinateFromDate(e) == Ok(t)
    ensures |s| == |t| && (Before(d, e) <==> LexLess(Codes(s), Codes(t))) && (d == e <==> s == t)
  {
    hide FloorDays, CoordinateFromTicks, Leap, LastDay, LexLess, Codes;
    DateIff(d);
    DateIff(e);
    OrderIff(d, e);
    var a := (FloorDays(d) * SECONDS_PER_DAY - J2000_UNIX) * U64;
    var b := (FloorDays(e) * SECONDS_PER_DAY - J2000_UNIX) * U64;
    assert a < b <==> FloorDays(d) < FloorDays(e);
    assert a == b <==> FloorDays(d) == FloorDays(e);
    OrderIsTime(a, b, s, t);
    CoordinateIff(a, s);
    CoordinateIff(b, t);
  }

  /** Where a date stands: midnight, in units of 2^-64 seconds from noon of 2000-01-01. */
  lemma DateIsMidnight(d: Date, s: string)
    requires CoordinateFromDate(d) == Ok(s)
    ensures TicksFromCoordinate(s) == Ok((FloorDays(d) * 86_400 - 946_728_000) * 0x1_0000_0000_0000_0000)
    ensures SecondsFromCoordinate(s) == Ok(FloorDays(d) * 86_400 - 946_728_000)
  {
    hide FloorDays, CoordinateFromTicks, TicksFromCoordinate;
    var seconds := FloorDays(d) * 86_400 - 946_728_000;
    CoordinateIff(seconds * 0x1_0000_0000_0000_0000, s);
    SecondsFloor(s, seconds);
  }

  lemma KnownDays()
    ensures FloorDays(Date(2000, 1, 1)) == 10_957 && FloorDays(Date(0, 1, 1)) == -719_528
    ensures Valid(Date(2000, 1, 1)) && Valid(Date(0, 1, 1))
  {
  }

  /** Two dates by their seconds: half a day before the origin, and 1 January of 1 BCE. */
  lemma KnownDates() returns (s: string, t: string)
    ensures CoordinateFromDate(Date(2000, 1, 1)) == Ok(s) && SecondsFromCoordinate(s) == Ok(-43_200)
    ensures CoordinateFromDate(Date(0, 1, 1)) == Ok(t) && SecondsFromCoordinate(t) == Ok(-63_113_947_200)
  {
    hide CoordinateFromDate, SecondsFromCoordinate, FloorDays, Valid;
    KnownDays();
    DateIff(Date(2000, 1, 1));
    DateIff(Date(0, 1, 1));
    s, t := CoordinateFromDate(Date(2000, 1, 1)).value, CoordinateFromDate(Date(0, 1, 1)).value;
    DateIsMidnight(Date(2000, 1, 1), s);
    DateIsMidnight(Date(0, 1, 1), t);
  }

  /** What a coordinate's text is: 64 digits that write the tick plus 2^255. */
  lemma CoordinateWrites(raw: int, s: string)
    requires CoordinateFromTicks(raw) == Ok(s)
    ensures |s| == 64 && IsHexText(s)
    ensures Value(Hex, DigitsOf(s))
         == raw + 0x8000_0000_0000_0000_0000_0000_0000_0000_0000_0000_0000_0000_0000_0000_0000_0000
  {
    hide CoordinateFromTicks, Value, DigitsOf, Unsigned;
    CoordinateIff(raw, s);
    UnsignedIsValue(s);
  }

  /** The auditor's closed form is the number that 1 January's coordinate writes. */
  lemma YearCoordIsCoordinate(year: int, s: string)
    requires CoordinateFromSeconds(FloorDays(Date(year, 1, 1)) * SECONDS_PER_DAY - J2000_UNIX) == Ok(s)
    ensures |s| == 64 && IsHexText(s) && Value(Hex, DigitsOf(s)) == YearCoord(year)
  {
    hide FloorDays, CoordinateFromTicks, YearCoordDays, Value, DigitsOf, Unsigned;
    NewYearForms(year);
    CoordinateIff((FloorDays(Date(year, 1, 1)) * SECONDS_PER_DAY - J2000_UNIX) * U64, s);
    UnsignedIsValue(s);
  }
}

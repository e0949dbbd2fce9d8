/**
 Time coordinates: whole seconds since J2000.0 with 64 fractional bits, as a signed 256-bit tick in
 offset binary, written as 64 lower-case hexadecimal digits. The Python client
 (clients/python/clockchain_public/coordinate.py) goes through 32 bytes; the TypeScript client
 (clients/typescript/src/coordinate.ts) prints the number and pads it.
 */
module Coordinate {
  import opened Bytes
  import opened Digits
  import opened Calendar

  const HALF: int := 0x8000_0000_0000_0000_0000_0000_0000_0000_0000_0000_0000_0000_0000_0000_0000_0000
  const FULL: int := 0x1_0000_0000_0000_0000_0000_0000_0000_0000_0000_0000_0000_0000_0000_0000_0000_0000
  const J2000_UNIX := 946_728_000
  const SECONDS_PER_DAY := 86_400

  datatype CoordinateError = TickRange | NotHex | YearRange | MonthRange | NoSuchDay

  // ----- Text -----

  const HEX := "0123456789abcdef"

  function HexText(digits: seq<nat>): (s: string)
    requires AllDigits(Hex, digits)
    ensures |s| == |digits| && forall i :: 0 <= i < |s| ==> s[i] == HEX[digits[i]]
  {
    seq(|digits|, i requires 0 <= i < |digits| => HEX[digits[i]])
  }

  predicate IsHexText(s: string) { forall i :: 0 <= i < |s| ==> s[i] in HEX }

  function DigitOf(c: char): (d: nat)
    requires c in HEX
    ensures d < 16 && HEX[d] == c
  {
    if '0' <= c <= '9' then c as int - '0' as int else c as int - 'a' as int + 10
  }

  function DigitsOf(s: string): (digits: seq<nat>)
    requires IsHexText(s)
    ensures |digits| == |s| && AllDigits(Hex, digits) && forall i :: 0 <= i < |s| ==> digits[i] == DigitOf(s[i])
  {
    seq(|s|, i requires 0 <= i < |s| => DigitOf(s[i]))
  }

  /** Each byte as two hexadecimal digits, and back. */
  function Nibbles(bytes: seq<nat>): (digits: seq<nat>)
    requires AllDigits(Octets, bytes)
    ensures |digits| == 2 * |bytes| && AllDigits(Hex, digits)
  {
    if bytes == [] then []
    else
      var last := bytes[|bytes| - 1];
      Nibbles(bytes[..|bytes| - 1]) + [last / 16, last % 16]
  }

  function Paired(digits: seq<nat>): (bytes: seq<nat>)
    requires AllDigits(Hex, digits) && |digits| % 2 == 0
    ensures |bytes| * 2 == |digits| && AllDigits(Octets, bytes)
  {
    if digits == [] then []
    else
      var n := |digits| - 2;
      Paired(digits[..n]) + [16 * digits[n] + digits[n + 1]]
  }

  /** A number in hexadecimal without leading zeros; zero is one digit. */
  function Printed(n: nat): (digits: seq<nat>)
    ensures |digits| > 0 && AllDigits(Hex, digits)
  {
    if n < 16 then [n] else Printed(n / 16) + [n % 16]
  }

  function PadStart(digits: seq<nat>, width: nat): (padded: seq<nat>)
    requires AllDigits(Hex, digits)
    ensures AllDigits(Hex, padded)
    decreases width - |digits|
  {
    if |digits| >= width then digits else PadStart([0] + digits, width)
  }

  // ----- Offset binary -----

  function FlipTop(n: nat): nat
    requires n < FULL
  {
    if n < HALF then n + HALF else n - HALF
  }

  /** A tick in range as an unsigned number whose order is the tick's: two's complement with the
      top bit flipped. */
  function Offset(raw: int): (n: nat)
    requires -HALF <= raw < HALF
    ensures n == raw + HALF < FULL
  {
    FlipTop(raw % FULL)
  }

  function Signed(n: nat): (raw: int)
    requires n < FULL
    ensures raw == n - HALF
  {
    var v := FlipTop(n);
    if v >= HALF then v - FULL else v
  }

  // ----- 32 bytes and 64 hexadecimal digits span the same numbers -----

  lemma Word(width: nat)
    ensures Span(Hex, width + 8) == 0x1_0000_0000 * Span(Hex, width)
    ensures Span(Octets, width + 4) == 0x1_0000_0000 * Span(Octets, width)
  {
    assert Span(Hex, width + 2) == 0x100 * Span(Hex, width);
    assert Span(Hex, width + 4) == 0x100 * Span(Hex, width + 2);
    assert Span(Hex, width + 6) == 0x100 * Span(Hex, width + 4);
    assert Span(Octets, width + 2) == 0x1_0000 * Span(Octets, width);
  }

  lemma FourWords(hex: nat, octets: nat)
    ensures Span(Hex, hex + 32) == 0x1_0000_0000_0000_0000_0000_0000_0000_0000 * Span(Hex, hex)
    ensures Span(Octets, octets + 16) == 0x1_0000_0000_0000_0000_0000_0000_0000_0000 * Span(Octets, octets)
  {
    hide Span;
    Word(hex);
    Word(hex + 8);
    Word(hex + 16);
    Word(hex + 24);
    Word(octets);
    Word(octets + 4);
    Word(octets + 8);
    Word(octets + 12);
  }

  lemma SpanZero()
    ensures Span(Hex, 0) == 1 && Span(Octets, 0) == 1
  {
  }

  lemma Octets32()
    ensures Span(Octets, 32) == FULL
  {
    hide Span;
    FourWords(0, 0);
    FourWords(0, 16);
    SpanZero();
  }

  lemma Hex64()
    ensures Span(Hex, 64) == FULL
  {
    hide Span;
    FourWords(0, 0);
    FourWords(32, 0);
    SpanZero();
  }

  // ----- Python -----

  function CoordinateFromTicks(raw: int): Result<string, CoordinateError> {
    if !(-HALF <= raw < HALF) then Err(TickRange)
    else Ok(HexText(Nibbles(Write(Octets, Offset(raw), 32))))
  }

  function Unsigned(s: string): (n: nat)
    requires |s| == 64 && IsHexText(s)
    ensures n < FULL
  {
    var bytes := Paired(DigitsOf(s));
    WriteOfValue(Octets, bytes);
    Octets32();
    Value(Octets, bytes)
  }

  function TicksFromCoordinate(s: string): Result<int, CoordinateError> {
    if |s| != 64 || !IsHexText(s) then Err(NotHex)
    else Ok(Signed(Unsigned(s)))
  }

  function CoordinateFromSeconds(seconds: int): Result<string, CoordinateError> {
    CoordinateFromTicks(seconds * U64)
  }

  function SecondsFromCoordinate(s: string): Result<int, CoordinateError> {
    var ticks :- TicksFromCoordinate(s);
    Ok(ticks / U64)
  }

  function CoordinateFromDate(d: Date): Result<string, CoordinateError> {
    if !(-9999 <= d.year <= 9999) then Err(YearRange)
    else if !(1 <= d.month <= 12) then Err(MonthRange)
    else if !(1 <= d.day <= LastDay(d.month, Leap(d.year))) then Err(NoSuchDay)
    else CoordinateFromSeconds(FloorDays(d) * SECONDS_PER_DAY - J2000_UNIX)
  }

  // ----- TypeScript -----

  function TsCoordinateFromTicks(raw: int): Result<string, CoordinateError> {
    if raw < -HALF || raw > HALF - 1 then Err(TickRange)
    else Ok(HexText(PadStart(Printed(Offset(raw)), 64)))
  }

  function TsTicksFromCoordinate(s: string): Result<int, CoordinateError> {
    if |s| != 64 || !IsHexText(s) then Err(NotHex)
    else
      WriteOfValue(Hex, DigitsOf(s));
      Hex64();
      Ok(Signed(Value(Hex, DigitsOf(s))))
  }

  function TsCoordinateFromDate(d: Date): Result<string, CoordinateError> {
    if d.year < -9999 || d.year > 9999 then Err(YearRange)
    else if d.month < 1 || d.month > 12 then Err(MonthRange)
    else if d.day < 1 || d.day > LastDay(d.month, TruncLeap(d.year)) then Err(NoSuchDay)
    else TsCoordinateFromTicks((TruncDays(d) * SECONDS_PER_DAY - J2000_UNIX) * U64)
  }

  /** `year_coord`: the number that the coordinate's digits write. */
  function YearCoord(year: int): int { (YearCoordDays(year) * SECONDS_PER_DAY - J2000_UNIX) * U64 + HALF }
}

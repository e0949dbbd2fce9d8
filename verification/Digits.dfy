/** Fixed-width positional notation, most significant digit first, and its order. */
module Digits {
  datatype Radix = Hex | Octets {
    function Base(): nat { if Hex? then 16 else 256 }
    function Times(x: nat): nat { if Hex? then 16 * x else 256 * x }
    function Over(n: nat): nat { if Hex? then n / 16 else n / 256 }
    function Rem(n: nat): nat { if Hex? then n % 16 else n % 256 }
  }

  /** How many numbers `width` digits can write. */
  function Span(radix: Radix, width: nat): nat {
    if width == 0 then 1 else radix.Times(Span(radix, width - 1))
  }

  ghost predicate AllDigits(radix: Radix, digits: seq<nat>) {
    forall i :: 0 <= i < |digits| ==> digits[i] < radix.Base()
  }

  /** The number that `digits` write. */
  function Value(radix: Radix, digits: seq<nat>): nat {
    if digits == [] then 0
    else radix.Times(Value(radix, digits[..|digits| - 1])) + digits[|digits| - 1]
  }

  /** The last `width` digits of `n`. */
  function Write(radix: Radix, n: nat, width: nat): (digits: seq<nat>)
    ensures |digits| == width && AllDigits(radix, digits)
  {
    if width == 0 then [] else Write(radix, radix.Over(n), width - 1) + [radix.Rem(n)]
  }

  /** Writing a number that fits and reading it back gives the number. */
  lemma {:induction false} ValueOfWrite(radix: Radix, n: nat, width: nat)
    requires n < Span(radix, width)
    ensures Value(radix, Write(radix, n, width)) == n
  {
    if width > 0 {
      ValueOfWrite(radix, radix.Over(n), width - 1);
      var d := Write(radix, n, width);
      assert d[..width - 1] == Write(radix, radix.Over(n), width - 1);
    }
  }

  /** Reading digits and writing the number back gives the digits. */
  lemma {:induction false} WriteOfValue(radix: Radix, digits: seq<nat>)
    requires AllDigits(radix, digits)
    ensures Value(radix, digits) < Span(radix, |digits|)
    ensures Write(radix, Value(radix, digits), |digits|) == digits
  {
    if digits != [] {
      var k := |digits| - 1;
      WriteOfValue(radix, digits[..k]);
      assert digits == digits[..k] + [digits[k]];
    }
  }

  /** `a` sorts before `b` at the first place where they differ, as byte strings compare. */
  ghost predicate LexLess(a: seq<nat>, b: seq<nat>)
    requires |a| == |b|
  {
    exists k :: 0 <= k < |a| && a[..k] == b[..k] && a[k] < b[k]
  }

  lemma LexLastDigit(a: seq<nat>, b: seq<nat>)
    requires |a| == |b| > 0
    ensures var n := |a| - 1;
            LexLess(a, b) <==> LexLess(a[..n], b[..n]) || (a[..n] == b[..n] && a[n] < b[n])
  {
    var n := |a| - 1;
    var p, q := a[..n], b[..n];
    if LexLess(a, b) {
      var k :| 0 <= k < |a| && a[..k] == b[..k] && a[k] < b[k];
      if k < n {
        assert p[..k] == a[..k] && q[..k] == b[..k];
      }
    }
    if LexLess(p, q) {
      var k :| 0 <= k < n && p[..k] == q[..k] && p[k] < q[k];
      assert a[..k] == p[..k] && b[..k] == q[..k];
    }
  }

  lemma LastDigitDecides(radix: Radix, x: nat, c: nat, y: nat, d: nat)
    requires c < radix.Base() && d < radix.Base()
    ensures radix.Times(x) + c < radix.Times(y) + d <==> x < y || (x == y && c < d)
    ensures radix.Times(x) + c == radix.Times(y) + d <==> x == y && c == d
  {
  }

  /** Strings of one width sort as the numbers they write. */
  lemma {:induction false} LexIsNumeric(radix: Radix, a: seq<nat>, b: seq<nat>)
    requires |a| == |b| && AllDigits(radix, a) && AllDigits(radix, b)
    ensures LexLess(a, b) <==> Value(radix, a) < Value(radix, b)
    ensures Value(radix, a) == Value(radix, b) <==> a == b
  {
    if a != [] {
      hide LexLess, Radix.Times;
      var n := |a| - 1;
      LexIsNumeric(radix, a[..n], b[..n]);
      LexLastDigit(a, b);
      LastDigitDecides(radix, Value(radix, a[..n]), a[n], Value(radix, b[..n]), b[n]);
      assert a == a[..n] + [a[n]] && b == b[..n] + [b[n]];
    }
  }
}

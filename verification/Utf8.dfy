/** Which byte strings are the UTF-8 encoding of some text (section 4 of RFC 3629). */
module Utf8 {
  import opened Bytes

  predicate Tail(x: byte) { 0x80 <= x <= 0xBF }

  predicate SecondOfThree(x: byte, y: byte) {
    (x == 0xE0 && 0xA0 <= y <= 0xBF) || (0xE1 <= x <= 0xEC && Tail(y))
    || (x == 0xED && 0x80 <= y <= 0x9F) || (0xEE <= x <= 0xEF && Tail(y))
  }

  predicate SecondOfFour(x: byte, y: byte) {
    (x == 0xF0 && 0x90 <= y <= 0xBF) || (0xF1 <= x <= 0xF3 && Tail(y)) || (x == 0xF4 && 0x80 <= y <= 0x8F)
  }

  /** The length of the character at the front of `b`, or 0 if none is encoded there. */
  function CharLength(b: Bytes): (n: nat)
    ensures n <= |b|
  {
    if |b| == 0 then 0
    else if b[0] <= 0x7F then 1
    else if |b| < 2 then 0
    else if 0xC2 <= b[0] <= 0xDF && Tail(b[1]) then 2
    else if |b| < 3 then 0
    else if SecondOfThree(b[0], b[1]) && Tail(b[2]) then 3
    else if |b| < 4 then 0
    else if SecondOfFour(b[0], b[1]) && Tail(b[2]) && Tail(b[3]) then 4
    else 0
  }

  predicate IsUtf8(b: Bytes)
    decreases |b|
  {
    |b| == 0 || (CharLength(b) > 0 && IsUtf8(b[CharLength(b)..]))
  }

  /** A Rust `String`. */
  type Text = b: Bytes | IsUtf8(b) witness []

  // ----- Text is a sequence of scalar values -----

  /** A Unicode scalar value: a code point that is not a surrogate. */
  ghost predicate Scalar(c: nat) { c < 0xD800 || 0xE000 <= c < 0x11_0000 }

  ghost function EncodeChar(c: nat): Bytes
    requires Scalar(c)
  {
    if c < 0x80 then [c]
    else if c < 0x800 then [0xC0 + c / 0x40, 0x80 + c % 0x40]
    else if c < 0x1_0000 then [0xE0 + c / 0x1000, 0x80 + c / 0x40 % 0x40, 0x80 + c % 0x40]
    else [0xF0 + c / 0x4_0000, 0x80 + c / 0x1000 % 0x40, 0x80 + c / 0x40 % 0x40, 0x80 + c % 0x40]
  }

  ghost predicate Scalars(chars: seq<nat>) { forall i :: 0 <= i < |chars| ==> Scalar(chars[i]) }

  ghost function EncodeChars(chars: seq<nat>): Bytes
    requires Scalars(chars)
  {
    if chars == [] then [] else EncodeChar(chars[0]) + EncodeChars(chars[1..])
  }

  lemma CharIsRead(c: nat, rest: Bytes)
    requires Scalar(c)
    ensures CharLength(EncodeChar(c) + rest) == |EncodeChar(c)|
  {
  }

  /** Six bits at a time. */
  lemma Places(c: nat, a: nat, x: nat, y: nat, z: nat)
    requires c == ((a * 0x40 + x) * 0x40 + y) * 0x40 + z && x < 0x40 && y < 0x40 && z < 0x40
    ensures c / 0x4_0000 == a && c / 0x1000 % 0x40 == x && c / 0x40 % 0x40 == y && c % 0x40 == z
    ensures c / 0x1000 == a * 0x40 + x && c / 0x40 == (a * 0x40 + x) * 0x40 + y
  {
    assert c / 0x40 == (a * 0x40 + x) * 0x40 + y && c % 0x40 == z;
    assert c / 0x1000 == c / 0x40 / 0x40 == a * 0x40 + x;
    assert c / 0x4_0000 == c / 0x1000 / 0x40 == a;
  }

  lemma ReadIsChar(b: Bytes) returns (c: nat)
    requires CharLength(b) > 0
    ensures Scalar(c) && b[..CharLength(b)] == EncodeChar(c)
  {
    var n := CharLength(b);
    var w: nat := b[0];
    if n == 1 {
      c := w;
    } else if n == 2 {
      var z: nat := b[1];
      c := (w - 0xC0) * 0x40 + (z - 0x80);
      Places(c, 0, 0, w - 0xC0, z - 0x80);
    } else if n == 3 {
      var y: nat, z: nat := b[1], b[2];
      c := ((w - 0xE0) * 0x40 + (y - 0x80)) * 0x40 + (z - 0x80);
      Places(c, 0, w - 0xE0, y - 0x80, z - 0x80);
    } else {
      var x: nat, y: nat, z: nat := b[1], b[2], b[3];
      c := (((w - 0xF0) * 0x40 + (x - 0x80)) * 0x40 + (y - 0x80)) * 0x40 + (z - 0x80);
      Places(c, w - 0xF0, x - 0x80, y - 0x80, z - 0x80);
    }
  }

  lemma EncodeCharNotEmpty(c: nat)
    requires Scalar(c)
    ensures |EncodeChar(c)| > 0
  {
  }

  lemma {:induction false} EncodedIsUtf8(chars: seq<nat>)
    requires Scalars(chars)
    ensures IsUtf8(EncodeChars(chars))
  {
    if chars != [] {
      hide CharLength, EncodeChar;
      var x, rest := EncodeChar(chars[0]), EncodeChars(chars[1..]);
      CharIsRead(chars[0], rest);
      assert |x| > 0 by { CharIsRead(chars[0], []); EncodeCharNotEmpty(chars[0]); }
      assert (x + rest)[|x|..] == rest;
      EncodedIsUtf8(chars[1..]);
    }
  }

  lemma {:induction false} Utf8IsEncoded(b: Bytes) returns (chars: seq<nat>)
    requires IsUtf8(b)
    ensures Scalars(chars) && b == EncodeChars(chars)
    decreases |b|
  {
    hide CharLength, EncodeChar;
    if |b| == 0 {
      chars := [];
    } else {
      var n := CharLength(b);
      var c := ReadIsChar(b);
      var more := Utf8IsEncoded(b[n..]);
      chars := [c] + more;
      assert chars[1..] == more && b == b[..n] + b[n..];
    }
  }

  /** The byte tables accept exactly the encodings of sequences of scalar values. */
  lemma Utf8Iff(b: Bytes)
    ensures IsUtf8(b) <==> exists chars :: Scalars(chars) && b == EncodeChars(chars)
  {
    hide IsUtf8, EncodeChars;
    if IsUtf8(b) {
      var chars := Utf8IsEncoded(b);
    }
    forall chars | Scalars(chars) && b == EncodeChars(chars)
      ensures IsUtf8(b)
    {
      EncodedIsUtf8(chars);
    }
  }
}

/** The little-endian base-128 integers of crates/cc-anchor/src/ots.rs. */
module Varint {
  import opened Bytes
  import opened Tree

  datatype OtsError = Malformed | UnsupportedOp(tag: byte) | WrongDigest

  /** The value is accumulated by `|=` on disjoint bits, which is addition. A chunk shifted past
      bit 63 loses its high bits; a shift of 64 or more is refused. */
  function VaruintFrom(b: Bytes, value: nat, shift: nat): Result<(nat, Bytes), OtsError>
    decreases |b|
  {
    if |b| == 0 || shift >= 64 then Err(Malformed)
    else
      var next := value + (b[0] % 128 * Pow2(shift)) % U64;
      if b[0] < 128 then Ok((next, b[1..])) else VaruintFrom(b[1..], next, shift + 7)
  }

  function Varuint(b: Bytes): Result<(nat, Bytes), OtsError> { VaruintFrom(b, 0, 0) }

  /** The bytes `write_varuint` pushes. */
  function Minimal(n: nat): (bytes: Bytes)
    ensures |bytes| > 0
  {
    if n < 128 then [n] else [n % 128 + 128] + Minimal(n / 128)
  }

  method WriteVaruint(out: Bytes, value: nat) returns (r: Bytes)
    requires value < U64
    ensures r == out + Minimal(value)
  {
    var n := value;
    r := out;
    while true
      invariant r + Minimal(n) == out + Minimal(value)
      decreases n
    {
      var b := n % 128;
      n := n / 128;
      if n == 0 {
        r := r + [b];
        return;
      }
      r := r + [b + 128];
    }
  }

  // ----- What a varint means -----

  /** All but the last byte carry the continuation bit. */
  ghost predicate Terminated(v: Bytes) {
    |v| > 0 && v[|v| - 1] < 128 && forall i :: 0 <= i < |v| - 1 ==> v[i] >= 128
  }

  /** The unbounded number the bytes write. */
  ghost function Meaning(v: Bytes): nat {
    if |v| == 0 then 0 else v[0] % 128 + 128 * Meaning(v[1..])
  }

  /** `v` encodes `n`: at most ten bytes, read modulo 2^64. */
  ghost predicate Encodes(v: Bytes, n: nat) {
    Terminated(v) && |v| <= 10 && n == Meaning(v) % 0x1_0000_0000_0000_0000
  }

  lemma {:induction false} Pow2Sum(a: nat, b: nat)
    ensures Pow2(a + b) == Pow2(a) * Pow2(b)
    decreases b
  {
    if b > 0 {
      Pow2Sum(a, b - 1);
      assert Pow2(a + b) == 2 * Pow2(a + (b - 1));
    }
  }

  lemma SmallPowers()
    ensures Pow2(6) == 64 && Pow2(7) == 128 && Pow2(8) == 256
  {
    assert Pow2(2) == 4 && Pow2(4) == 16;
  }

  lemma Pow2Of64()
    ensures Pow2(64) == U64 && Pow2(7) == 128
  {
    SmallPowers();
    hide Pow2;
    assert Pow2(16) == 65536 by { Pow2Sum(8, 8); }
    assert Pow2(32) == 0x1_0000_0000 by { Pow2Sum(16, 16); }
    Pow2Sum(32, 32);
  }

  lemma MulMonotone(x: nat, y: nat, d: nat)
    requires x <= y
    ensures x * d <= y * d
  {
  }

  lemma ModUnique(n: nat, d: nat, q: nat, r: nat)
    requires d > 0 && n == q * d + r && r < d
    ensures n % d == r
  {
    var q', r' := n / d, n % d;
    if q < q' {
      MulMonotone(q + 1, q', d);
    } else if q' < q {
      MulMonotone(q' + 1, q, d);
    }
  }

  lemma SplitMultiple(m: nat, s: nat, k: nat)
    requires k > 0
    ensures m * s == (m / k) * (k * s) + (m % k) * s
    ensures (m % k) * s + s <= k * s
  {
    var q, r := m / k, m % k;
    assert m == q * k + r;
    assert q * k * s == q * (k * s);
    assert (q * k + r) * s == q * k * s + r * s;
    MulMonotone(r + 1, k, s);
    assert (r + 1) * s == r * s + s;
  }

  /** A part below `s` and a multiple of `s` add without carry modulo a multiple of `s`. */
  lemma NoCarry(low: nat, high: nat, u: nat, q: nat, r: nat, s: nat)
    requires low < s && high == q * u + r && r + s <= u
    ensures low % u + high % u == (low + high) % u
  {
    ModUnique(low, u, 0, low);
    ModUnique(high, u, q, r);
    ModUnique(low + high, u, q, low + r);
  }

  lemma Distribute(c: nat, m: nat, p: nat)
    requires c < 128 && p > 0
    ensures (c + 128 * m) * p == c * p + m * (p * 128) && c * p < p * 128
  {
  }

  lemma ChunkAddsModulo(c: nat, m: nat, p: nat, k: nat, u: nat)
    requires c < 128 && p > 0 && k > 0 && u == k * (p * 128)
    ensures (c * p) % u + (m * (p * 128)) % u == ((c + 128 * m) * p) % u
  {
    var s := p * 128;
    Distribute(c, m, p);
    SplitMultiple(m, s, k);
    NoCarry(c * p, m * s, u, m / k, (m % k) * s, s);
  }

  /** One chunk below bit 57 and everything above it add without carry. */
  lemma ChunkAdds(c: nat, m: nat, shift: nat)
    requires c < 128 && shift + 7 <= 64
    ensures (c * Pow2(shift)) % U64 + (m * Pow2(shift + 7)) % U64 == ((c + 128 * m) * Pow2(shift)) % U64
  {
    hide Pow2;
    var k := Pow2(64 - (shift + 7));
    Pow2Of64();
    Pow2Sum(shift, 7);
    Pow2Sum(64 - (shift + 7), shift + 7);
    ChunkAddsModulo(c, m, Pow2(shift), k, U64);
  }

  /** Reading a varint followed by anything returns its value and leaves the rest. */
  lemma {:induction false} ReadsEncoding(v: Bytes, rest: Bytes, value: nat, shift: nat)
    requires Terminated(v) && shift + 7 * (|v| - 1) < 64
    ensures VaruintFrom(v + rest, value, shift) == Ok((value + (Meaning(v) * Pow2(shift)) % U64, rest))
    decreases |v|
  {
    var b, c := v + rest, v[0] % 128;
    assert b[0] == v[0];
    if |v| == 1 {
      assert b[1..] == rest;
      assert Meaning(v) == c;
    } else {
      assert b[1..] == v[1..] + rest;
      ReadsEncoding(v[1..], rest, value + (c * Pow2(shift)) % U64, shift + 7);
      ChunkAdds(c, Meaning(v[1..]), shift);
    }
  }

  /** Whatever is read is an encoding of what is returned, followed by what is left. */
  lemma {:induction false} ReadIsEncoding(b: Bytes, value: nat, shift: nat) returns (v: Bytes)
    requires VaruintFrom(b, value, shift).Ok?
    ensures Terminated(v) && shift + 7 * (|v| - 1) < 64
    ensures b == v + VaruintFrom(b, value, shift).value.1
    decreases |b|
  {
    if b[0] < 128 {
      v := [b[0]];
    } else {
      var w := ReadIsEncoding(b[1..], value + (b[0] % 128 * Pow2(shift)) % U64, shift + 7);
      v := [b[0]] + w;
    }
  }

  /** The reader accepts exactly the encodings: it succeeds with `n` and `rest` if and only if the
      input is an encoding of `n` followed by `rest`. */
  lemma VaruintIff(b: Bytes, n: nat, rest: Bytes)
    ensures Varuint(b) == Ok((n, rest)) <==> exists v :: Encodes(v, n) && b == v + rest
  {
    if Varuint(b).Ok? {
      var v := ReadIsEncoding(b, 0, 0);
      ReadsEncoding(v, Varuint(b).value.1, 0, 0);
      assert Encodes(v, Varuint(b).value.0);
    }
    forall v | Encodes(v, n) && b == v + rest
      ensures Varuint(b) == Ok((n, rest))
    {
      ReadsEncoding(v, rest, 0, 0);
    }
  }

  lemma {:induction false} MinimalMeans(n: nat, width: nat)
    requires n < Pow2(7 * width)
    ensures Terminated(Minimal(n)) && Meaning(Minimal(n)) == n
    ensures width > 0 ==> |Minimal(n)| <= width
    decreases n
  {
    if n >= 128 {
      Pow2Of64();
      assert width > 0;
      Pow2Sum(7 * (width - 1), 7);
      assert n / 128 < Pow2(7 * (width - 1));
      MinimalMeans(n / 128, width - 1);
      var v := Minimal(n);
      assert v[1..] == Minimal(n / 128);
    } else {
      assert Minimal(n)[1..] == [];
    }
  }

  /** `varuint` inverts `write_varuint` on every 64-bit value. */
  lemma VaruintInverts(n: nat, rest: Bytes)
    requires n < U64
    ensures Encodes(Minimal(n), n)
    ensures Varuint(Minimal(n) + rest) == Ok((n, rest))
  {
    hide Pow2, Minimal, Meaning, Terminated, Varuint;
    Pow2Of64();
    SmallPowers();
    Pow2Sum(64, 6);
    assert n < Pow2(7 * 10);
    MinimalMeans(n, 10);
    VaruintIff(Minimal(n) + rest, n, rest);
  }

  lemma ScaledSum(low: nat, p: nat, high: nat)
    ensures 128 * (low + p * high) == 128 * low + (128 * p) * high
  {
  }

  lemma {:induction false} MeaningSplits(v: Bytes, k: nat)
    requires k <= |v|
    ensures Meaning(v) == Meaning(v[..k]) + Pow2(7 * k) * Meaning(v[k..])
  {
    if k == 0 {
      assert v[0..] == v;
    } else {
      hide Pow2;
      var p, low, high := Pow2(7 * (k - 1)), Meaning(v[..k][1..]), Meaning(v[k..]);
      MeaningSplits(v[1..], k - 1);
      assert v[1..][..k - 1] == v[..k][1..] && v[1..][k - 1..] == v[k..];
      SmallPowers();
      Pow2Sum(7 * (k - 1), 7);
      assert Pow2(7 * k) == 128 * p;
      ScaledSum(low, p, high);
    }
  }

  lemma {:induction false} MeaningFits(v: Bytes)
    ensures Meaning(v) < Pow2(7 * |v|)
  {
    if |v| > 0 {
      MeaningFits(v[1..]);
      SmallPowers();
      Pow2Sum(7 * (|v| - 1), 7);
      assert 7 * (|v| - 1) + 7 == 7 * |v|;
    }
  }

  lemma PowerOf63()
    ensures Pow2(63) == 0x8000_0000_0000_0000
  {
    Pow2Of64();
    assert Pow2(64) == 2 * Pow2(63);
  }

  lemma ShortMeaning(v: Bytes)
    requires |v| <= 9
    ensures Meaning(v) < 0x8000_0000_0000_0000
  {
    hide Pow2, Meaning;
    MeaningFits(v);
    Pow2Monotone(7 * |v|, 63);
    PowerOf63();
  }

  lemma OneByte(v: Bytes)
    requires |v| == 1 && v[0] < 128
    ensures Meaning(v) == v[0]
  {
    assert v[1..] == [];
  }

  /** Reading is exact if and only if the encoding has fewer than ten bytes or its tenth byte is 0
      or 1; any other tenth byte loses its high bits. */
  lemma VaruintExactIff(v: Bytes, n: nat)
    requires Encodes(v, n)
    ensures n == Meaning(v) <==> |v| < 10 || v[9] <= 1
  {
    hide Pow2, Meaning;
    if |v| < 10 {
      ShortMeaning(v);
    } else {
      MeaningSplits(v, 9);
      ShortMeaning(v[..9]);
      PowerOf63();
      OneByte(v[9..]);
    }
  }

  const OVERLONG: Bytes := [0x80, 0x80, 0x80, 0x80, 0x80, 0x80, 0x80, 0x80, 0x80, 0x02]

  lemma {:induction false} NoChunks(v: Bytes)
    requires forall i :: 0 <= i < |v| ==> v[i] == 0x80
    ensures Meaning(v) == 0
  {
    if |v| > 0 {
      NoChunks(v[1..]);
    }
  }

  /** A misread number: these ten bytes write 2^64 and are read as 0. */
  lemma OverlongReadsAsZero(rest: Bytes)
    ensures Meaning(OVERLONG) == U64 && Varuint(OVERLONG + rest) == Ok((0, rest))
  {
    hide Pow2, Meaning, Varuint;
    MeaningSplits(OVERLONG, 9);
    PowerOf63();
    OneByte(OVERLONG[9..]);
    NoChunks(OVERLONG[..9]);
    VaruintIff(OVERLONG + rest, 0, rest);
  }
}

/**
 The `Wire` trait of crates/cc-core/src/v1.rs as a pair of functions, its implementations for
 numbers, hashes, strings, options and sets, and the two laws every implementation obeys.

 `put` returns what it appends to the writer; `get` returns the value and the unread bytes.
 */
module Codec {
  import opened Bytes
  import opened Utf8
  import Digits

  const MAX_ENVELOPE: nat := 1024 * 1024
  const MAX_SET: nat := 1024

  type u16 = n: nat | n < 0x1_0000
  type u32 = n: nat | n < 0x1_0000_0000

  datatype WireError =
    | Truncated | NoncanonicalBool | StringTooLarge | InvalidUtf8 | NoncanonicalSet
    | UnknownTag | UnknownValueTag | UnknownSelectionTag
    | SubjectKeyEncoding | EnvelopeTooLarge | UnsupportedEncoding | UnsupportedConstants | Noncanonical
    | BadSignature

  datatype Codec<!T> = Codec(
    put: T -> Result<Bytes, WireError>,
    get: Bytes -> Result<(T, Bytes), WireError>)

  // ----- The laws -----

  /** Reading what was written, with anything after it, gives the value and leaves the rest. */
  ghost predicate Inverts<T(!new)>(c: Codec<T>) {
    forall v: T, rest: Bytes :: c.put(v).Ok? ==> c.get(c.put(v).value + rest) == Ok((v, rest))
  }

  ghost predicate Rewrites<T>(c: Codec<T>, b: Bytes)
    requires c.get(b).Ok?
  {
    var (v, rest) := c.get(b).value;
    c.put(v).Ok? && c.put(v).value + rest == b
  }

  /** Whatever is read from bytes within the size limit writes back to exactly the bytes read. */
  ghost predicate Canonical<T(!new)>(c: Codec<T>) {
    forall b: Bytes :: |b| <= MAX_ENVELOPE && c.get(b).Ok? ==> Rewrites(c, b)
  }

  ghost predicate Lawful<T(!new)>(c: Codec<T>) { Inverts(c) && Canonical(c) }

  // ----- Numbers, hashes, booleans -----

  function Take(b: Bytes, n: nat): Result<(Bytes, Bytes), WireError> {
    if n > |b| then Err(Truncated) else Ok((b[..n], b[n..]))
  }

  function BigEndian(n: nat, width: nat): (b: Bytes)
    ensures |b| == width
  {
    var d := Digits.Write(Digits.Octets, n, width);
    assert forall i :: 0 <= i < |d| ==> d[i] < 256;
    d
  }

  function NumberGet(b: Bytes, width: nat): (r: Result<(nat, Bytes), WireError>)
    ensures r.Ok? ==> |b| >= width && r.value == (Digits.Value(Digits.Octets, b[..width]), b[width..])
  {
    var (d, rest) :- Take(b, width);
    Ok((Digits.Value(Digits.Octets, d), rest))
  }

  lemma NumberInverts(n: nat, width: nat, rest: Bytes)
    requires n < Digits.Span(Digits.Octets, width)
    ensures NumberGet(BigEndian(n, width) + rest, width) == Ok((n, rest))
  {
    Digits.ValueOfWrite(Digits.Octets, n, width);
    var b := BigEndian(n, width) + rest;
    assert b[..width] == BigEndian(n, width) && b[width..] == rest;
  }

  lemma NumberCanonical(b: Bytes, width: nat)
    requires NumberGet(b, width).Ok?
    ensures var (n, rest) := NumberGet(b, width).value;
            n < Digits.Span(Digits.Octets, width) && BigEndian(n, width) + rest == b
  {
    Digits.WriteOfValue(Digits.Octets, b[..width]);
  }

  lemma Spans()
    ensures Digits.Span(Digits.Octets, 2) == 0x1_0000 && Digits.Span(Digits.Octets, 4) == 0x1_0000_0000
  {
    assert Digits.Span(Digits.Octets, 1) == 256;
    assert Digits.Span(Digits.Octets, 3) == 256 * Digits.Span(Digits.Octets, 2);
  }

  lemma SpanOf8()
    ensures Digits.Span(Digits.Octets, 8) == 0x1_0000_0000_0000_0000
  {
    Spans();
    assert Digits.Span(Digits.Octets, 5) == 256 * Digits.Span(Digits.Octets, 4);
    assert Digits.Span(Digits.Octets, 6) == 256 * Digits.Span(Digits.Octets, 5);
    assert Digits.Span(Digits.Octets, 7) == 256 * Digits.Span(Digits.Octets, 6);
  }

  function GetU16(b: Bytes): Result<(u16, Bytes), WireError> {
    var (n, rest) :- NumberGet(b, 2);
    Spans();
    Digits.WriteOfValue(Digits.Octets, b[..2]);
    Ok((n, rest))
  }

  function GetU32(b: Bytes): Result<(u32, Bytes), WireError> {
    var (n, rest) :- NumberGet(b, 4);
    Spans();
    Digits.WriteOfValue(Digits.Octets, b[..4]);
    Ok((n, rest))
  }

  function U16(): Codec<u16> { Codec((n: u16) => Ok(BigEndian(n, 2)), (b: Bytes) => GetU16(b)) }
  function U32(): Codec<u32> { Codec((n: u32) => Ok(BigEndian(n, 4)), (b: Bytes) => GetU32(b)) }

  lemma NumbersLawful()
    ensures Lawful(U16()) && Lawful(U32())
  {
    Spans();
    forall n: u16, rest: Bytes ensures GetU16(BigEndian(n, 2) + rest) == Ok((n, rest)) { NumberInverts(n, 2, rest); }
    forall n: u32, rest: Bytes ensures GetU32(BigEndian(n, 4) + rest) == Ok((n, rest)) { NumberInverts(n, 4, rest); }
    forall b: Bytes | GetU16(b).Ok? ensures Rewrites(U16(), b) { NumberCanonical(b, 2); }
    forall b: Bytes | GetU32(b).Ok? ensures Rewrites(U32(), b) { NumberCanonical(b, 4); }
  }

  function GetHash(b: Bytes): Result<(Hash, Bytes), WireError> {
    if 32 > |b| then Err(Truncated) else Ok((b[..32], b[32..]))
  }

  function HashWire(): Codec<Hash> { Codec((h: Hash) => Ok(h), (b: Bytes) => GetHash(b)) }

  lemma HashLawful()
    ensures Lawful(HashWire())
  {
    forall h: Hash, rest: Bytes
      ensures GetHash(h + rest) == Ok((h, rest))
    {
      assert (h + rest)[..32] == h && (h + rest)[32..] == rest;
    }
    forall b: Bytes | GetHash(b).Ok? ensures Rewrites(HashWire(), b) { assert b[..32] + b[32..] == b; }
  }

  function GetBool(b: Bytes): Result<(bool, Bytes), WireError> {
    if |b| == 0 then Err(Truncated)
    else if b[0] == 0 then Ok((false, b[1..]))
    else if b[0] == 1 then Ok((true, b[1..]))
    else Err(NoncanonicalBool)
  }

  function BoolByte(v: bool): Bytes { if v then [1] else [0] }

  function BoolWire(): Codec<bool> { Codec((v: bool) => Ok(BoolByte(v)), (b: Bytes) => GetBool(b)) }

  lemma BoolLawful()
    ensures Lawful(BoolWire())
  {
    forall v: bool, rest: Bytes
      ensures GetBool(BoolByte(v) + rest) == Ok((v, rest))
    {
      assert (BoolByte(v) + rest)[1..] == rest;
    }
    forall b: Bytes | GetBool(b).Ok? ensures Rewrites(BoolWire(), b) { assert [b[0]] + b[1..] == b; }
  }

  // ----- Strings -----

  function PutText(s: Text): Result<Bytes, WireError> {
    if |s| > MAX_ENVELOPE then Err(StringTooLarge) else Ok(BigEndian(|s|, 4) + s)
  }

  function GetText(b: Bytes): Result<(Text, Bytes), WireError> {
    var (n, b1) :- GetU32(b);
    var (s, rest) :- Take(b1, n);
    if IsUtf8(s) then Ok((s, rest)) else Err(InvalidUtf8)
  }

  function TextWire(): Codec<Text> { Codec((s: Text) => PutText(s), (b: Bytes) => GetText(b)) }

  lemma TextInverts(s: Text, rest: Bytes)
    requires PutText(s).Ok?
    ensures GetText(PutText(s).value + rest) == Ok((s, rest))
  {
    Spans();
    NumberInverts(|s|, 4, s + rest);
    assert PutText(s).value + rest == BigEndian(|s|, 4) + (s + rest);
    assert (s + rest)[..|s|] == s && (s + rest)[|s|..] == rest;
  }

  lemma TextCanonical(b: Bytes)
    requires |b| <= MAX_ENVELOPE && GetText(b).Ok?
    ensures Rewrites(TextWire(), b)
  {
    NumberCanonical(b, 4);
    var (s, rest) := GetText(b).value;
    var b1 := GetU32(b).value.1;
    assert b1 == s + rest;
    assert BigEndian(|s|, 4) + (s + rest) == (BigEndian(|s|, 4) + s) + rest;
  }

  lemma TextLawful()
    ensures Lawful(TextWire())
  {
    forall s: Text, rest: Bytes | PutText(s).Ok?
      ensures GetText(PutText(s).value + rest) == Ok((s, rest))
    {
      TextInverts(s, rest);
    }
    forall b: Bytes | |b| <= MAX_ENVELOPE && GetText(b).Ok? ensures Rewrites(TextWire(), b) { TextCanonical(b); }
  }

  // ----- One after another -----

  function PutBoth<A, B>(a: Codec<A>, b: Codec<B>, v: (A, B)): Result<Bytes, WireError> {
    var x :- a.put(v.0);
    var y :- b.put(v.1);
    Ok(x + y)
  }

  function GetBoth<A, B>(a: Codec<A>, b: Codec<B>, bytes: Bytes): Result<((A, B), Bytes), WireError> {
    var (x, r1) :- a.get(bytes);
    var (y, r2) :- b.get(r1);
    Ok(((x, y), r2))
  }

  function Both<A, B>(a: Codec<A>, b: Codec<B>): Codec<(A, B)> {
    Codec((v: (A, B)) => PutBoth(a, b, v), (bytes: Bytes) => GetBoth(a, b, bytes))
  }

  lemma BothLawful<A(!new), B(!new)>(a: Codec<A>, b: Codec<B>)
    requires Lawful(a) && Lawful(b)
    ensures Lawful(Both(a, b))
  {
    forall v: (A, B), rest: Bytes | PutBoth(a, b, v).Ok?
      ensures GetBoth(a, b, PutBoth(a, b, v).value + rest) == Ok((v, rest))
    {
      var x, y := a.put(v.0).value, b.put(v.1).value;
      assert (x + y) + rest == x + (y + rest);
      assert a.get(x + (y + rest)) == Ok((v.0, y + rest));
      assert b.get(y + rest) == Ok((v.1, rest));
    }
    forall bytes: Bytes | |bytes| <= MAX_ENVELOPE && GetBoth(a, b, bytes).Ok?
      ensures Rewrites(Both(a, b), bytes)
    {
      var (x, r1) := a.get(bytes).value;
      assert Rewrites(a, bytes);
      assert |r1| <= |bytes| by { assert |a.put(x).value + r1| == |a.put(x).value| + |r1|; }
      var (y, r2) := b.get(r1).value;
      assert Rewrites(b, r1);
      var p, q := a.put(x).value, b.put(y).value;
      assert (p + q) + r2 == p + (q + r2);
    }
  }

  // ----- Wrapping a codec in a constructor -----

  /** The values `to` makes of values of `A`; `from` takes them apart and knows no others. */
  datatype Shape<!A, !V> = Shape(to: A -> V, from: V -> Option<A>)

  function PutAs<A, V>(c: Codec<A>, shape: Shape<A, V>, v: V): Result<Bytes, WireError> {
    var a := shape.from(v);
    if a.None? then Err(UnknownTag) else c.put(a.value)
  }

  function GetAs<A, V>(c: Codec<A>, shape: Shape<A, V>, b: Bytes): Result<(V, Bytes), WireError> {
    var (a, rest) :- c.get(b);
    Ok((shape.to(a), rest))
  }

  function As<A, V>(c: Codec<A>, shape: Shape<A, V>): Codec<V> {
    Codec((v: V) => PutAs(c, shape, v), (b: Bytes) => GetAs(c, shape, b))
  }

  ghost predicate Embeds<A(!new), V(!new)>(shape: Shape<A, V>) {
    (forall a: A :: shape.from(shape.to(a)) == Some(a))
    && forall v: V :: shape.from(v).Some? ==> shape.to(shape.from(v).value) == v
  }

  lemma AsLawful<A(!new), V(!new)>(c: Codec<A>, shape: Shape<A, V>)
    requires Lawful(c) && Embeds(shape)
    ensures Lawful(As(c, shape))
  {
    forall v: V, rest: Bytes | PutAs(c, shape, v).Ok?
      ensures GetAs(c, shape, PutAs(c, shape, v).value + rest) == Ok((v, rest))
    {
      var a := shape.from(v).value;
      assert c.get(c.put(a).value + rest) == Ok((a, rest));
    }
    forall b: Bytes | |b| <= MAX_ENVELOPE && GetAs(c, shape, b).Ok?
      ensures Rewrites(As(c, shape), b)
    {
      assert Rewrites(c, b);
      var a := c.get(b).value.0;
      assert shape.from(shape.to(a)) == Some(a);
    }
  }

  /** A wrapped codec writes and reads only the values of its shape. */
  lemma AsOnly<A(!new), V(!new)>(c: Codec<A>, shape: Shape<A, V>)
    requires Embeds(shape)
    ensures forall v: V :: As(c, shape).put(v).Ok? ==> shape.from(v).Some?
    ensures forall b: Bytes :: As(c, shape).get(b).Ok? ==> shape.from(As(c, shape).get(b).value.0).Some?
  {
    forall b: Bytes | As(c, shape).get(b).Ok?
      ensures shape.from(As(c, shape).get(b).value.0).Some?
    {
      assert shape.from(shape.to(c.get(b).value.0)).Some?;
    }
  }

  /** Both facts about a wrapped codec at once. */
  lemma AsFacts<A(!new), V(!new)>(c: Codec<A>, shape: Shape<A, V>)
    requires Lawful(c) && Embeds(shape)
    ensures Lawful(As(c, shape))
    ensures forall v: V :: As(c, shape).put(v).Ok? ==> shape.from(v).Some?
    ensures forall b: Bytes :: As(c, shape).get(b).Ok? ==> shape.from(As(c, shape).get(b).value.0).Some?
  {
    AsLawful(c, shape);
    AsOnly(c, shape);
  }

  function UnitWire(): Codec<()> { Codec((v: ()) => Ok([]), (b: Bytes) => Ok(((), b))) }

  lemma UnitLawful()
    ensures Lawful(UnitWire())
  {
    forall v: (), rest: Bytes
      ensures UnitWire().get([] + rest) == Ok((v, rest))
    {
      assert [] + rest == rest && v == ();
    }
    forall b: Bytes ensures Rewrites(UnitWire(), b) { assert [] + b == b; }
  }

  // ----- Tags -----

  function GetTag<V>(ofTag: u16 -> Option<V>, b: Bytes): Result<(V, Bytes), WireError> {
    var (tag, rest) :- GetU16(b);
    if ofTag(tag).None? then Err(UnknownTag) else Ok((ofTag(tag).value, rest))
  }

  /** A plain enumeration, as its tag. */
  function Tags<V>(tagOf: V -> u16, ofTag: u16 -> Option<V>): Codec<V> {
    Codec((v: V) => Ok(BigEndian(tagOf(v), 2)), (b: Bytes) => GetTag(ofTag, b))
  }

  lemma TagsLawful<V(!new)>(tagOf: V -> u16, ofTag: u16 -> Option<V>)
    requires forall v :: ofTag(tagOf(v)) == Some(v)
    requires forall t: u16 :: ofTag(t).Some? ==> tagOf(ofTag(t).value) == t
    ensures Lawful(Tags(tagOf, ofTag))
  {
    Spans();
    forall v: V, rest: Bytes
      ensures GetTag(ofTag, BigEndian(tagOf(v), 2) + rest) == Ok((v, rest))
    {
      NumberInverts(tagOf(v), 2, rest);
    }
    forall b: Bytes | GetTag(ofTag, b).Ok?
      ensures Rewrites(Tags(tagOf, ofTag), b)
    {
      NumberCanonical(b, 2);
    }
  }

  function PutUnion<V>(tagOf: V -> u16, alt: u16 -> Option<Codec<V>>, v: V): Result<Bytes, WireError> {
    if alt(tagOf(v)).None? then Err(UnknownTag)
    else
      var body :- alt(tagOf(v)).value.put(v);
      Ok(BigEndian(tagOf(v), 2) + body)
  }

  function GetUnion<V>(alt: u16 -> Option<Codec<V>>, unknown: WireError, b: Bytes): Result<(V, Bytes), WireError> {
    var (tag, rest) :- GetU16(b);
    if alt(tag).None? then Err(unknown) else alt(tag).value.get(rest)
  }

  /** A tagged union: the tag, then the body as the alternative of that tag writes it. */
  function Union<V>(tagOf: V -> u16, alt: u16 -> Option<Codec<V>>, unknown: WireError): Codec<V> {
    Codec((v: V) => PutUnion(tagOf, alt, v), (b: Bytes) => GetUnion(alt, unknown, b))
  }

  /** Each alternative is lawful and reads and writes only the values of its own tag. */
  ghost predicate Alternatives<V(!new)>(tagOf: V -> u16, alt: u16 -> Option<Codec<V>>) {
    forall t: u16 :: alt(t).Some? ==>
      Lawful(alt(t).value) && forall v :: alt(t).value.put(v).Ok? ==> tagOf(v) == t
  }

  lemma UnionLawful<V(!new)>(tagOf: V -> u16, alt: u16 -> Option<Codec<V>>, unknown: WireError)
    requires Alternatives(tagOf, alt)
    ensures Lawful(Union(tagOf, alt, unknown))
  {
    Spans();
    forall v: V, rest: Bytes | PutUnion(tagOf, alt, v).Ok?
      ensures GetUnion(alt, unknown, PutUnion(tagOf, alt, v).value + rest) == Ok((v, rest))
    {
      var t := tagOf(v);
      var c := alt(t).value;
      var body := c.put(v).value;
      NumberInverts(t, 2, body + rest);
      assert BigEndian(t, 2) + body + rest == BigEndian(t, 2) + (body + rest);
      assert c.get(body + rest) == Ok((v, rest));
    }
    forall b: Bytes | |b| <= MAX_ENVELOPE && GetUnion(alt, unknown, b).Ok?
      ensures Rewrites(Union(tagOf, alt, unknown), b)
    {
      NumberCanonical(b, 2);
      var (t, r1) := GetU16(b).value;
      var c := alt(t).value;
      assert Rewrites(c, r1);
      var (v, rest) := c.get(r1).value;
      assert tagOf(v) == t;
      assert BigEndian(t, 2) + c.put(v).value + rest == BigEndian(t, 2) + (c.put(v).value + rest);
    }
  }

  // ----- Options -----

  function PutOption<T>(c: Codec<T>, v: Option<T>): Result<Bytes, WireError> {
    if v.None? then Ok(BoolByte(false))
    else
      var body :- c.put(v.value);
      Ok(BoolByte(true) + body)
  }

  function GetOption<T>(c: Codec<T>, b: Bytes): Result<(Option<T>, Bytes), WireError> {
    var (some, rest) :- GetBool(b);
    if !some then Ok((None, rest))
    else
      var (v, last) :- c.get(rest);
      Ok((Some(v), last))
  }

  function OptionWire<T>(c: Codec<T>): Codec<Option<T>> {
    Codec((v: Option<T>) => PutOption(c, v), (b: Bytes) => GetOption(c, b))
  }

  lemma OptionLawful<T(!new)>(c: Codec<T>)
    requires Lawful(c)
    ensures Lawful(OptionWire(c))
  {
    forall v: Option<T>, rest: Bytes | PutOption(c, v).Ok?
      ensures GetOption(c, PutOption(c, v).value + rest) == Ok((v, rest))
    {
      var b := PutOption(c, v).value + rest;
      if v.Some? {
        var body := c.put(v.value).value;
        assert b[1..] == body + rest;
        assert c.get(body + rest) == Ok((v.value, rest));
      } else {
        assert b[1..] == rest;
      }
    }
    forall b: Bytes | |b| <= MAX_ENVELOPE && GetOption(c, b).Ok?
      ensures Rewrites(OptionWire(c), b)
    {
      assert b == [b[0]] + b[1..];
      if b[0] == 1 {
        assert Rewrites(c, b[1..]);
        var (v, rest) := c.get(b[1..]).value;
        assert BoolByte(true) + c.put(v).value + rest == BoolByte(true) + (c.put(v).value + rest);
      }
    }
  }

  // ----- Sets -----

  /** A hash compares as the number it writes, by `Digits.LexIsNumeric`. */
  function Rank(h: Hash): nat { Digits.Value(Digits.Octets, h) }

  predicate StrictlySorted<T>(reference: T -> Hash, s: seq<T>) {
    forall i :: 0 <= i < |s| - 1 ==> Rank(reference(s[i])) < Rank(reference(s[i + 1]))
  }

  function PutAll<T>(c: Codec<T>, s: seq<T>): Result<Bytes, WireError> {
    if s == [] then Ok([])
    else
      var x :- c.put(s[0]);
      var y :- PutAll(c, s[1..]);
      Ok(x + y)
  }

  function GetAll<T>(c: Codec<T>, n: nat, b: Bytes): (r: Result<(seq<T>, Bytes), WireError>)
    ensures r.Ok? ==> |r.value.0| == n
    decreases n
  {
    if n == 0 then Ok(([], b))
    else
      var (x, r1) :- c.get(b);
      var (xs, r2) :- GetAll(c, n - 1, r1);
      Ok(([x] + xs, r2))
  }

  function PutSet<T>(c: Codec<T>, reference: T -> Hash, s: seq<T>): Result<Bytes, WireError> {
    if |s| > MAX_SET || !StrictlySorted(reference, s) then Err(NoncanonicalSet)
    else
      var body :- PutAll(c, s);
      Ok(BigEndian(|s|, 4) + body)
  }

  function GetSet<T>(c: Codec<T>, reference: T -> Hash, b: Bytes): Result<(seq<T>, Bytes), WireError> {
    var (n, b1) :- GetU32(b);
    if n > MAX_SET then Err(NoncanonicalSet)
    else
      var (s, rest) :- GetAll(c, n, b1);
      if StrictlySorted(reference, s) then Ok((s, rest)) else Err(NoncanonicalSet)
  }

  function SetWire<T>(c: Codec<T>, reference: T -> Hash): Codec<seq<T>> {
    Codec((s: seq<T>) => PutSet(c, reference, s), (b: Bytes) => GetSet(c, reference, b))
  }

  /** The writing loop of `Set::put`, appending to what is already written. */
  method WriteSet<T>(c: Codec<T>, reference: T -> Hash, s: seq<T>, out: Bytes) returns (r: Result<Bytes, WireError>)
    ensures var body := PutSet(c, reference, s);
            if body.Ok? then r == Ok(out + body.value) else r == Err(body.error)
  {
    hide StrictlySorted, BigEndian;
    if |s| > MAX_SET || !StrictlySorted(reference, s) {
      return Err(NoncanonicalSet);
    }
    ghost var all := PutAll(c, s);
    var start := out + BigEndian(|s|, 4);
    var w := start;
    assert s[0..] == s;
    assert all.Ok? ==> start + all.value == out + (BigEndian(|s|, 4) + all.value);
    for i := 0 to |s|
      invariant var more := PutAll(c, s[i..]);
                if more.Ok? then all.Ok? && w + more.value == start + all.value else all == Err(more.error)
    {
      assert s[i..][1..] == s[i + 1..];
      var bytes := c.put(s[i]);
      if bytes.Err? {
        return Err(bytes.error);
      }
      ghost var more := PutAll(c, s[i + 1..]);
      assert more.Ok? ==> w + (bytes.value + more.value) == (w + bytes.value) + more.value;
      w := w + bytes.value;
    }
    assert w + [] == w;
    r := Ok(w);
  }

  /** The reading loop of `Set::get`, over a cursor that each element moves. */
  method ReadSet<T>(c: Codec<T>, reference: T -> Hash, b: Bytes) returns (r: Result<(seq<T>, Bytes), WireError>)
    ensures r == GetSet(c, reference, b)
  {
    var header := GetU32(b);
    if header.Err? {
      return Err(header.error);
    }
    var (n, cursor) := header.value;
    if n > MAX_SET {
      return Err(NoncanonicalSet);
    }
    ghost var all := GetAll(c, n, cursor);
    var values: seq<T> := [];
    assert all.Ok? ==> [] + all.value.0 == all.value.0;
    for i := 0 to n
      invariant |values| == i
      invariant var more := GetAll(c, n - i, cursor);
                if more.Ok? then all == Ok((values + more.value.0, more.value.1)) else all == Err(more.error)
    {
      match c.get(cursor) {
        case Err(e) =>
          return Err(e);
        case Ok((x, next)) =>
          ghost var more := GetAll(c, n - i - 1, next);
          assert more.Ok? ==> values + ([x] + more.value.0) == (values + [x]) + more.value.0;
          values := values + [x];
          cursor := next;
      }
    }
    assert values + [] == values;
    if !StrictlySorted(reference, values) {
      return Err(NoncanonicalSet);
    }
    r := Ok((values, cursor));
  }

  lemma {:induction false} AllInverts<T(!new)>(c: Codec<T>, s: seq<T>, rest: Bytes)
    requires Lawful(c) && PutAll(c, s).Ok?
    ensures GetAll(c, |s|, PutAll(c, s).value + rest) == Ok((s, rest))
  {
    if s == [] {
      assert [] + rest == rest;
    } else {
      var x, y := c.put(s[0]).value, PutAll(c, s[1..]).value;
      AllInverts(c, s[1..], rest);
      assert (x + y) + rest == x + (y + rest);
      assert c.get(x + (y + rest)) == Ok((s[0], y + rest));
      assert s == [s[0]] + s[1..];
    }
  }

  lemma ReadOne<T(!new)>(c: Codec<T>, b: Bytes)
    requires Lawful(c) && |b| <= MAX_ENVELOPE && c.get(b).Ok?
    ensures var (x, rest) := c.get(b).value;
            c.put(x).Ok? && c.put(x).value + rest == b && |rest| <= |b|
  {
    assert Rewrites(c, b);
    var (x, rest) := c.get(b).value;
    assert |c.put(x).value + rest| == |c.put(x).value| + |rest|;
  }

  lemma PutCons<T>(c: Codec<T>, x: T, xs: seq<T>)
    requires c.put(x).Ok? && PutAll(c, xs).Ok?
    ensures PutAll(c, [x] + xs) == Ok(c.put(x).value + PutAll(c, xs).value)
  {
    assert ([x] + xs)[1..] == xs;
  }

  lemma GetCons<T>(c: Codec<T>, n: nat, b: Bytes)
    requires n > 0 && GetAll(c, n, b).Ok?
    ensures c.get(b).Ok? && GetAll(c, n - 1, c.get(b).value.1).Ok?
    ensures var (x, r1) := c.get(b).value;
            var (xs, r2) := GetAll(c, n - 1, r1).value;
            GetAll(c, n, b).value == ([x] + xs, r2)
  {
  }

  lemma NoneCanonical<T>(c: Codec<T>, b: Bytes)
    ensures GetAll(c, 0, b) == Ok(([], b)) && PutAll(c, []) == Ok([]) && [] + b == b
  {
  }

  lemma {:induction false} AllCanonical<T(!new)>(c: Codec<T>, n: nat, b: Bytes)
    requires Lawful(c) && |b| <= MAX_ENVELOPE && GetAll(c, n, b).Ok?
    ensures var (s, rest) := GetAll(c, n, b).value;
            PutAll(c, s).Ok? && PutAll(c, s).value + rest == b
    decreases n
  {
    hide PutAll, GetAll, Lawful;
    if n == 0 {
      NoneCanonical(c, b);
    } else {
      GetCons(c, n, b);
      ReadOne(c, b);
      var (x, r1) := c.get(b).value;
      AllCanonical(c, n - 1, r1);
      var (xs, r2) := GetAll(c, n - 1, r1).value;
      PutCons(c, x, xs);
      var p, q := c.put(x).value, PutAll(c, xs).value;
      assert (p + q) + r2 == p + (q + r2);
    }
  }

  lemma SetInverts<T(!new)>(c: Codec<T>, reference: T -> Hash, s: seq<T>, rest: Bytes)
    requires Lawful(c) && PutSet(c, reference, s).Ok?
    ensures GetSet(c, reference, PutSet(c, reference, s).value + rest) == Ok((s, rest))
  {
    hide StrictlySorted, PutAll, GetAll, Lawful, BigEndian;
    Spans();
    var body := PutAll(c, s).value;
    AllInverts(c, s, rest);
    NumberInverts(|s|, 4, body + rest);
    assert BigEndian(|s|, 4) + body + rest == BigEndian(|s|, 4) + (body + rest);
  }

  lemma SetCanonical<T(!new)>(c: Codec<T>, reference: T -> Hash, b: Bytes)
    requires Lawful(c) && |b| <= MAX_ENVELOPE && GetSet(c, reference, b).Ok?
    ensures Rewrites(SetWire(c, reference), b)
  {
    NumberCanonical(b, 4);
    var (n, b1) := GetU32(b).value;
    AllCanonical(c, n, b1);
    var (s, rest) := GetSet(c, reference, b).value;
    var body := PutAll(c, s).value;
    assert BigEndian(n, 4) + body + rest == BigEndian(n, 4) + (body + rest);
  }

  lemma SetLawful<T(!new)>(c: Codec<T>, reference: T -> Hash)
    requires Lawful(c)
    ensures Lawful(SetWire(c, reference))
  {
    forall s: seq<T>, rest: Bytes | PutSet(c, reference, s).Ok?
      ensures GetSet(c, reference, PutSet(c, reference, s).value + rest) == Ok((s, rest))
    {
      SetInverts(c, reference, s, rest);
    }
    forall b: Bytes | |b| <= MAX_ENVELOPE && GetSet(c, reference, b).Ok?
      ensures Rewrites(SetWire(c, reference), b)
    {
      SetCanonical(c, reference, b);
    }
  }
}

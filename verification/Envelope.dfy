/** Envelopes, their canonical preimages and signed wire bytes (crates/cc-core/src/v1.rs). */
module Envelope {
  import opened Bytes
  import opened Utf8
  import opened Codec
  import opened Wire
  import Digits

  const CANON_VERSION: u16 := 1
  const CONSTANTS_VERSION: u16 := 0
  const SIGNATURE_LENGTH := 64

  /** "cc.event.v1" */
  const DOMAIN: Bytes := [0x63, 0x63, 0x2e, 0x65, 0x76, 0x65, 0x6e, 0x74, 0x2e, 0x76, 0x31]

  datatype Envelope = Envelope(
    instance: Hash, author: Hash, subject: Option<Hash>, subjectKey: Option<SubjectKey>, grant: Option<Hash>,
    parents: seq<Hash>, assertedTime: Option<AssertedTime>, payload: Payload)

  /** Public keys and signatures as the program sees them: which bytes are a key, and which
      signatures verify. */
  datatype Scheme = Scheme(isKey: Hash -> bool, verifies: (Hash, Bytes, Bytes) -> bool)

  datatype Signed = Signed(envelope: Envelope, id: Hash, bytes: Bytes)

  // ----- Layout -----

  type Subjects = (Option<Hash>, (Option<SubjectKey>, (Option<Hash>, (seq<Hash>, Option<AssertedTime>))))
  type Fields = (Hash, (Kind, (Hash, Subjects)))

  function TailWire(): Codec<(Option<Hash>, (seq<Hash>, Option<AssertedTime>))> {
    Both(OptionWire(HashWire()), Both(HashSet(), OptionWire(TimeWire())))
  }

  function SubjectsWire(): Codec<Subjects> {
    Both(OptionWire(HashWire()), Both(OptionWire(SubjectKeyWire()), TailWire()))
  }

  function FieldsWire(): Codec<Fields> { Both(HashWire(), Both(KindWire(), Both(HashWire(), SubjectsWire()))) }

  lemma FieldsLawful()
    ensures Lawful(FieldsWire())
  {
    hide Lawful, Both;
    BasicsLawful();
    SetsLawful();
    KeyAndTimeLawful();
    OptionLawful(HashWire());
    OptionLawful(TimeWire());
    OptionLawful(SubjectKeyWire());
    BothLawful(HashSet(), OptionWire(TimeWire()));
    BothLawful(OptionWire(HashWire()), Both(HashSet(), OptionWire(TimeWire())));
    BothLawful(OptionWire(SubjectKeyWire()), TailWire());
    BothLawful(OptionWire(HashWire()), Both(OptionWire(SubjectKeyWire()), TailWire()));
    BothLawful(HashWire(), SubjectsWire());
    BothLawful(KindWire(), Both(HashWire(), SubjectsWire()));
    BothLawful(HashWire(), Both(KindWire(), Both(HashWire(), SubjectsWire())));
  }

  function FieldsOf(e: Envelope): Fields {
    var subjects := (e.subject, (e.subjectKey, (e.grant, (e.parents, e.assertedTime))));
    (e.instance, (PayloadKind(e.payload), (e.author, subjects)))
  }

  function Assemble(f: Fields, p: Payload): Envelope {
    Envelope(f.0, f.1.1.0, f.1.1.1.0, f.1.1.1.1.0, f.1.1.1.1.1.0, f.1.1.1.1.1.1.0, f.1.1.1.1.1.1.1, p)
  }

  /** The fixed start of every preimage. */
  function Header(): Bytes {
    BigEndian(|DOMAIN|, 4) + DOMAIN + BigEndian(CANON_VERSION, 2) + BigEndian(CONSTANTS_VERSION, 2)
  }

  // ----- Encoding -----

  predicate KeyPartOk(s: Text) { 1 <= |s| <= 1024 }

  predicate SubjectKeyOk(e: Envelope) {
    e.subjectKey.Some? ==>
      var key := e.subjectKey.value;
      KeyPartOk(key.kind) && KeyPartOk(key.namespace) && KeyPartOk(key.value)
  }

  function PutEnvelope(e: Envelope): Result<Bytes, WireError> {
    var fields :- FieldsWire().put(FieldsOf(e));
    var payload :- PayloadWire(PayloadKind(e.payload)).put(e.payload);
    Ok(Header() + (fields + payload))
  }

  function Preimage(e: Envelope): Result<Bytes, WireError> {
    if !SubjectKeyOk(e) then Err(SubjectKeyEncoding)
    else
      var bytes :- PutEnvelope(e);
      if |bytes| + SIGNATURE_LENGTH > MAX_ENVELOPE then Err(EnvelopeTooLarge) else Ok(bytes)
  }

  // ----- Decoding -----

  /** The domain and version checks, made as each field is read. */
  function ReadHeader(b: Bytes): Result<Bytes, WireError> {
    var (domain, b1) :- GetText(b);
    if domain != DOMAIN then Err(UnsupportedEncoding)
    else
      var (canon, b2) :- GetU16(b1);
      if canon != CANON_VERSION then Err(UnsupportedEncoding)
      else
        var (constants, b3) :- GetU16(b2);
        if constants != CONSTANTS_VERSION then Err(UnsupportedConstants) else Ok(b3)
  }

  function ReadEnvelope(b: Bytes): Result<(Envelope, Bytes), WireError> {
    var b1 :- ReadHeader(b);
    var (fields, b2) :- FieldsWire().get(b1);
    var (payload, rest) :- PayloadWire(fields.1.0).get(b2);
    Ok((Assemble(fields, payload), rest))
  }

  function Decode(sha: Sha, scheme: Scheme, bytes: Bytes): Result<Signed, WireError> {
    if |bytes| > MAX_ENVELOPE then Err(EnvelopeTooLarge)
    else if |bytes| < SIGNATURE_LENGTH then Err(Truncated)
    else
      var split := |bytes| - SIGNATURE_LENGTH;
      var preimage, signature := bytes[..split], bytes[split..];
      var (envelope, rest) :- ReadEnvelope(preimage);
      if rest != [] then Err(Noncanonical)
      else
        var again :- Preimage(envelope);
        if again != preimage then Err(Noncanonical)
        else if !scheme.isKey(envelope.author) then Err(BadSignature)
        else if !scheme.verifies(envelope.author, preimage, signature) then Err(BadSignature)
        else Ok(Signed(envelope, sha(preimage), bytes))
  }

  function Sign(sha: Sha, scheme: Scheme, author: Hash, sign: Bytes -> Bytes, e: Envelope): Result<Signed, WireError> {
    var bytes :- Preimage(e.(author := author));
    Decode(sha, scheme, bytes + sign(bytes))
  }

  // ----- Round trip and canonicity -----

  lemma {:induction false} AsciiIsUtf8(b: Bytes)
    requires forall i :: 0 <= i < |b| ==> b[i] < 0x80
    ensures IsUtf8(b)
  {
    if b != [] {
      AsciiIsUtf8(b[1..]);
    }
  }

  lemma DomainIsText()
    ensures IsUtf8(DOMAIN)
  {
    hide IsUtf8;
    AsciiIsUtf8(DOMAIN);
  }

  lemma HeaderReads(rest: Bytes)
    ensures ReadHeader(Header() + rest) == Ok(rest)
  {
    hide BigEndian, IsUtf8, Digits.Span, Digits.Value;
    DomainIsText();
    Spans();
    var c, v := BigEndian(CANON_VERSION, 2), BigEndian(CONSTANTS_VERSION, 2);
    assert PutText(DOMAIN) == Ok(BigEndian(|DOMAIN|, 4) + DOMAIN);
    TextInverts(DOMAIN, c + (v + rest));
    assert Header() + rest == (BigEndian(|DOMAIN|, 4) + DOMAIN) + (c + (v + rest));
    NumberInverts(CANON_VERSION, 2, v + rest);
    NumberInverts(CONSTANTS_VERSION, 2, rest);
  }

  lemma U16IsRead(b: Bytes)
    requires GetU16(b).Ok?
    ensures b == BigEndian(GetU16(b).value.0, 2) + GetU16(b).value.1
  {
    NumberCanonical(b, 2);
  }

  lemma TextIsRead(b: Bytes)
    requires |b| <= MAX_ENVELOPE && GetText(b).Ok?
    ensures var (s, rest) := GetText(b).value; b == (BigEndian(|s|, 4) + s) + rest
  {
    TextCanonical(b);
  }

  lemma HeaderIsRead(b: Bytes)
    requires |b| <= MAX_ENVELOPE && ReadHeader(b).Ok?
    ensures b == Header() + ReadHeader(b).value
  {
    hide BigEndian, IsUtf8, GetU16, GetText;
    TextIsRead(b);
    var b1 := GetText(b).value.1;
    U16IsRead(b1);
    var b2 := GetU16(b1).value.1;
    U16IsRead(b2);
  }

  /** Reading what `PutEnvelope` writes gives the envelope and leaves the rest. */
  lemma EnvelopeInverts(e: Envelope, rest: Bytes)
    requires PutEnvelope(e).Ok?
    ensures ReadEnvelope(PutEnvelope(e).value + rest) == Ok((e, rest))
  {
    hide Header, ReadHeader, FieldsWire, PayloadWire;
    FieldsLawful();
    PayloadLawful(PayloadKind(e.payload));
    var f, p := FieldsWire().put(FieldsOf(e)).value, PayloadWire(PayloadKind(e.payload)).put(e.payload).value;
    HeaderReads(f + (p + rest));
    assert PutEnvelope(e).value + rest == Header() + (f + (p + rest));
    assert FieldsWire().get(f + (p + rest)) == Ok((FieldsOf(e), p + rest));
    assert PayloadWire(PayloadKind(e.payload)).get(p + rest) == Ok((e.payload, rest));
  }

  /** Whatever is read within the size limit writes back to exactly the bytes read. */
  lemma EnvelopeCanonical(b: Bytes)
    requires |b| <= MAX_ENVELOPE && ReadEnvelope(b).Ok?
    ensures var (e, rest) := ReadEnvelope(b).value;
            PutEnvelope(e).Ok? && PutEnvelope(e).value + rest == b
  {
    hide Header, ReadHeader, FieldsWire, PayloadWire;
    HeaderIsRead(b);
    FieldsLawful();
    var b1 := ReadHeader(b).value;
    assert |b1| <= |b| by { assert |Header() + b1| == |Header()| + |b1|; }
    assert Rewrites(FieldsWire(), b1);
    var (fields, b2) := FieldsWire().get(b1).value;
    var k, f := fields.1.0, FieldsWire().put(fields).value;
    assert |b2| <= |b1| by { assert |f + b2| == |f| + |b2|; }
    PayloadLawful(k);
    assert Rewrites(PayloadWire(k), b2);
    var (payload, rest) := PayloadWire(k).get(b2).value;
    assert PayloadKind(payload) == k;
    var p := PayloadWire(k).put(payload).value;
    assert Header() + (f + p) + rest == Header() + (f + (p + rest));
  }

  /** Wire round trip: an envelope whose preimage exists reads back as itself with nothing left. */
  lemma PreimageRoundTrip(e: Envelope)
    requires Preimage(e).Ok?
    ensures ReadEnvelope(Preimage(e).value) == Ok((e, []))
  {
    hide PutEnvelope, ReadEnvelope;
    EnvelopeInverts(e, []);
    assert Preimage(e).value + [] == Preimage(e).value;
  }

  /** Preimages name one envelope each. */
  lemma PreimageInjective(e: Envelope, f: Envelope)
    requires Preimage(e).Ok? && Preimage(e) == Preimage(f)
    ensures e == f
  {
    PreimageRoundTrip(e);
    PreimageRoundTrip(f);
  }

  /** Canonical by construction: bytes that are read whole and leave room for a signature are the
      preimage of what was read, or fail the subject-key length check and nothing else. So the byte
      comparison at the end of `decode` never refuses. */
  lemma ReadWholeIsCanonical(b: Bytes, e: Envelope)
    requires |b| + SIGNATURE_LENGTH <= MAX_ENVELOPE
    requires ReadEnvelope(b) == Ok((e, []))
    ensures Preimage(e) == if SubjectKeyOk(e) then Ok(b) else Err(SubjectKeyEncoding)
  {
    hide PutEnvelope, ReadEnvelope;
    EnvelopeCanonical(b);
    assert PutEnvelope(e).value + [] == b;
    assert PutEnvelope(e).value == b;
  }

  /** Decoding accepts exactly the canonical preimage of an envelope followed by a 64-byte
      signature that verifies under its author, and returns that envelope. In particular the
      size limits of the two sides agree. */
  lemma DecodeIff(sha: Sha, scheme: Scheme, bytes: Bytes, e: Envelope)
    ensures Decode(sha, scheme, bytes).Ok? && Decode(sha, scheme, bytes).value.envelope == e
       <==> Preimage(e).Ok? && |bytes| == |Preimage(e).value| + SIGNATURE_LENGTH && Preimage(e).value <= bytes
            && scheme.isKey(e.author)
            && scheme.verifies(e.author, Preimage(e).value, bytes[|Preimage(e).value|..])
  {
    hide PutEnvelope, ReadEnvelope;
    if Preimage(e).Ok? && |bytes| == |Preimage(e).value| + SIGNATURE_LENGTH && Preimage(e).value <= bytes {
      var p := Preimage(e).value;
      PreimageRoundTrip(e);
      assert bytes[..|bytes| - SIGNATURE_LENGTH] == p;
    }
  }

  /** What decoding returns: the bytes themselves and the hash of the preimage as id. */
  lemma DecodeKeepsBytes(sha: Sha, scheme: Scheme, bytes: Bytes)
    requires Decode(sha, scheme, bytes).Ok?
    ensures var s := Decode(sha, scheme, bytes).value;
            s.bytes == bytes && Preimage(s.envelope) == Ok(bytes[..|bytes| - SIGNATURE_LENGTH])
            && s.id == sha(bytes[..|bytes| - SIGNATURE_LENGTH])
  {
    hide ReadEnvelope, Preimage;
  }

  /** Two signed messages with the same envelope differ at most in the signature. */
  lemma SameEnvelopeSamePreimage(sha: Sha, scheme: Scheme, a: Bytes, b: Bytes)
    requires Decode(sha, scheme, a).Ok? && Decode(sha, scheme, b).Ok?
    requires Decode(sha, scheme, a).value.envelope == Decode(sha, scheme, b).value.envelope
    ensures |a| == |b| && a[..|a| - SIGNATURE_LENGTH] == b[..|b| - SIGNATURE_LENGTH]
    ensures Decode(sha, scheme, a).value.id == Decode(sha, scheme, b).value.id
  {
    hide Decode;
    var e := Decode(sha, scheme, a).value.envelope;
    DecodeIff(sha, scheme, a, e);
    DecodeIff(sha, scheme, b, e);
    DecodeKeepsBytes(sha, scheme, a);
    DecodeKeepsBytes(sha, scheme, b);
  }

  /** With a key whose signatures verify, signing succeeds exactly when a preimage exists, and the
      result carries the envelope with the signer as author, the preimage followed by the signature
      over it, and the preimage's hash. */
  lemma SignIff(sha: Sha, scheme: Scheme, author: Hash, sign: Bytes -> Bytes, e: Envelope)
    requires scheme.isKey(author)
    requires forall m :: |sign(m)| == SIGNATURE_LENGTH && scheme.verifies(author, m, sign(m))
    ensures Sign(sha, scheme, author, sign, e).Ok? <==> Preimage(e.(author := author)).Ok?
    ensures Sign(sha, scheme, author, sign, e).Ok? ==>
              var mine := e.(author := author);
              var p := Preimage(mine).value;
              Sign(sha, scheme, author, sign, e) == Ok(Signed(mine, sha(p), p + sign(p)))
  {
    hide Decode, Preimage;
    var mine := e.(author := author);
    if Preimage(mine).Ok? {
      var p := Preimage(mine).value;
      var bytes := p + sign(p);
      assert bytes[|p|..] == sign(p);
      DecodeIff(sha, scheme, bytes, mine);
      DecodeKeepsBytes(sha, scheme, bytes);
      assert bytes[..|bytes| - SIGNATURE_LENGTH] == p;
    }
  }
}

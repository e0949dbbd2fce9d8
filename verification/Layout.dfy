/**
 The v1 wire format byte by byte, as literal tags, limits and field orders: a reference against
 which the codecs are proved. An envelope has a preimage if and only if it fits, and then the
 preimage is these bytes.
 */
module Layout {
  import opened Bytes
  import opened Utf8
  import opened Codec
  import opened Wire
  import opened Envelope
  import Digits

  // ----- Numbers, text, options and sets -----

  ghost function Two(n: nat): Bytes { [n / 0x100 % 0x100, n % 0x100] }

  ghost function Four(n: nat): Bytes { [n / 0x100_0000 % 0x100, n / 0x1_0000 % 0x100, n / 0x100 % 0x100, n % 0x100] }

  ghost predicate TextFits(s: Text) { |s| <= 1048576 }

  ghost function TextBytes(s: Text): Bytes { Four(|s|) + s }

  ghost function OptionBytes<T>(v: Option<T>, bytes: T -> Bytes): Bytes {
    if v.None? then [0] else [1] + bytes(v.value)
  }

  ghost function Joined<T>(s: seq<T>, bytes: T -> Bytes): Bytes {
    if s == [] then [] else bytes(s[0]) + Joined(s[1..], bytes)
  }

  ghost function SetBytes<T>(s: seq<T>, bytes: T -> Bytes): Bytes { Four(|s|) + Joined(s, bytes) }

  /** At most 1024 elements, whose references ascend strictly as byte strings. */
  ghost predicate SetFits<T>(s: seq<T>, reference: T -> Hash) {
    |s| <= 1024 && forall i, j :: 0 <= i < j < |s| ==> Digits.LexLess(reference(s[i]), reference(s[j]))
  }

  // ----- Enumerations, records and unions -----

  ghost function KindBytes(k: Kind): Bytes {
    match k
    case Genesis => [0, 1] case Correction => [0, 2] case Delegate => [0, 3] case Revoke => [0, 4]
    case Resolve => [0, 5] case EdgeAssert => [0, 6] case EdgeReaffirm => [0, 7] case Attestation => [0, 8]
  }

  ghost function ActionBytes(k: DispositionKind): Bytes {
    match k case Selected => [0, 1] case Merged => [0, 2] case NotSelected => [0, 3]
  }

  ghost function TargetBytes(k: TargetKind): Bytes { match k case Event => [0, 1] case Revision => [0, 2] }

  ghost function FlagBytes(v: bool): Bytes { if v then [1] else [0] }

  ghost function SubjectKeyBytes(k: SubjectKey): Bytes {
    TextBytes(k.kind) + (TextBytes(k.namespace) + TextBytes(k.value))
  }

  ghost predicate TimeFits(t: AssertedTime) { TextFits(t.precision) }

  ghost function TimeBytes(t: AssertedTime): Bytes { t.coordinate + TextBytes(t.precision) }

  ghost function PinBytes(p: Pin): Bytes { p.subject + (p.basis + (p.revision + p.body)) }

  ghost function PinsBytes(p: Pins): Bytes { PinBytes(p.source) + PinBytes(p.target) }

  ghost function ParentPinsBytes(p: ParentPins): Bytes { p.parent + PinsBytes(p.pins) }

  ghost function DispositionBytes(d: Disposition): Bytes {
    d.parent + (ActionBytes(d.action) + TextBytes(d.rationale))
  }

  ghost predicate HashesFit(s: seq<Hash>) { SetFits(s, (h: Hash) => h) }

  ghost function HashesBytes(s: seq<Hash>): Bytes { SetBytes(s, (h: Hash) => h) }

  ghost predicate PinSetFits(s: seq<ParentPins>) { SetFits(s, (p: ParentPins) => p.parent) }

  ghost function PinSetBytes(s: seq<ParentPins>): Bytes { SetBytes(s, (p: ParentPins) => ParentPinsBytes(p)) }

  ghost predicate DispositionsFit(s: seq<Disposition>) {
    SetFits(s, (d: Disposition) => d.parent) && forall i :: 0 <= i < |s| ==> TextFits(s[i].rationale)
  }

  ghost function DispositionsBytes(s: seq<Disposition>): Bytes {
    SetBytes(s, (d: Disposition) => DispositionBytes(d))
  }

  ghost predicate ValueFits(v: Value) {
    match v
    case Heads(s) => HashesFit(s)
    case ParentPinsValue(s) => PinSetFits(s)
    case _ => true
  }

  ghost function ValueBytes(v: Value): Bytes {
    match v
    case NoValue => [0, 0]
    case BodyValue(h) => [0, 1] + h
    case Grant(issuer, grantee) => [0, 2] + (issuer + grantee)
    case ActiveGrant(h) => [0, 3] + h
    case RevokedGrant(h, cascade) => [0, 4] + (h + FlagBytes(cascade))
    case Heads(s) => [0, 5] + HashesBytes(s)
    case RevisionValue(h) => [0, 6] + h
    case PinsValue(p) => [0, 7] + PinsBytes(p)
    case ParentPinsValue(s) => [0, 8] + PinSetBytes(s)
  }

  ghost function SelectionBytes(s: Selection): Bytes {
    match s case RevisionSelection(h) => [0, 0] + h case MergedBody(h) => [0, 1] + h
  }

  ghost predicate DecisionFits(d: Decision) {
    TextFits(d.rationale) && HashesFit(d.evidence) && HashesFit(d.parents) && ValueFits(d.old_) && ValueFits(d.new_)
  }

  ghost function DecisionBytes(d: Decision): Bytes {
    KindBytes(d.kind)
    + (TextBytes(d.rationale)
       + (HashesBytes(d.evidence) + (HashesBytes(d.parents) + (ValueBytes(d.old_) + ValueBytes(d.new_)))))
  }

  // ----- Payloads and envelopes -----

  ghost predicate PayloadFits(p: Payload) {
    match p
    case GenesisPayload(_, _, evidence) => HashesFit(evidence)
    case CorrectionPayload(_, decision) => DecisionFits(decision)
    case DelegatePayload(_, _, decision) => DecisionFits(decision)
    case RevokePayload(_, _, decision) => DecisionFits(decision)
    case ResolvePayload(_, dispositions, decision) => DispositionsFit(dispositions) && DecisionFits(decision)
    case EdgeAssertPayload(relation, _, decision) => TextFits(relation) && DecisionFits(decision)
    case EdgeReaffirmPayload(_, oldPins, _, decision) => PinSetFits(oldPins) && DecisionFits(decision)
    case AttestationPayload(_, _, artifactKind, _) => TextFits(artifactKind)
  }

  ghost function PayloadBytes(p: Payload): Bytes {
    match p
    case GenesisPayload(nonce, body, evidence) => nonce + (body + HashesBytes(evidence))
    case CorrectionPayload(body, decision) => body + DecisionBytes(decision)
    case DelegatePayload(grantee, issuer, decision) => grantee + (issuer + DecisionBytes(decision))
    case RevokePayload(target, cascade, decision) => target + (FlagBytes(cascade) + DecisionBytes(decision))
    case ResolvePayload(selection, dispositions, decision) =>
      SelectionBytes(selection) + (DispositionsBytes(dispositions) + DecisionBytes(decision))
    case EdgeAssertPayload(relation, pins, decision) =>
      TextBytes(relation) + (PinsBytes(pins) + DecisionBytes(decision))
    case EdgeReaffirmPayload(edge, oldPins, newPins, decision) =>
      edge + (PinSetBytes(oldPins) + (PinsBytes(newPins) + DecisionBytes(decision)))
    case AttestationPayload(targetKind, target, artifactKind, artifact) =>
      TargetBytes(targetKind) + (target + (TextBytes(artifactKind) + artifact))
  }

  ghost predicate SubjectKeyFits(k: SubjectKey) {
    1 <= |k.kind| <= 1024 && 1 <= |k.namespace| <= 1024 && 1 <= |k.value| <= 1024
  }

  /** "cc.event.v1" with its length in front, version 1 and constants 0. */
  ghost function Prologue(): Bytes {
    [0, 0, 0, 11, 0x63, 0x63, 0x2e, 0x65, 0x76, 0x65, 0x6e, 0x74, 0x2e, 0x76, 0x31, 0, 1, 0, 0]
  }

  ghost function SubjectsBytes(e: Envelope): Bytes {
    OptionBytes(e.subject, (h: Hash) => h)
    + (OptionBytes(e.subjectKey, (k: SubjectKey) => SubjectKeyBytes(k))
       + (OptionBytes(e.grant, (h: Hash) => h)
          + (HashesBytes(e.parents) + OptionBytes(e.assertedTime, (t: AssertedTime) => TimeBytes(t)))))
  }

  ghost function FieldBytes(e: Envelope): Bytes {
    e.instance + (KindBytes(PayloadKind(e.payload)) + (e.author + SubjectsBytes(e)))
  }

  ghost function EnvelopeBytes(e: Envelope): Bytes { Prologue() + (FieldBytes(e) + PayloadBytes(e.payload)) }

  ghost predicate FieldsFit(e: Envelope) {
    HashesFit(e.parents) && (e.assertedTime.Some? ==> TimeFits(e.assertedTime.value))
  }

  /** What an envelope must satisfy to be encoded; 64 bytes are left for the signature. */
  ghost predicate EnvelopeFits(e: Envelope) {
    (e.subjectKey.Some? ==> SubjectKeyFits(e.subjectKey.value))
    && FieldsFit(e) && PayloadFits(e.payload) && |EnvelopeBytes(e)| <= 1048576 - 64
  }

  // ----- The combinators write what they should -----

  /** `c` can write `v` if and only if `fits`, and then as `bytes`. */
  ghost predicate Writes<T>(c: Codec<T>, v: T, fits: bool, bytes: Bytes) {
    (c.put(v).Ok? <==> fits) && (fits ==> c.put(v).value == bytes)
  }

  lemma BothWrites<A, B>(a: Codec<A>, b: Codec<B>, v: (A, B), fa: bool, ba: Bytes, fb: bool, bb: Bytes)
    requires Writes(a, v.0, fa, ba) && Writes(b, v.1, fb, bb)
    ensures Writes(Both(a, b), v, fa && fb, ba + bb)
  {
  }

  lemma AsWrites<A, V>(c: Codec<A>, shape: Shape<A, V>, v: V, fits: bool, bytes: Bytes)
    requires shape.from(v).Some? && Writes(c, shape.from(v).value, fits, bytes)
    ensures Writes(As(c, shape), v, fits, bytes)
  {
  }

  lemma OptionWrites<T>(c: Codec<T>, v: Option<T>, fits: bool, bytes: T -> Bytes)
    requires v.Some? ==> Writes(c, v.value, fits, bytes(v.value))
    ensures Writes(OptionWire(c), v, v.Some? ==> fits, OptionBytes(v, bytes))
  {
  }

  lemma TwoBytes(n: u16)
    ensures BigEndian(n, 2) == Two(n)
  {
    assert Digits.Write(Digits.Octets, n / 256, 1) == [n / 256 % 256];
  }

  lemma UnionWrites<V>(
    tagOf: V -> u16, alt: u16 -> Option<Codec<V>>, unknown: WireError, v: V, fits: bool, bytes: Bytes)
    requires alt(tagOf(v)).Some? && Writes(alt(tagOf(v)).value, v, fits, bytes)
    ensures Writes(Union(tagOf, alt, unknown), v, fits, Two(tagOf(v)) + bytes)
  {
    TwoBytes(tagOf(v));
  }

  lemma FourBytes(n: nat)
    ensures BigEndian(n, 4) == Four(n)
  {
    assert Digits.Write(Digits.Octets, n / 256 / 256 / 256, 1) == [n / 256 / 256 / 256 % 256];
    assert Digits.Write(Digits.Octets, n / 256 / 256, 2) == [n / 256 / 256 / 256 % 256, n / 256 / 256 % 256];
    assert Digits.Write(Digits.Octets, n / 256, 3)
        == [n / 256 / 256 / 256 % 256, n / 256 / 256 % 256, n / 256 % 256];
    assert n / 256 / 256 == n / 0x1_0000 && n / 256 / 256 / 256 == n / 0x100_0000;
  }

  lemma HashWrites(h: Hash)
    ensures Writes(HashWire(), h, true, h)
  {
  }

  lemma FlagWrites(v: bool)
    ensures Writes(BoolWire(), v, true, FlagBytes(v))
  {
  }

  lemma TextWrites(s: Text)
    ensures Writes(TextWire(), s, TextFits(s), TextBytes(s))
  {
    FourBytes(|s|);
  }

  lemma EnumsWrite(k: Kind, a: DispositionKind, t: TargetKind)
    ensures Writes(KindWire(), k, true, KindBytes(k))
    ensures Writes(DispositionKindWire(), a, true, ActionBytes(a))
    ensures Writes(TargetKindWire(), t, true, TargetBytes(t))
  {
    TwoBytes(KindTag(k));
    TwoBytes(DispositionTag(a));
    TwoBytes(TargetTag(t));
  }

  // ----- Sets -----

  lemma {:induction false} RanksAscend<T>(reference: T -> Hash, s: seq<T>, i: nat, j: nat)
    requires StrictlySorted(reference, s) && i < j < |s|
    ensures Rank(reference(s[i])) < Rank(reference(s[j]))
    decreases j
  {
    assert Rank(reference(s[j - 1])) < Rank(reference(s[j - 1 + 1]));
    if i < j - 1 {
      RanksAscend(reference, s, i, j - 1);
    }
  }

  /** Strictly sorted neighbours are a strictly ascending set. */
  lemma SortedIff<T>(reference: T -> Hash, s: seq<T>)
    ensures StrictlySorted(reference, s)
       <==> forall i, j :: 0 <= i < j < |s| ==> Digits.LexLess(reference(s[i]), reference(s[j]))
  {
    hide Digits.LexLess, Digits.Value;
    forall i, j | 0 <= i < j < |s|
      ensures Digits.LexLess(reference(s[i]), reference(s[j])) <==> Rank(reference(s[i])) < Rank(reference(s[j]))
      ensures StrictlySorted(reference, s) ==> Digits.LexLess(reference(s[i]), reference(s[j]))
    {
      Digits.LexIsNumeric(Digits.Octets, reference(s[i]), reference(s[j]));
      if StrictlySorted(reference, s) { RanksAscend(reference, s, i, j); }
    }
  }

  lemma {:induction false} AllWrite<T>(c: Codec<T>, s: seq<T>, fits: T -> bool, bytes: T -> Bytes)
    requires forall i :: 0 <= i < |s| ==> Writes(c, s[i], fits(s[i]), bytes(s[i]))
    ensures PutAll(c, s).Ok? <==> forall i :: 0 <= i < |s| ==> fits(s[i])
    ensures PutAll(c, s).Ok? ==> PutAll(c, s).value == Joined(s, bytes)
  {
    if s != [] {
      assert s == [s[0]] + s[1..];
      AllWrite(c, s[1..], fits, bytes);
    }
  }

  lemma SetWrites<T>(c: Codec<T>, reference: T -> Hash, s: seq<T>, fits: T -> bool, bytes: T -> Bytes)
    requires forall i :: 0 <= i < |s| ==> Writes(c, s[i], fits(s[i]), bytes(s[i]))
    ensures Writes(SetWire(c, reference), s, SetFits(s, reference) && forall i :: 0 <= i < |s| ==> fits(s[i]),
                   SetBytes(s, bytes))
  {
    hide StrictlySorted, Digits.LexLess, PutAll, Joined;
    FourBytes(|s|);
    SortedIff(reference, s);
    AllWrite(c, s, fits, bytes);
  }

  lemma HashesWrite(s: seq<Hash>)
    ensures Writes(HashSet(), s, HashesFit(s), HashesBytes(s))
  {
    hide SetFits, SetBytes, SetWire;
    SetWrites(HashWire(), (h: Hash) => h, s, (h: Hash) => true, (h: Hash) => h);
  }

  // ----- Records -----

  lemma SubjectKeyWrites(k: SubjectKey)
    ensures Writes(SubjectKeyWire(), k, TextFits(k.kind) && TextFits(k.namespace) && TextFits(k.value),
                   SubjectKeyBytes(k))
  {
    hide TextWire, TextBytes, TextFits;
    TextWrites(k.kind);
    TextWrites(k.namespace);
    TextWrites(k.value);
  }

  lemma TimeWrites(t: AssertedTime)
    ensures Writes(TimeWire(), t, TimeFits(t), TimeBytes(t))
  {
    hide TextWire, TextBytes, TextFits;
    TextWrites(t.precision);
  }

  lemma PinWrites(p: Pin)
    ensures Writes(PinWire(), p, true, PinBytes(p))
  {
  }

  lemma PinsWrite(p: Pins)
    ensures Writes(PinsWire(), p, true, PinsBytes(p))
  {
    hide PinWire, PinBytes;
    PinWrites(p.source);
    PinWrites(p.target);
  }

  lemma ParentPinsWrite(p: ParentPins)
    ensures Writes(ParentPinsWire(), p, true, ParentPinsBytes(p))
  {
    hide PinsWire, PinsBytes;
    PinsWrite(p.pins);
  }

  lemma DispositionWrites(d: Disposition)
    ensures Writes(DispositionWire(), d, TextFits(d.rationale), DispositionBytes(d))
  {
    hide DispositionKindWire, ActionBytes, TextWire, TextBytes, TextFits;
    EnumsWrite(Genesis, d.action, TargetKind.Event);
    TextWrites(d.rationale);
  }

  lemma PinSetWrites(s: seq<ParentPins>)
    ensures Writes(ParentPinsSet(), s, PinSetFits(s), PinSetBytes(s))
  {
    hide SetFits, SetBytes, SetWire, ParentPinsWire, ParentPinsBytes;
    forall i | 0 <= i < |s| ensures Writes(ParentPinsWire(), s[i], true, ParentPinsBytes(s[i])) {
      ParentPinsWrite(s[i]);
    }
    SetWrites(ParentPinsWire(), (p: ParentPins) => p.parent, s, (p: ParentPins) => true,
              (p: ParentPins) => ParentPinsBytes(p));
  }

  lemma DispositionsWrite(s: seq<Disposition>)
    ensures Writes(DispositionSet(), s, DispositionsFit(s), DispositionsBytes(s))
  {
    hide SetFits, SetBytes, SetWire, DispositionWire, DispositionBytes, TextFits;
    forall i | 0 <= i < |s|
      ensures Writes(DispositionWire(), s[i], TextFits(s[i].rationale), DispositionBytes(s[i]))
    {
      DispositionWrites(s[i]);
    }
    SetWrites(DispositionWire(), (d: Disposition) => d.parent, s, (d: Disposition) => TextFits(d.rationale),
              (d: Disposition) => DispositionBytes(d));
  }

  // ----- Unions -----

  ghost function ValueBody(v: Value): Bytes {
    match v
    case NoValue => []
    case BodyValue(h) => h
    case Grant(issuer, grantee) => issuer + grantee
    case ActiveGrant(h) => h
    case RevokedGrant(h, cascade) => h + FlagBytes(cascade)
    case Heads(s) => HashesBytes(s)
    case RevisionValue(h) => h
    case PinsValue(p) => PinsBytes(p)
    case ParentPinsValue(s) => PinSetBytes(s)
  }

  lemma PlainValueWrites(v: Value)
    requires !v.Heads? && !v.PinsValue? && !v.ParentPinsValue?
    ensures ValueAlternative(ValueTag(v)).Some?
    ensures Writes(ValueAlternative(ValueTag(v)).value, v, ValueFits(v), ValueBody(v))
  {
    hide HashSet, PinsWire, ParentPinsSet;
  }

  lemma ValueBodyWrites(v: Value)
    ensures ValueAlternative(ValueTag(v)).Some?
    ensures Writes(ValueAlternative(ValueTag(v)).value, v, ValueFits(v), ValueBody(v))
  {
    hide HashSet, HashesFit, HashesBytes, PinsWire, PinsBytes, ParentPinsSet, PinSetFits, PinSetBytes, Both;
    match v
    case Heads(s) => HashesWrite(s);
    case PinsValue(p) => PinsWrite(p);
    case ParentPinsValue(s) => PinSetWrites(s);
    case _ => PlainValueWrites(v);
  }

  lemma ValueWrites(v: Value)
    ensures Writes(ValueWire(), v, ValueFits(v), ValueBytes(v))
  {
    hide ValueAlternative, ValueFits, HashesBytes, PinsBytes, PinSetBytes, Writes, Union, FlagBytes;
    ValueBodyWrites(v);
    UnionWrites(ValueTag, ValueAlternative, UnknownValueTag, v, ValueFits(v), ValueBody(v));
    assert ValueBytes(v) == Two(ValueTag(v)) + ValueBody(v);
  }

  lemma SelectionWrites(s: Selection)
    ensures Writes(SelectionWire(), s, true, SelectionBytes(s))
  {
    TwoBytes(SelectionTag(s));
  }

  // ----- Decisions and payloads -----

  lemma DecisionWrites(d: Decision)
    ensures Writes(DecisionWire(), d, DecisionFits(d), DecisionBytes(d))
  {
    hide KindWire, KindBytes, TextWire, TextBytes, TextFits, HashSet, HashesFit, HashesBytes,
      ValueWire, ValueFits, ValueBytes;
    EnumsWrite(d.kind, Selected, TargetKind.Event);
    TextWrites(d.rationale);
    HashesWrite(d.evidence);
    HashesWrite(d.parents);
    ValueWrites(d.old_);
    ValueWrites(d.new_);
  }

  lemma GenesisWrites(p: Payload)
    requires p.GenesisPayload?
    ensures Writes(PayloadWire(PayloadKind(p)), p, PayloadFits(p), PayloadBytes(p))
  {
    hide HashSet, HashesFit, HashesBytes;
    HashesWrite(p.evidence);
  }

  lemma AttestationWrites(p: Payload)
    requires p.AttestationPayload?
    ensures Writes(PayloadWire(PayloadKind(p)), p, PayloadFits(p), PayloadBytes(p))
  {
    hide TargetKindWire, TargetBytes, TextWire, TextBytes, TextFits;
    EnumsWrite(Genesis, Selected, p.targetKind);
    TextWrites(p.artifactKind);
  }

  lemma DecidedPayloadWrites(p: Payload)
    requires p.CorrectionPayload? || p.DelegatePayload? || p.RevokePayload?
    ensures Writes(PayloadWire(PayloadKind(p)), p, PayloadFits(p), PayloadBytes(p))
  {
    hide DecisionWire, DecisionFits, DecisionBytes;
    DecisionWrites(p.decision);
  }

  lemma ResolutionWrites(p: Payload)
    requires p.ResolvePayload?
    ensures Writes(PayloadWire(PayloadKind(p)), p, PayloadFits(p), PayloadBytes(p))
  {
    hide DecisionWire, DecisionFits, DecisionBytes, DispositionSet, DispositionsFit, DispositionsBytes,
      SelectionWire, SelectionBytes;
    SelectionWrites(p.selection);
    DispositionsWrite(p.dispositions);
    DecisionWrites(p.decision);
  }

  lemma PinsAndDecisionWrite(pins: Pins, d: Decision)
    ensures Writes(PinsAndDecision(), (pins, d), DecisionFits(d), PinsBytes(pins) + DecisionBytes(d))
  {
    hide DecisionWire, DecisionFits, DecisionBytes, PinsWire, PinsBytes;
    PinsWrite(pins);
    DecisionWrites(d);
  }

  lemma EdgeAssertWrites(p: Payload)
    requires p.EdgeAssertPayload?
    ensures Writes(PayloadWire(PayloadKind(p)), p, PayloadFits(p), PayloadBytes(p))
  {
    hide PinsAndDecision, DecisionFits, DecisionBytes, PinsBytes, TextWire, TextBytes, TextFits;
    TextWrites(p.relation);
    PinsAndDecisionWrite(p.pins, p.decision);
  }

  lemma EdgeReaffirmWrites(p: Payload)
    requires p.EdgeReaffirmPayload?
    ensures Writes(PayloadWire(PayloadKind(p)), p, PayloadFits(p), PayloadBytes(p))
  {
    hide PinsAndDecision, DecisionFits, DecisionBytes, PinsBytes, ParentPinsSet, PinSetFits, PinSetBytes;
    PinSetWrites(p.oldPins);
    PinsAndDecisionWrite(p.newPins, p.decision);
  }

  /** The payload fields, in the order of their kind and without the kind itself. */
  lemma PayloadWrites(p: Payload)
    ensures Writes(PayloadWire(PayloadKind(p)), p, PayloadFits(p), PayloadBytes(p))
  {
    hide Writes, PayloadWire, PayloadFits, PayloadBytes;
    if p.GenesisPayload? {
      GenesisWrites(p);
    } else if p.AttestationPayload? {
      AttestationWrites(p);
    } else if p.ResolvePayload? {
      ResolutionWrites(p);
    } else if p.EdgeAssertPayload? {
      EdgeAssertWrites(p);
    } else if p.EdgeReaffirmPayload? {
      EdgeReaffirmWrites(p);
    } else {
      DecidedPayloadWrites(p);
    }
  }

  // ----- Envelopes -----

  ghost predicate KeyTextsFit(e: Envelope) {
    e.subjectKey.Some? ==>
      var k := e.subjectKey.value; TextFits(k.kind) && TextFits(k.namespace) && TextFits(k.value)
  }

  lemma TailWrites(e: Envelope)
    ensures Writes(TailWire(), (e.grant, (e.parents, e.assertedTime)), FieldsFit(e),
                   OptionBytes(e.grant, (h: Hash) => h)
                   + (HashesBytes(e.parents) + OptionBytes(e.assertedTime, (t: AssertedTime) => TimeBytes(t))))
  {
    hide HashSet, HashesFit, HashesBytes, TimeWire, TimeFits, TimeBytes, OptionWire, OptionBytes;
    HashesWrite(e.parents);
    if e.assertedTime.Some? { TimeWrites(e.assertedTime.value); }
    OptionWrites(HashWire(), e.grant, true, (h: Hash) => h);
    OptionWrites(TimeWire(), e.assertedTime, e.assertedTime.Some? && TimeFits(e.assertedTime.value),
                 (t: AssertedTime) => TimeBytes(t));
  }

  lemma SubjectsWrite(e: Envelope)
    ensures Writes(SubjectsWire(), FieldsOf(e).1.1.1, KeyTextsFit(e) && FieldsFit(e), SubjectsBytes(e))
  {
    hide TailWire, FieldsFit, SubjectKeyWire, SubjectKeyBytes, TextFits, OptionWire, OptionBytes, HashesBytes,
      TimeBytes;
    TailWrites(e);
    if e.subjectKey.Some? { SubjectKeyWrites(e.subjectKey.value); }
    OptionWrites(HashWire(), e.subject, true, (h: Hash) => h);
    OptionWrites(SubjectKeyWire(), e.subjectKey, KeyTextsFit(e), (k: SubjectKey) => SubjectKeyBytes(k));
  }

  lemma FieldsWrite(e: Envelope)
    ensures Writes(FieldsWire(), FieldsOf(e), KeyTextsFit(e) && FieldsFit(e), FieldBytes(e))
  {
    hide SubjectsWire, SubjectsBytes, FieldsFit, KeyTextsFit, KindWire, KindBytes;
    SubjectsWrite(e);
    EnumsWrite(PayloadKind(e.payload), Selected, TargetKind.Event);
  }

  lemma HeaderIsPrologue()
    ensures Header() == Prologue()
  {
    hide BigEndian;
    FourBytes(11);
    TwoBytes(1);
    TwoBytes(0);
  }

  /** The wire format: an envelope has a preimage if and only if it fits, and the preimage is the
      literal layout. */
  lemma PreimageIsLayout(e: Envelope)
    ensures Preimage(e).Ok? <==> EnvelopeFits(e)
    ensures Preimage(e).Ok? ==> Preimage(e).value == EnvelopeBytes(e)
  {
    hide FieldsWire, FieldsFit, FieldBytes, PayloadWire, PayloadFits, PayloadBytes, Header, Prologue;
    HeaderIsPrologue();
    FieldsWrite(e);
    PayloadWrites(e.payload);
  }

  /** The fixed part of a preimage: domain, versions, instance, kind and author. */
  lemma PreimageOffsets(e: Envelope)
    requires Preimage(e).Ok?
    ensures var p := Preimage(e).value;
            |p| >= 85 && p[..19] == Prologue() && p[19..51] == e.instance
            && p[51..53] == KindBytes(PayloadKind(e.payload)) && p[53..85] == e.author
  {
    hide Preimage, PayloadBytes, SubjectsBytes;
    PreimageIsLayout(e);
    var k := KindBytes(PayloadKind(e.payload));
    assert |Prologue()| == 19 && |k| == 2;
    hide Prologue, KindBytes;
  }

  /** Decoding reads exactly this layout, followed by a 64-byte signature by the author. */
  lemma DecodesLayout(sha: Sha, scheme: Scheme, bytes: Bytes, e: Envelope)
    ensures Decode(sha, scheme, bytes).Ok? && Decode(sha, scheme, bytes).value.envelope == e
       <==> EnvelopeFits(e) && |bytes| == |EnvelopeBytes(e)| + 64 && EnvelopeBytes(e) <= bytes
            && scheme.isKey(e.author)
            && scheme.verifies(e.author, EnvelopeBytes(e), bytes[|EnvelopeBytes(e)|..])
  {
    hide Decode, Preimage, EnvelopeFits, EnvelopeBytes;
    PreimageIsLayout(e);
    DecodeIff(sha, scheme, bytes, e);
  }
}

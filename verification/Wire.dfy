/** The v1 records, enumerations and tagged unions of crates/cc-core/src/v1.rs on the wire. */
module Wire {
  import opened Bytes
  import opened Utf8
  import opened Codec

  datatype Kind =
    Genesis | Correction | Delegate | Revoke | Resolve | EdgeAssert | EdgeReaffirm | Attestation
  datatype DispositionKind = Selected | Merged | NotSelected
  datatype TargetKind = Event | Revision

  datatype SubjectKey = SubjectKey(kind: Text, namespace: Text, value: Text)
  datatype AssertedTime = AssertedTime(coordinate: Hash, precision: Text)
  datatype Pin = Pin(subject: Hash, basis: Hash, revision: Hash, body: Hash)
  datatype Pins = Pins(source: Pin, target: Pin)
  datatype ParentPins = ParentPins(parent: Hash, pins: Pins)
  datatype Disposition = Disposition(parent: Hash, action: DispositionKind, rationale: Text)

  datatype Value =
    | NoValue
    | BodyValue(body: Hash)
    | Grant(issuer: Hash, grantee: Hash)
    | ActiveGrant(active: Hash)
    | RevokedGrant(revoked: Hash, cascade: bool)
    | Heads(heads: seq<Hash>)
    | RevisionValue(revision: Hash)
    | PinsValue(pins: Pins)
    | ParentPinsValue(parentPins: seq<ParentPins>)

  datatype Decision = Decision(
    kind: Kind, rationale: Text, evidence: seq<Hash>, parents: seq<Hash>, old_: Value, new_: Value)

  datatype Selection = RevisionSelection(selected: Hash) | MergedBody(merged: Hash)

  datatype Payload =
    | GenesisPayload(nonce: Hash, body: Hash, evidence: seq<Hash>)
    | CorrectionPayload(body: Hash, decision: Decision)
    | DelegatePayload(grantee: Hash, issuer: Hash, decision: Decision)
    | RevokePayload(target: Hash, cascade: bool, decision: Decision)
    | ResolvePayload(selection: Selection, dispositions: seq<Disposition>, decision: Decision)
    | EdgeAssertPayload(relation: Text, pins: Pins, decision: Decision)
    | EdgeReaffirmPayload(edge: Hash, oldPins: seq<ParentPins>, newPins: Pins, decision: Decision)
    | AttestationPayload(targetKind: TargetKind, target: Hash, artifactKind: Text, artifact: Hash)

  // ----- Enumerations -----

  function KindTag(k: Kind): u16 {
    match k
    case Genesis => 1 case Correction => 2 case Delegate => 3 case Revoke => 4
    case Resolve => 5 case EdgeAssert => 6 case EdgeReaffirm => 7 case Attestation => 8
  }

  function KindOf(t: u16): Option<Kind> {
    if t == 1 then Some(Genesis) else if t == 2 then Some(Correction) else if t == 3 then Some(Delegate)
    else if t == 4 then Some(Revoke) else if t == 5 then Some(Resolve) else if t == 6 then Some(EdgeAssert)
    else if t == 7 then Some(EdgeReaffirm) else if t == 8 then Some(Attestation) else None
  }

  function DispositionTag(k: DispositionKind): u16 {
    match k case Selected => 1 case Merged => 2 case NotSelected => 3
  }

  function DispositionOf(t: u16): Option<DispositionKind> {
    if t == 1 then Some(Selected) else if t == 2 then Some(Merged) else if t == 3 then Some(NotSelected) else None
  }

  function TargetTag(k: TargetKind): u16 { if k.Event? then 1 else 2 }

  function TargetOf(t: u16): Option<TargetKind> {
    if t == 1 then Some(TargetKind.Event) else if t == 2 then Some(Revision) else None
  }

  function KindWire(): Codec<Kind> { Tags(KindTag, KindOf) }
  function DispositionKindWire(): Codec<DispositionKind> { Tags(DispositionTag, DispositionOf) }
  function TargetKindWire(): Codec<TargetKind> { Tags(TargetTag, TargetOf) }

  lemma KindTags()
    ensures Lawful(KindWire())
  {
    hide Lawful, Tags;
    TagsLawful(KindTag, KindOf);
  }

  lemma DispositionTags()
    ensures Lawful(DispositionKindWire())
  {
    hide Lawful, Tags;
    TagsLawful(DispositionTag, DispositionOf);
  }

  lemma EnumsLawful()
    ensures Lawful(KindWire()) && Lawful(DispositionKindWire()) && Lawful(TargetKindWire())
  {
    hide Lawful, Tags;
    KindTags();
    DispositionTags();
    TagsLawful(TargetTag, TargetOf);
  }

  // ----- Records: their fields one after another -----

  function SubjectKeyShape(): Shape<(Text, (Text, Text)), SubjectKey> {
    Shape((t: (Text, (Text, Text))) => SubjectKey(t.0, t.1.0, t.1.1),
          (k: SubjectKey) => Some((k.kind, (k.namespace, k.value))))
  }

  function TimeShape(): Shape<(Hash, Text), AssertedTime> {
    Shape((t: (Hash, Text)) => AssertedTime(t.0, t.1), (a: AssertedTime) => Some((a.coordinate, a.precision)))
  }

  function PinShape(): Shape<(Hash, (Hash, (Hash, Hash))), Pin> {
    Shape((t: (Hash, (Hash, (Hash, Hash)))) => Pin(t.0, t.1.0, t.1.1.0, t.1.1.1),
          (p: Pin) => Some((p.subject, (p.basis, (p.revision, p.body)))))
  }

  function PinsShape(): Shape<(Pin, Pin), Pins> {
    Shape((t: (Pin, Pin)) => Pins(t.0, t.1), (p: Pins) => Some((p.source, p.target)))
  }

  function ParentPinsShape(): Shape<(Hash, Pins), ParentPins> {
    Shape((t: (Hash, Pins)) => ParentPins(t.0, t.1), (p: ParentPins) => Some((p.parent, p.pins)))
  }

  function DispositionShape(): Shape<(Hash, (DispositionKind, Text)), Disposition> {
    Shape((t: (Hash, (DispositionKind, Text))) => Disposition(t.0, t.1.0, t.1.1),
          (d: Disposition) => Some((d.parent, (d.action, d.rationale))))
  }

  function SubjectKeyWire(): Codec<SubjectKey> { As(Both(TextWire(), Both(TextWire(), TextWire())), SubjectKeyShape()) }
  function TimeWire(): Codec<AssertedTime> { As(Both(HashWire(), TextWire()), TimeShape()) }
  function PinWire(): Codec<Pin> { As(Both(HashWire(), Both(HashWire(), Both(HashWire(), HashWire()))), PinShape()) }
  function PinsWire(): Codec<Pins> { As(Both(PinWire(), PinWire()), PinsShape()) }
  function ParentPinsWire(): Codec<ParentPins> { As(Both(HashWire(), PinsWire()), ParentPinsShape()) }
  function DispositionWire(): Codec<Disposition> {
    As(Both(HashWire(), Both(DispositionKindWire(), TextWire())), DispositionShape())
  }

  function HashSet(): Codec<seq<Hash>> { SetWire(HashWire(), (h: Hash) => h) }
  function ParentPinsSet(): Codec<seq<ParentPins>> { SetWire(ParentPinsWire(), (p: ParentPins) => p.parent) }
  function DispositionSet(): Codec<seq<Disposition>> { SetWire(DispositionWire(), (d: Disposition) => d.parent) }

  lemma BasicsLawful()
    ensures Lawful(HashWire()) && Lawful(TextWire()) && Lawful(BoolWire())
    ensures Lawful(KindWire()) && Lawful(DispositionKindWire()) && Lawful(TargetKindWire())
  {
    HashLawful();
    TextLawful();
    BoolLawful();
    EnumsLawful();
  }

  lemma KeyAndTimeLawful()
    ensures Lawful(SubjectKeyWire()) && Lawful(TimeWire())
  {
    hide Lawful;
    BasicsLawful();
    BothLawful(TextWire(), TextWire());
    BothLawful(TextWire(), Both(TextWire(), TextWire()));
    AsLawful(Both(TextWire(), Both(TextWire(), TextWire())), SubjectKeyShape());
    BothLawful(HashWire(), TextWire());
    AsLawful(Both(HashWire(), TextWire()), TimeShape());
  }

  lemma PinsLawful()
    ensures Lawful(PinWire()) && Lawful(PinsWire()) && Lawful(ParentPinsWire())
  {
    hide Lawful;
    HashLawful();
    BothLawful(HashWire(), HashWire());
    BothLawful(HashWire(), Both(HashWire(), HashWire()));
    BothLawful(HashWire(), Both(HashWire(), Both(HashWire(), HashWire())));
    AsLawful(Both(HashWire(), Both(HashWire(), Both(HashWire(), HashWire()))), PinShape());
    BothLawful(PinWire(), PinWire());
    AsLawful(Both(PinWire(), PinWire()), PinsShape());
    BothLawful(HashWire(), PinsWire());
    AsLawful(Both(HashWire(), PinsWire()), ParentPinsShape());
  }

  lemma SetsLawful()
    ensures Lawful(HashSet()) && Lawful(ParentPinsSet()) && Lawful(DispositionSet())
  {
    hide Lawful;
    BasicsLawful();
    PinsLawful();
    SetLawful(HashWire(), (h: Hash) => h);
    SetLawful(ParentPinsWire(), (p: ParentPins) => p.parent);
    BothLawful(DispositionKindWire(), TextWire());
    BothLawful(HashWire(), Both(DispositionKindWire(), TextWire()));
    AsLawful(Both(HashWire(), Both(DispositionKindWire(), TextWire())), DispositionShape());
    SetLawful(DispositionWire(), (d: Disposition) => d.parent);
  }

  // ----- Tagged unions -----

  function NoValueShape(): Shape<(), Value> {
    Shape((_: ()) => NoValue, (v: Value) => if v.NoValue? then Some(()) else None)
  }

  function BodyShape(): Shape<Hash, Value> {
    Shape((h: Hash) => BodyValue(h), (v: Value) => if v.BodyValue? then Some(v.body) else None)
  }

  function GrantShape(): Shape<(Hash, Hash), Value> {
    Shape((t: (Hash, Hash)) => Grant(t.0, t.1), (v: Value) => if v.Grant? then Some((v.issuer, v.grantee)) else None)
  }

  function ActiveShape(): Shape<Hash, Value> {
    Shape((h: Hash) => ActiveGrant(h), (v: Value) => if v.ActiveGrant? then Some(v.active) else None)
  }

  function RevokedShape(): Shape<(Hash, bool), Value> {
    Shape((t: (Hash, bool)) => RevokedGrant(t.0, t.1),
          (v: Value) => if v.RevokedGrant? then Some((v.revoked, v.cascade)) else None)
  }

  function HeadsShape(): Shape<seq<Hash>, Value> {
    Shape((s: seq<Hash>) => Heads(s), (v: Value) => if v.Heads? then Some(v.heads) else None)
  }

  function RevisionShape(): Shape<Hash, Value> {
    Shape((h: Hash) => RevisionValue(h), (v: Value) => if v.RevisionValue? then Some(v.revision) else None)
  }

  function PinsValueShape(): Shape<Pins, Value> {
    Shape((p: Pins) => PinsValue(p), (v: Value) => if v.PinsValue? then Some(v.pins) else None)
  }

  function ParentPinsValueShape(): Shape<seq<ParentPins>, Value> {
    Shape((s: seq<ParentPins>) => ParentPinsValue(s),
          (v: Value) => if v.ParentPinsValue? then Some(v.parentPins) else None)
  }

  function ValueTag(v: Value): u16 {
    match v
    case NoValue => 0 case BodyValue(_) => 1 case Grant(_, _) => 2 case ActiveGrant(_) => 3
    case RevokedGrant(_, _) => 4 case Heads(_) => 5 case RevisionValue(_) => 6 case PinsValue(_) => 7
    case ParentPinsValue(_) => 8
  }

  function ValueAlternative(t: u16): Option<Codec<Value>> {
    if t == 0 then Some(As(UnitWire(), NoValueShape()))
    else if t == 1 then Some(As(HashWire(), BodyShape()))
    else if t == 2 then Some(As(Both(HashWire(), HashWire()), GrantShape()))
    else if t == 3 then Some(As(HashWire(), ActiveShape()))
    else if t == 4 then Some(As(Both(HashWire(), BoolWire()), RevokedShape()))
    else if t == 5 then Some(As(HashSet(), HeadsShape()))
    else if t == 6 then Some(As(HashWire(), RevisionShape()))
    else if t == 7 then Some(As(PinsWire(), PinsValueShape()))
    else if t == 8 then Some(As(ParentPinsSet(), ParentPinsValueShape()))
    else None
  }

  function ValueWire(): Codec<Value> { Union(ValueTag, ValueAlternative, UnknownValueTag) }

  lemma ValueAlternativeLawful(t: u16)
    requires ValueAlternative(t).Some?
    ensures Lawful(ValueAlternative(t).value)
    ensures forall v :: ValueAlternative(t).value.put(v).Ok? ==> ValueTag(v) == t
  {
    hide Lawful, As, Both;
    BasicsLawful();
    PinsLawful();
    SetsLawful();
    if t == 0 {
      UnitLawful();
      forall a: () ensures NoValueShape().from(NoValueShape().to(a)) == Some(a) { assert a == (); }
      AsFacts(UnitWire(), NoValueShape());
    } else if t == 1 {
      AsFacts(HashWire(), BodyShape());
    } else if t == 2 {
      BothLawful(HashWire(), HashWire());
      AsFacts(Both(HashWire(), HashWire()), GrantShape());
    } else if t == 3 {
      AsFacts(HashWire(), ActiveShape());
    } else if t == 4 {
      BothLawful(HashWire(), BoolWire());
      AsFacts(Both(HashWire(), BoolWire()), RevokedShape());
    } else if t == 5 {
      AsFacts(HashSet(), HeadsShape());
    } else if t == 6 {
      AsFacts(HashWire(), RevisionShape());
    } else if t == 7 {
      AsFacts(PinsWire(), PinsValueShape());
    } else {
      AsFacts(ParentPinsSet(), ParentPinsValueShape());
    }
  }

  lemma ValueLawful()
    ensures Lawful(ValueWire())
  {
    hide Lawful, ValueAlternative;
    forall t: u16 | ValueAlternative(t).Some?
      ensures Lawful(ValueAlternative(t).value)
      ensures forall v :: ValueAlternative(t).value.put(v).Ok? ==> ValueTag(v) == t
    {
      ValueAlternativeLawful(t);
    }
    UnionLawful(ValueTag, ValueAlternative, UnknownValueTag);
  }

  function SelectedShape(): Shape<Hash, Selection> {
    Shape((h: Hash) => RevisionSelection(h), (s: Selection) => if s.RevisionSelection? then Some(s.selected) else None)
  }

  function MergedShape(): Shape<Hash, Selection> {
    Shape((h: Hash) => MergedBody(h), (s: Selection) => if s.MergedBody? then Some(s.merged) else None)
  }

  function SelectionTag(s: Selection): u16 { if s.RevisionSelection? then 0 else 1 }

  function SelectionAlternative(t: u16): Option<Codec<Selection>> {
    if t == 0 then Some(As(HashWire(), SelectedShape()))
    else if t == 1 then Some(As(HashWire(), MergedShape()))
    else None
  }

  function SelectionWire(): Codec<Selection> { Union(SelectionTag, SelectionAlternative, UnknownSelectionTag) }

  lemma SelectionLawful()
    ensures Lawful(SelectionWire())
  {
    HashLawful();
    AsFacts(HashWire(), SelectedShape());
    AsFacts(HashWire(), MergedShape());
    hide Lawful, As;
    UnionLawful(SelectionTag, SelectionAlternative, UnknownSelectionTag);
  }

  // ----- Decisions -----

  type DecisionFields = (Kind, (Text, (seq<Hash>, (seq<Hash>, (Value, Value)))))

  function DecisionShape(): Shape<DecisionFields, Decision> {
    Shape((t: DecisionFields) => Decision(t.0, t.1.0, t.1.1.0, t.1.1.1.0, t.1.1.1.1.0, t.1.1.1.1.1),
          (d: Decision) => Some((d.kind, (d.rationale, (d.evidence, (d.parents, (d.old_, d.new_)))))))
  }

  function ValuesWire(): Codec<(Value, Value)> { Both(ValueWire(), ValueWire()) }
  function ReferencesWire(): Codec<(seq<Hash>, (seq<Hash>, (Value, Value)))> {
    Both(HashSet(), Both(HashSet(), ValuesWire()))
  }

  function DecisionWire(): Codec<Decision> {
    As(Both(KindWire(), Both(TextWire(), ReferencesWire())), DecisionShape())
  }

  lemma DecisionLawful()
    ensures Lawful(DecisionWire())
  {
    hide Lawful;
    BasicsLawful();
    SetsLawful();
    ValueLawful();
    BothLawful(ValueWire(), ValueWire());
    BothLawful(HashSet(), ValuesWire());
    BothLawful(HashSet(), Both(HashSet(), ValuesWire()));
    BothLawful(TextWire(), ReferencesWire());
    BothLawful(KindWire(), Both(TextWire(), ReferencesWire()));
    AsLawful(Both(KindWire(), Both(TextWire(), ReferencesWire())), DecisionShape());
  }

  // ----- Payloads, whose kind is written earlier in the envelope -----

  function PayloadKind(p: Payload): Kind {
    match p
    case GenesisPayload(_, _, _) => Genesis
    case CorrectionPayload(_, _) => Correction
    case DelegatePayload(_, _, _) => Delegate
    case RevokePayload(_, _, _) => Revoke
    case ResolvePayload(_, _, _) => Resolve
    case EdgeAssertPayload(_, _, _) => EdgeAssert
    case EdgeReaffirmPayload(_, _, _, _) => EdgeReaffirm
    case AttestationPayload(_, _, _, _) => Attestation
  }

  function GenesisShape(): Shape<(Hash, (Hash, seq<Hash>)), Payload> {
    Shape((t: (Hash, (Hash, seq<Hash>))) => GenesisPayload(t.0, t.1.0, t.1.1),
          (p: Payload) => if p.GenesisPayload? then Some((p.nonce, (p.body, p.evidence))) else None)
  }

  function CorrectionShape(): Shape<(Hash, Decision), Payload> {
    Shape((t: (Hash, Decision)) => CorrectionPayload(t.0, t.1),
          (p: Payload) => if p.CorrectionPayload? then Some((p.body, p.decision)) else None)
  }

  function DelegateShape(): Shape<(Hash, (Hash, Decision)), Payload> {
    Shape((t: (Hash, (Hash, Decision))) => DelegatePayload(t.0, t.1.0, t.1.1),
          (p: Payload) => if p.DelegatePayload? then Some((p.grantee, (p.issuer, p.decision))) else None)
  }

  function RevokeShape(): Shape<(Hash, (bool, Decision)), Payload> {
    Shape((t: (Hash, (bool, Decision))) => RevokePayload(t.0, t.1.0, t.1.1),
          (p: Payload) => if p.RevokePayload? then Some((p.target, (p.cascade, p.decision))) else None)
  }

  function ResolveShape(): Shape<(Selection, (seq<Disposition>, Decision)), Payload> {
    Shape((t: (Selection, (seq<Disposition>, Decision))) => ResolvePayload(t.0, t.1.0, t.1.1),
          (p: Payload) => if p.ResolvePayload? then Some((p.selection, (p.dispositions, p.decision))) else None)
  }

  function EdgeAssertShape(): Shape<(Text, (Pins, Decision)), Payload> {
    Shape((t: (Text, (Pins, Decision))) => EdgeAssertPayload(t.0, t.1.0, t.1.1),
          (p: Payload) => if p.EdgeAssertPayload? then Some((p.relation, (p.pins, p.decision))) else None)
  }

  function EdgeReaffirmShape(): Shape<(Hash, (seq<ParentPins>, (Pins, Decision))), Payload> {
    Shape((t: (Hash, (seq<ParentPins>, (Pins, Decision)))) => EdgeReaffirmPayload(t.0, t.1.0, t.1.1.0, t.1.1.1),
          (p: Payload) => if p.EdgeReaffirmPayload? then Some((p.edge, (p.oldPins, (p.newPins, p.decision)))) else None)
  }

  function AttestationShape(): Shape<(TargetKind, (Hash, (Text, Hash))), Payload> {
    Shape((t: (TargetKind, (Hash, (Text, Hash)))) => AttestationPayload(t.0, t.1.0, t.1.1.0, t.1.1.1),
          (p: Payload) =>
            if p.AttestationPayload? then Some((p.targetKind, (p.target, (p.artifactKind, p.artifact)))) else None)
  }

  function PinsAndDecision(): Codec<(Pins, Decision)> { Both(PinsWire(), DecisionWire()) }

  function PayloadWire(k: Kind): Codec<Payload> {
    match k
    case Genesis => As(Both(HashWire(), Both(HashWire(), HashSet())), GenesisShape())
    case Correction => As(Both(HashWire(), DecisionWire()), CorrectionShape())
    case Delegate => As(Both(HashWire(), Both(HashWire(), DecisionWire())), DelegateShape())
    case Revoke => As(Both(HashWire(), Both(BoolWire(), DecisionWire())), RevokeShape())
    case Resolve => As(Both(SelectionWire(), Both(DispositionSet(), DecisionWire())), ResolveShape())
    case EdgeAssert => As(Both(TextWire(), PinsAndDecision()), EdgeAssertShape())
    case EdgeReaffirm => As(Both(HashWire(), Both(ParentPinsSet(), PinsAndDecision())), EdgeReaffirmShape())
    case Attestation => As(Both(TargetKindWire(), Both(HashWire(), Both(TextWire(), HashWire()))), AttestationShape())
  }

  /** A payload codec is lawful and writes and reads only payloads of its own kind. */
  ghost predicate PayloadOk(k: Kind) {
    Lawful(PayloadWire(k))
    && (forall p :: PayloadWire(k).put(p).Ok? ==> PayloadKind(p) == k)
    && forall b :: PayloadWire(k).get(b).Ok? ==> PayloadKind(PayloadWire(k).get(b).value.0) == k
  }

  lemma GenesisLawful()
    ensures PayloadOk(Genesis)
  {
    hide Lawful, As, Both;
    BasicsLawful();
    SetsLawful();
    BothLawful(HashWire(), HashSet());
    BothLawful(HashWire(), Both(HashWire(), HashSet()));
    AsFacts(Both(HashWire(), Both(HashWire(), HashSet())), GenesisShape());
  }

  lemma AttestationLawful()
    ensures PayloadOk(Attestation)
  {
    hide Lawful, As, Both;
    BasicsLawful();
    BothLawful(TextWire(), HashWire());
    BothLawful(HashWire(), Both(TextWire(), HashWire()));
    BothLawful(TargetKindWire(), Both(HashWire(), Both(TextWire(), HashWire())));
    AsFacts(Both(TargetKindWire(), Both(HashWire(), Both(TextWire(), HashWire()))), AttestationShape());
  }

  lemma CorrectionLawful()
    ensures PayloadOk(Correction)
  {
    hide Lawful, As, Both, DecisionWire;
    BasicsLawful();
    DecisionLawful();
    BothLawful(HashWire(), DecisionWire());
    AsFacts(Both(HashWire(), DecisionWire()), CorrectionShape());
  }

  lemma DelegateLawful()
    ensures PayloadOk(Delegate)
  {
    hide Lawful, As, Both, DecisionWire;
    BasicsLawful();
    DecisionLawful();
    BothLawful(HashWire(), DecisionWire());
    BothLawful(HashWire(), Both(HashWire(), DecisionWire()));
    AsFacts(Both(HashWire(), Both(HashWire(), DecisionWire())), DelegateShape());
  }

  lemma RevokeLawful()
    ensures PayloadOk(Revoke)
  {
    hide Lawful, As, Both, DecisionWire;
    BasicsLawful();
    DecisionLawful();
    BothLawful(BoolWire(), DecisionWire());
    BothLawful(HashWire(), Both(BoolWire(), DecisionWire()));
    AsFacts(Both(HashWire(), Both(BoolWire(), DecisionWire())), RevokeShape());
  }

  lemma ResolutionLawful()
    ensures PayloadOk(Resolve)
  {
    hide Lawful, As, Both, DecisionWire, DispositionSet, SelectionWire;
    SetsLawful();
    DecisionLawful();
    SelectionLawful();
    BothLawful(DispositionSet(), DecisionWire());
    BothLawful(SelectionWire(), Both(DispositionSet(), DecisionWire()));
    AsFacts(Both(SelectionWire(), Both(DispositionSet(), DecisionWire())), ResolveShape());
  }

  lemma EdgeAssertLawful()
    ensures PayloadOk(EdgeAssert)
  {
    hide Lawful, As, Both, DecisionWire, PinsWire;
    BasicsLawful();
    PinsLawful();
    DecisionLawful();
    BothLawful(PinsWire(), DecisionWire());
    BothLawful(TextWire(), PinsAndDecision());
    AsFacts(Both(TextWire(), PinsAndDecision()), EdgeAssertShape());
  }

  lemma EdgeReaffirmLawful()
    ensures PayloadOk(EdgeReaffirm)
  {
    hide Lawful, As, Both, DecisionWire, ParentPinsSet, PinsWire;
    BasicsLawful();
    SetsLawful();
    PinsLawful();
    DecisionLawful();
    BothLawful(PinsWire(), DecisionWire());
    BothLawful(ParentPinsSet(), PinsAndDecision());
    BothLawful(HashWire(), Both(ParentPinsSet(), PinsAndDecision()));
    AsFacts(Both(HashWire(), Both(ParentPinsSet(), PinsAndDecision())), EdgeReaffirmShape());
  }

  lemma PayloadLawful(k: Kind)
    ensures PayloadOk(k)
  {
    hide PayloadOk;
    match k
    case Genesis => GenesisLawful();
    case Attestation => AttestationLawful();
    case Correction => CorrectionLawful();
    case Delegate => DelegateLawful();
    case Revoke => RevokeLawful();
    case Resolve => ResolutionLawful();
    case EdgeAssert => EdgeAssertLawful();
    case EdgeReaffirm => EdgeReaffirmLawful();
  }
}

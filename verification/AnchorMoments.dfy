/** The moments behind the anchors, over whole runs: what is stored, and what supersedes what. */
module AnchorMoments {
  import opened Bytes
  import opened Merkle
  import opened RootStream
  import opened Moments
  import opened RootStreamSafety
  import opened Anchors
  import opened LedgerRuns
  import opened AnchorRuns
  import Ots

  // ----- What a run hands to the ledger -----

  /** The events that a step hands to the ledger, stored or not. */
  ghost function Handed(sha: Sha, db: Db, op: Op): set<Event> {
    match op
    case Arrive(e) => {e}
    case Record(p, now) => {RootMoment(sha, p, now)}
    case Stamp(root, proof, calendar, now, crash) =>
      if StampSigns(db, root, proof, calendar, crash)
      then {PendingMoment(sha, RootById(db.roots, root).value, sha(proof), calendar, now)} else {}
    case Confirm(root, height, txid, now, _) =>
      if ConfirmSigns(db, root, txid)
      then {ConfirmedMoment(sha, RootById(db.roots, root).value, db.anchors[root], height, txid, now)} else {}
    case _ => {}
  }

  ghost function History(sha: Sha, ops: seq<Op>): set<Event> {
    if ops == [] then {}
    else
      var k := |ops| - 1;
      History(sha, ops[..k]) + Handed(sha, Run(sha, EMPTY, ops[..k]), ops[k])
  }

  ghost function Payloads(s: set<Event>): set<Bytes> { set e | e in s :: e.payload }

  /** Every event that arrives from outside is a signed one. */
  ghost predicate ArrivalsAuthentic(sha: Sha, ops: seq<Op>) {
    forall op :: op in ops && op.Arrive? ==> Authentic(sha, op.event)
  }

  lemma HandedAuthentic(sha: Sha, db: Db, op: Op, e: Event)
    requires e in Handed(sha, db, op) && (op.Arrive? ==> Authentic(sha, op.event))
    ensures Authentic(sha, e)
  {
    hide Authentic, MomentEvent, RootById, Ots.CommitsTo;
    match op
    case Arrive(_) =>
    case Record(p, now) => MomentIsAuthentic(sha, now, None, sha(RootBody(p)));
    case Stamp(root, proof, calendar, now, _) =>
      var p := RootById(db.roots, root).value;
      MomentIsAuthentic(
        sha, now, None, sha(AnchorBody(AnchorFacts(p.root, p.height, Pending, sha(proof), calendar, None, None))));
    case Confirm(root, height, txid, now, _) =>
      var p, a := RootById(db.roots, root).value, db.anchors[root];
      var facts := AnchorFacts(p.root, p.height, Confirmed, a.blobHash, a.calendar, Some(height), txid);
      MomentIsAuthentic(sha, now, Some(a.moment), sha(AnchorBody(facts)));
  }

  lemma {:induction false} HistoryAuthentic(sha: Sha, ops: seq<Op>, e: Event)
    requires ArrivalsAuthentic(sha, ops) && e in History(sha, ops)
    ensures Authentic(sha, e)
  {
    hide Authentic, Handed;
    var k := |ops| - 1;
    assert ops[k] in ops;
    if e in History(sha, ops[..k]) {
      HistoryAuthentic(sha, ops[..k], e);
    } else {
      HandedAuthentic(sha, Run(sha, EMPTY, ops[..k]), ops[k], e);
    }
  }

  /** A step stores nothing but what it hands over, and drops nothing. */
  lemma StepStores(sha: Sha, db: Db, op: Op)
    ensures var db' := Step(sha, db, op);
            db'.events == db.events
            || exists e :: e in Handed(sha, db, op) && db'.events == Commit(db.events, e)
  {
    hide Commit, MomentEvent, RootById, Ots.CommitsTo, LatestRoot, NewLeaves, SealedRow;
    if op.Stamp? {
      StampEffect(sha, db, op);
    } else if op.Confirm? {
      ConfirmEffect(sha, db, op);
    }
  }

  lemma EventsGrow(sha: Sha, db: Db, op: Op)
    ensures db.events <= Step(sha, db, op).events
  {
    hide Step, Handed, EventIds;
    StepStores(sha, db, op);
  }

  lemma {:induction false} StoredFromHistory(sha: Sha, ops: seq<Op>, e: Event)
    requires e in Run(sha, EMPTY, ops).events
    ensures e in History(sha, ops)
  {
    hide Step, Handed, EventIds;
    var k := |ops| - 1;
    var db := Run(sha, EMPTY, ops[..k]);
    StepStores(sha, db, ops[k]);
    if e in db.events {
      StoredFromHistory(sha, ops[..k], e);
    }
  }

  // ----- Moments land -----

  lemma SameIdSameMoment(sha: Sha, s: set<Event>, x: Event, time: Tick, supersedes: Option<EventId>, body: Hash)
    requires !Collides(sha, Payloads(s)) && x in s && Authentic(sha, x)
    requires MomentEvent(sha, time, supersedes, body) in s
    requires x.id == MomentEvent(sha, time, supersedes, body).id
    ensures x == MomentEvent(sha, time, supersedes, body)
  {
    hide MomentCanon;
    var e := MomentEvent(sha, time, supersedes, body);
    assert x.payload in Payloads(s) && e.payload in Payloads(s);
    assert x.payload == e.payload;
    assert e.payload == MomentCanon(time, supersedes, NODE_ZERO, body);
  }

  /** A moment signed by the last step of a run is stored and is the only event with its id, unless
      two payloads of the run collide. */
  lemma SignedMomentLands(
    sha: Sha, ops: seq<Op>, time: Tick, supersedes: Option<EventId>, body: Hash)
    requires ops != [] && ArrivalsAuthentic(sha, ops) && !Collides(sha, Payloads(History(sha, ops)))
    requires MomentEvent(sha, time, supersedes, body) in Handed(sha, Run(sha, EMPTY, ops[..|ops| - 1]), ops[|ops| - 1])
    requires Lands(Run(sha, EMPTY, ops[..|ops| - 1]), Run(sha, EMPTY, ops), MomentEvent(sha, time, supersedes, body))
    ensures MomentEvent(sha, time, supersedes, body) in Run(sha, EMPTY, ops).events
  {
    hide Handed, MomentEvent, Step, Collides, Authentic;
    var k, e := |ops| - 1, MomentEvent(sha, time, supersedes, body);
    var db := Run(sha, EMPTY, ops[..k]);
    if e !in Run(sha, EMPTY, ops).events {
      var x :| x in db.events && x.id == e.id && x != e;
      StoredFromHistory(sha, ops[..k], x);
      HistoryAuthentic(sha, ops, x);
      SameIdSameMoment(sha, History(sha, ops), x, time, supersedes, body);
    }
  }

  lemma HistoryPrefix(sha: Sha, ops: seq<Op>)
    requires ops != [] && ArrivalsAuthentic(sha, ops) && !Collides(sha, Payloads(History(sha, ops)))
    ensures var before := ops[..|ops| - 1];
            ArrivalsAuthentic(sha, before) && !Collides(sha, Payloads(History(sha, before)))
  {
    hide Authentic, Handed;
    var before := ops[..|ops| - 1];
    CollidesMonotone(sha, Payloads(History(sha, before)), Payloads(History(sha, ops)));
  }

  /** `e` is the moment that recorded this pending anchor. */
  ghost predicate RecordsStamp(sha: Sha, root: Hash, a: Anchor, e: Event) {
    e.id == a.moment && e.supersedes == None
    && exists p: RootPublication, now: Tick :: p.root == root && e == PendingMoment(sha, p, a.blobHash, a.calendar, now)
  }

  /** `e` is the moment that confirmed anchor `a` out of its pending row `b`. */
  ghost predicate RecordsConfirmation(sha: Sha, root: Hash, b: Anchor, a: Anchor, e: Event) {
    b.status.Pending? && a.blockHeight.Some?
    && a == b.(status := Confirmed, blockHeight := a.blockHeight, txid := a.txid, moment := e.id)
    && e.supersedes == Some(b.moment)
    && exists p: RootPublication, now: Tick ::
         p.root == root && e == ConfirmedMoment(sha, p, b, a.blockHeight.value, a.txid, now)
  }

  lemma MomentSupersedes(sha: Sha, time: Tick, supersedes: Option<EventId>, body: Hash)
    ensures MomentEvent(sha, time, supersedes, body).supersedes == supersedes
  {
  }

  lemma StampSigned(sha: Sha, ops: seq<Op>, root: Hash) returns (e: Event)
    requires ops != [] && ops[|ops| - 1].Stamp?
    requires ArrivalsAuthentic(sha, ops) && !Collides(sha, Payloads(History(sha, ops)))
    requires root in Run(sha, EMPTY, ops).anchors
    requires AnchorOf(Run(sha, EMPTY, ops[..|ops| - 1]), root) != AnchorOf(Run(sha, EMPTY, ops), root)
    ensures AnchorOf(Run(sha, EMPTY, ops[..|ops| - 1]), root).None? && e in Run(sha, EMPTY, ops).events
    ensures var a := Run(sha, EMPTY, ops).anchors[root]; a.status.Pending? && RecordsStamp(sha, root, a, e)
  {
    hide Step, MomentEvent, RootById, Commit, Ots.CommitsTo, History, Collides, ArrivalsAuthentic, Lands, AnchorBody;
    var k := |ops| - 1;
    var db, db', op := Run(sha, EMPTY, ops[..k]), Run(sha, EMPTY, ops), ops[k];
    assert db' == Step(sha, db, op);
    hide Run;
    StampEffect(sha, db, op);
    FoundById(db.roots, op.root);
    var p := RootById(db.roots, op.root).value;
    var facts := AnchorFacts(p.root, p.height, Pending, sha(op.proof), op.calendar, None, None);
    e := PendingMoment(sha, p, sha(op.proof), op.calendar, op.now);
    CommitLands(db, db', e);
    SignedMomentLands(sha, ops, op.now, None, sha(AnchorBody(facts)));
    MomentSupersedes(sha, op.now, None, sha(AnchorBody(facts)));
  }

  lemma ConfirmSigned(sha: Sha, ops: seq<Op>, root: Hash) returns (e: Event)
    requires ops != [] && ops[|ops| - 1].Confirm?
    requires ArrivalsAuthentic(sha, ops) && !Collides(sha, Payloads(History(sha, ops)))
    requires root in Run(sha, EMPTY, ops).anchors
    requires AnchorOf(Run(sha, EMPTY, ops[..|ops| - 1]), root) != AnchorOf(Run(sha, EMPTY, ops), root)
    ensures root in Run(sha, EMPTY, ops[..|ops| - 1]).anchors && e in Run(sha, EMPTY, ops).events
    ensures RecordsConfirmation(
              sha, root, Run(sha, EMPTY, ops[..|ops| - 1]).anchors[root], Run(sha, EMPTY, ops).anchors[root], e)
  {
    hide Step, MomentEvent, RootById, Commit, Ots.CommitsTo, History, Collides, ArrivalsAuthentic, Lands, AnchorBody;
    var k := |ops| - 1;
    var db, db', op := Run(sha, EMPTY, ops[..k]), Run(sha, EMPTY, ops), ops[k];
    assert db' == Step(sha, db, op);
    hide Run;
    ConfirmEffect(sha, db, op);
    FoundById(db.roots, op.root);
    var p, b := RootById(db.roots, op.root).value, db.anchors[op.root];
    var facts := AnchorFacts(p.root, p.height, Confirmed, b.blobHash, b.calendar, Some(op.height), op.txid);
    e := ConfirmedMoment(sha, p, b, op.height, op.txid, op.now);
    CommitLands(db, db', e);
    SignedMomentLands(sha, ops, op.now, Some(b.moment), sha(AnchorBody(facts)));
    MomentSupersedes(sha, op.now, Some(b.moment), sha(AnchorBody(facts)));
  }

  lemma OtherStepsLeaveAnchors(sha: Sha, db: Db, op: Op)
    requires !op.Stamp? && !op.Confirm?
    ensures Step(sha, db, op).anchors == if op.Truncate? then map[] else db.anchors
  {
    if !op.Truncate? {
      StreamStepKeeps(sha, db, op);
    }
  }

  /** What the last step did to a root whose anchor it changed. */
  lemma LastStepSigned(sha: Sha, ops: seq<Op>, root: Hash) returns (e: Event)
    requires ops != [] && ArrivalsAuthentic(sha, ops) && !Collides(sha, Payloads(History(sha, ops)))
    requires root in Run(sha, EMPTY, ops).anchors
    requires AnchorOf(Run(sha, EMPTY, ops[..|ops| - 1]), root) != AnchorOf(Run(sha, EMPTY, ops), root)
    ensures e in Run(sha, EMPTY, ops).events
    ensures var a, b := Run(sha, EMPTY, ops).anchors[root], AnchorOf(Run(sha, EMPTY, ops[..|ops| - 1]), root);
            if b.None? then a.status.Pending? && RecordsStamp(sha, root, a, e)
            else RecordsConfirmation(sha, root, b.value, a, e)
  {
    hide Step, RecordsStamp, RecordsConfirmation, History, Collides, ArrivalsAuthentic;
    var db, op := Run(sha, EMPTY, ops[..|ops| - 1]), ops[|ops| - 1];
    if op.Stamp? {
      e := StampSigned(sha, ops, root);
    } else if op.Confirm? {
      e := ConfirmSigned(sha, ops, root);
    } else {
      OtherStepsLeaveAnchors(sha, db, op);
      assert false;
    }
  }

  // ----- The theorems -----

  /** Every pending anchor's moment is stored, says which root, proof and calendar it is about, and
      supersedes nothing, unless two payloads of the run collide. */
  lemma {:induction false} PendingIsRecorded(sha: Sha, ops: seq<Op>, root: Hash) returns (e: Event)
    requires ArrivalsAuthentic(sha, ops) && !Collides(sha, Payloads(History(sha, ops)))
    requires root in Run(sha, EMPTY, ops).anchors && Run(sha, EMPTY, ops).anchors[root].status.Pending?
    ensures e in Run(sha, EMPTY, ops).events && RecordsStamp(sha, root, Run(sha, EMPTY, ops).anchors[root], e)
  {
    hide Step, ArrivalsAuthentic, Collides, RecordsStamp, History;
    var k := |ops| - 1;
    var db := Run(sha, EMPTY, ops[..k]);
    HistoryPrefix(sha, ops);
    if AnchorOf(db, root) == AnchorOf(Run(sha, EMPTY, ops), root) {
      e := PendingIsRecorded(sha, ops[..k], root);
      EventsGrow(sha, db, ops[k]);
    } else {
      e := LastStepSigned(sha, ops, root);
    }
  }

  lemma OneEventPerId(db: Db, e: Event)
    requires LogOk(db) && e in db.events
    ensures forall x :: x in db.events && x.id == e.id ==> x == e
  {
    var ids := EventIds(db.events);
    assert Distinct(ids);
    var i :| 0 <= i < |db.events| && db.events[i] == e;
    forall x | x in db.events && x.id == e.id
      ensures x == e
    {
      var j :| 0 <= j < |db.events| && db.events[j] == x;
      assert ids[i] == ids[j];
    }
  }

  /** Supersession: every confirmed anchor was pending at an earlier point `k` of the run; its own
      moment is stored, is the only stored event with its id, and supersedes exactly the moment
      that the pending row named; and that moment, which recorded the stamp, is still stored. The
      only exception is two payloads of the run with one hash. */
  lemma {:induction false} ConfirmedSupersedesPending(sha: Sha, ops: seq<Op>, root: Hash)
    returns (k: nat, confirmed: Event, pending: Event)
    requires ArrivalsAuthentic(sha, ops) && !Collides(sha, Payloads(History(sha, ops)))
    requires root in Run(sha, EMPTY, ops).anchors && Run(sha, EMPTY, ops).anchors[root].status.Confirmed?
    ensures k < |ops| && root in Run(sha, EMPTY, ops[..k]).anchors
    ensures var db, b := Run(sha, EMPTY, ops), Run(sha, EMPTY, ops[..k]).anchors[root];
            var a := db.anchors[root];
            confirmed in db.events && pending in db.events
            && RecordsStamp(sha, root, b, pending) && RecordsConfirmation(sha, root, b, a, confirmed)
            && forall x :: x in db.events && x.id == a.moment ==> x == confirmed
  {
    hide Step, ArrivalsAuthentic, Collides, RecordsStamp, History, RootById, MomentEvent;
    var n := |ops| - 1;
    var before, after := Run(sha, EMPTY, ops[..n]), Run(sha, EMPTY, ops);
    HistoryPrefix(sha, ops);
    EventsGrow(sha, before, ops[n]);
    if AnchorOf(before, root) == AnchorOf(after, root) {
      k, confirmed, pending := ConfirmedSupersedesPending(sha, ops[..n], root);
      assert ops[..n][..k] == ops[..k];
    } else {
      k := n;
      confirmed := LastStepSigned(sha, ops, root);
      pending := PendingIsRecorded(sha, ops[..n], root);
    }
    ReachableIntactOrLost(sha, ops);
    OneEventPerId(after, confirmed);
  }

  /** The exception is real: if another stored event has the id that a confirmation's moment hashes
      to, the anchor is confirmed and its moment is not stored. */
  lemma TakenIdIsNotStored(sha: Sha, db: Db, root: Hash, height: nat, txid: Option<Bytes>, now: Tick, x: Event)
    requires LogOk(db) && ConfirmSigns(db, root, txid) && height < I64_SIGN && x in db.events
    requires var e := ConfirmedMoment(sha, RootById(db.roots, root).value, db.anchors[root], height, txid, now);
             x.id == e.id && x != e
    ensures var e := ConfirmedMoment(sha, RootById(db.roots, root).value, db.anchors[root], height, txid, now);
            var (db', r) := ConfirmAnchor(sha, db, root, height, txid, now, Never);
            r.Ok? && r.value.moment == e.id && db'.events == db.events && e !in db'.events
  {
    hide RootById, MomentEvent, LogOk;
    OneEventPerId(db, x);
    var i :| 0 <= i < |db.events| && db.events[i] == x;
    assert EventIds(db.events)[i] == x.id;
  }

  // ----- How often a moment is superseded -----

  ghost function SignedBy(sha: Sha, db: Db, op: Op, p: EventId): set<Event> {
    if op.Confirm? then set e | e in Handed(sha, db, op) && e.supersedes == Some(p) else {}
  }

  /** The moments superseding `p` that the confirmations of a run signed, whether or not they then
      died or were refused. */
  ghost function Attempts(sha: Sha, ops: seq<Op>, p: EventId): set<Event> {
    if ops == [] then {}
    else
      var k := |ops| - 1;
      Attempts(sha, ops[..k], p) + SignedBy(sha, Run(sha, EMPTY, ops[..k]), ops[k], p)
  }

  /** A confirmation that signs leaves its moment stored, whatever becomes of the row. */
  lemma ConfirmationLands(sha: Sha, ops: seq<Op>, e: Event)
    requires ops != [] && ops[|ops| - 1].Confirm?
    requires ArrivalsAuthentic(sha, ops) && !Collides(sha, Payloads(History(sha, ops)))
    requires e in Handed(sha, Run(sha, EMPTY, ops[..|ops| - 1]), ops[|ops| - 1])
    ensures e in Run(sha, EMPTY, ops).events
  {
    hide Step, MomentEvent, RootById, Commit, History, Collides, ArrivalsAuthentic, Lands, AnchorBody;
    var k := |ops| - 1;
    var db, db', op := Run(sha, EMPTY, ops[..k]), Run(sha, EMPTY, ops), ops[k];
    assert db' == Step(sha, db, op);
    ConfirmEffect(sha, db, op);
    var p, b := RootById(db.roots, op.root).value, db.anchors[op.root];
    var facts := AnchorFacts(p.root, p.height, Confirmed, b.blobHash, b.calendar, Some(op.height), op.txid);
    CommitLands(db, db', e);
    SignedMomentLands(sha, ops, op.now, Some(b.moment), sha(AnchorBody(facts)));
  }

  lemma {:induction false} AttemptIsStored(sha: Sha, ops: seq<Op>, p: EventId, x: Event)
    requires ArrivalsAuthentic(sha, ops) && !Collides(sha, Payloads(History(sha, ops))) && x in Attempts(sha, ops, p)
    ensures x in Run(sha, EMPTY, ops).events && x.supersedes == Some(p)
  {
    hide Step, Handed, History, Collides, ArrivalsAuthentic;
    var k := |ops| - 1;
    HistoryPrefix(sha, ops);
    if x in Attempts(sha, ops[..k], p) {
      AttemptIsStored(sha, ops[..k], p, x);
      EventsGrow(sha, Run(sha, EMPTY, ops[..k]), ops[k]);
    } else {
      ConfirmationLands(sha, ops, x);
    }
  }

  lemma HandedSupersedes(sha: Sha, db: Db, op: Op, x: Event)
    requires x in Handed(sha, db, op) && x.supersedes.Some?
    ensures (op.Arrive? && op.event == x) || op.Confirm?
  {
    hide RootById, Ots.CommitsTo;
  }

  ghost predicate NoArrivalSupersedes(ops: seq<Op>, p: EventId) {
    forall op :: op in ops && op.Arrive? ==> op.event.supersedes != Some(p)
  }

  lemma {:induction false} SupersederIsAttempt(sha: Sha, ops: seq<Op>, p: EventId, x: Event)
    requires NoArrivalSupersedes(ops, p) && x in Run(sha, EMPTY, ops).events && x.supersedes == Some(p)
    ensures x in Attempts(sha, ops, p)
  {
    hide Step, Handed, EventIds;
    var k := |ops| - 1;
    var db := Run(sha, EMPTY, ops[..k]);
    assert ops[k] in ops;
    if x in db.events {
      SupersederIsAttempt(sha, ops[..k], p, x);
    } else {
      StepStores(sha, db, ops[k]);
      HandedSupersedes(sha, db, ops[k], x);
    }
  }

  /** One stored event supersedes `p`, and no other. */
  ghost predicate SupersededOnce(events: seq<Event>, p: EventId) {
    exists x :: x in events && x.supersedes == Some(p)
                && forall y :: y in events && y.supersedes == Some(p) ==> y == x
  }

  /** Exactly what supersedes a moment: the moments of every confirmation that got as far as signing,
      so once if and only if they all signed the same moment. */
  lemma SupersededByAttempts(sha: Sha, ops: seq<Op>, p: EventId)
    requires ArrivalsAuthentic(sha, ops) && !Collides(sha, Payloads(History(sha, ops))) && NoArrivalSupersedes(ops, p)
    ensures forall x :: x in Attempts(sha, ops, p) <==> x in Run(sha, EMPTY, ops).events && x.supersedes == Some(p)
    ensures SupersededOnce(Run(sha, EMPTY, ops).events, p)
       <==> exists x :: Attempts(sha, ops, p) == {x}
  {
    hide Run, Attempts, History, Collides, ArrivalsAuthentic, NoArrivalSupersedes;
    forall x
      ensures x in Attempts(sha, ops, p) <==> x in Run(sha, EMPTY, ops).events && x.supersedes == Some(p)
    {
      if x in Attempts(sha, ops, p) {
        AttemptIsStored(sha, ops, p, x);
      }
      if x in Run(sha, EMPTY, ops).events && x.supersedes == Some(p) {
        SupersederIsAttempt(sha, ops, p, x);
      }
    }
    var s, events := Attempts(sha, ops, p), Run(sha, EMPTY, ops).events;
    if SupersededOnce(events, p) {
      var x :| x in events && x.supersedes == Some(p) && forall y :: y in events && y.supersedes == Some(p) ==> y == x;
      assert s == {x};
    }
    if x :| s == {x} {
      assert x in s;
    }
  }

  /** Two attempts sign the same moment if and only if they name one time, height and transaction,
      unless their bodies collide. */
  lemma SameAttemptIff(
    sha: Sha, p: RootPublication, a: Anchor,
    h: nat, t: Option<Bytes>, now: Tick, h': nat, t': Option<Bytes>, now': Tick)
    requires p.height < U64 && h < U64 && h' < U64 && |a.calendar| < FRAME_LIMIT
    requires |TxidBytes(t)| < FRAME_LIMIT && |TxidBytes(t')| < FRAME_LIMIT
    requires var f := AnchorFacts(p.root, p.height, Confirmed, a.blobHash, a.calendar, Some(h), t);
             !Collides(sha, {AnchorBody(f), AnchorBody(f.(blockHeight := Some(h'), txid := t'))})
    ensures ConfirmedMoment(sha, p, a, h, t, now) == ConfirmedMoment(sha, p, a, h', t', now')
       <==> now == now' && h == h' && TxidBytes(t) == TxidBytes(t')
  {
    hide MomentCanon, AnchorBody, TxidBytes;
    var f := AnchorFacts(p.root, p.height, Confirmed, a.blobHash, a.calendar, Some(h), t);
    var g := f.(blockHeight := Some(h'), txid := t');
    AnchorBodyIff(f, g);
    var x, y := sha(AnchorBody(f)), sha(AnchorBody(g));
    if MomentCanon(now, Some(a.moment), NODE_ZERO, x) == MomentCanon(now', Some(a.moment), NODE_ZERO, y) {
      MomentCanonInjective(now, Some(a.moment), NODE_ZERO, x, now', Some(a.moment), NODE_ZERO, y);
    }
  }

  // ----- Runs that show it -----

  lemma ShortHistory(sha: Sha, e: Event, stamp: Op, x: Event)
    requires stamp.Stamp? && x in History(sha, [Arrive(e), Op.Seal, stamp])
    ensures x == e || x.supersedes == None
  {
    hide RootById, Ots.CommitsTo, Run;
    var ops := [Arrive(e), Op.Seal, stamp];
    assert ops[..2] == [Arrive(e), Op.Seal] && ops[..2][..1] == [Arrive(e)] && [Arrive(e)][..0] == [];
    assert History(sha, [Arrive(e)]) == {e};
    assert History(sha, ops[..2]) == {e};
  }

  lemma StoredUnder(db: Db, id: EventId) returns (x: Event)
    requires id in EventIds(db.events)
    ensures x in db.events && x.id == id
  {
    var i :| 0 <= i < |db.events| && EventIds(db.events)[i] == id;
    x := db.events[i];
  }

  /** A height of 2^63 or more leaves its trace in a run of one event, one seal, one stamp and one
      upgrade: the superseding moment is appended and the anchor stays pending, unless two payloads
      collide. */
  lemma HugeHeightHappens(sha: Sha, e: Event, now: Tick, later: Tick, height: nat)
    returns (ops: seq<Op>, root: Hash, moment: Event)
    requires Authentic(sha, e) && e.supersedes == None && I64_SIGN <= height < U64
    ensures root in Run(sha, EMPTY, ops).anchors && Run(sha, EMPTY, ops).anchors[root].status.Pending?
    ensures var db := Run(sha, EMPTY, ops);
            var ask: Calendar := (uri, message) => Ok(Some(Ots.BlockReply(height)));
            var (db', r) := UpgradeAnchor(sha, db, root, ask, later, Never);
            r == Err(Database) && db'.anchors == db.anchors && moment.supersedes == Some(db.anchors[root].moment)
            && (db'.events == db.events + [moment]
                || Collides(sha, Payloads(History(sha, ops)) + {moment.payload}))
  {
    ops, root := WaitingAnchorExists(sha, e, now);
    hide Run, Step, Intact, FindRoot, Waits, Ots.Assemble, UpgradeAnchor, Handed, EventIds, AnchorBody, MomentCanon;
    var db := Run(sha, EMPTY, ops);
    HugeHeightLeavesTrace(sha, db, root, height, later);
    moment := ConfirmedMoment(sha, RootById(db.roots, root).value, db.anchors[root], height, None, later);
    if moment.id in EventIds(db.events) {
      var x := StoredUnder(db, moment.id);
      StoredFromHistory(sha, ops, x);
      assert ArrivalsAuthentic(sha, ops);
      HistoryAuthentic(sha, ops, x);
      ShortHistory(sha, e, ops[2], x);
      assert x.payload != moment.payload;
      var s := Payloads(History(sha, ops)) + {moment.payload};
      assert x.payload in s && moment.payload in s;
    }
  }

  lemma ConfirmStep(sha: Sha, db: Db, root: Hash, height: nat, later: Tick, crash: Crash)
    requires Intact(sha, db) && FindRoot(db.roots, root).Some? && Stage(AnchorOf(db, root)) == 1
    requires |db.anchors[root].calendar| < FRAME_LIMIT && height < I64_SIGN
    ensures ConfirmSigns(db, root, None)
    ensures var after := Step(sha, db, Confirm(root, height, None, later, crash));
            after.roots == db.roots && root in after.anchors
            && (if crash.Never? then after.anchors[root].status.Confirmed? else after.anchors == db.anchors)
  {
    hide Step, Intact, FindRoot, RootById, Commit, MomentEvent;
    PublishedRootReads(sha, db, root);
    ConfirmEffect(sha, db, Confirm(root, height, None, later, crash));
  }

  /** There are confirmed anchors: a waiting one and one confirmation make one. */
  lemma ConfirmedAnchorExists(sha: Sha, e: Event, now: Tick, later: Tick, height: nat)
    returns (ops: seq<Op>, root: Hash)
    requires Authentic(sha, e) && height < I64_SIGN
    ensures ArrivalsAuthentic(sha, ops)
    ensures root in Run(sha, EMPTY, ops).anchors && Run(sha, EMPTY, ops).anchors[root].status.Confirmed?
  {
    var before: seq<Op>;
    before, root := WaitingAnchorExists(sha, e, now);
    hide Step, Intact, FindRoot, Waits, Ots.Assemble, Authentic;
    var op := Confirm(root, height, None, later, Never);
    ops := before + [op];
    assert ops[..3] == before && ops[3] == op;
    assert Run(sha, EMPTY, ops) == Step(sha, Run(sha, EMPTY, before), op);
    hide Run;
    ConfirmStep(sha, Run(sha, EMPTY, before), root, height, later, Never);
  }

  lemma EventsGrowAt(sha: Sha, ops: seq<Op>)
    requires ops != []
    ensures Run(sha, EMPTY, ops[..|ops| - 1]).events <= Run(sha, EMPTY, ops).events
  {
    hide Step;
    EventsGrow(sha, Run(sha, EMPTY, ops[..|ops| - 1]), ops[|ops| - 1]);
  }

  lemma DifferentTimes(sha: Sha, p: RootPublication, a: Anchor, height: nat, first: Tick, second: Tick)
    requires first != second
    ensures ConfirmedMoment(sha, p, a, height, None, first) != ConfirmedMoment(sha, p, a, height, None, second)
  {
    hide MomentCanon, AnchorBody;
    var body := sha(AnchorBody(AnchorFacts(p.root, p.height, Confirmed, a.blobHash, a.calendar, Some(height), None)));
    if MomentCanon(first, Some(a.moment), NODE_ZERO, body) == MomentCanon(second, Some(a.moment), NODE_ZERO, body) {
      MomentCanonInjective(first, Some(a.moment), NODE_ZERO, body, second, Some(a.moment), NODE_ZERO, body);
    }
  }

  /** Settlement can be recorded twice: a confirmation that dies after signing and is tried again at
      another time leaves two different stored moments that supersede the pending one, unless two
      payloads collide. */
  lemma RetryForks(sha: Sha, e: Event, now: Tick, first: Tick, second: Tick, height: nat)
    returns (ops: seq<Op>, p: EventId, x: Event, y: Event)
    requires Authentic(sha, e) && e.supersedes == None && first != second && height < I64_SIGN
    ensures ArrivalsAuthentic(sha, ops)
    ensures x != y && x.supersedes == y.supersedes == Some(p)
    ensures (x in Run(sha, EMPTY, ops).events && y in Run(sha, EMPTY, ops).events)
         || Collides(sha, Payloads(History(sha, ops)))
  {
    var before, root := WaitingAnchorExists(sha, e, now);
    hide Step, Intact, FindRoot, Waits, Ots.Assemble, Authentic, AnchorBody, MomentCanon, RootById;
    var die, retry := Confirm(root, height, None, first, AfterFirst), Confirm(root, height, None, second, Never);
    var middle := before + [die];
    ops := middle + [retry];
    assert ops[..4] == middle && ops[4] == retry && middle[..3] == before && middle[3] == die;
    var db, dead := Run(sha, EMPTY, before), Run(sha, EMPTY, middle);
    assert dead == Step(sha, db, die);
    ReachableIntact(sha, middle);
    ConfirmStep(sha, db, root, height, first, AfterFirst);
    ConfirmStep(sha, dead, root, height, second, Never);
    p := db.anchors[root].moment;
    var published := RootById(db.roots, root).value;
    x := ConfirmedMoment(sha, published, db.anchors[root], height, None, first);
    y := ConfirmedMoment(sha, published, db.anchors[root], height, None, second);
    DifferentTimes(sha, published, db.anchors[root], height, first, second);
    hide Run;
    if !Collides(sha, Payloads(History(sha, ops))) {
      HistoryPrefix(sha, ops);
      ConfirmationLands(sha, middle, x);
      EventsGrowAt(sha, ops);
      ConfirmationLands(sha, ops, y);
    }
  }
}

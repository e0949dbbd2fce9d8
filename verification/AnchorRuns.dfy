/** The anchor lifecycle over whole runs of one caller. */
module AnchorRuns {
  import opened Bytes
  import opened Merkle
  import opened RootStream
  import opened Moments
  import opened RootStreamSafety
  import opened Anchors
  import opened LedgerRuns
  import Ots
  import Varint

  /** The proof bytes handed to `record_stamp` in a run. */
  ghost function Submitted(ops: seq<Op>): set<Bytes> {
    set op | op in ops && op.Stamp? :: op.proof
  }

  /** An anchor has a height exactly when confirmed, belongs to a published root, names a stored
      moment and a stored proof, and its blob is the address of a proof about its root. */
  ghost predicate AnchorOk(sha: Sha, db: Db, submitted: set<Bytes>, root: Hash)
    requires root in db.anchors
  {
    var a := db.anchors[root];
    (a.blockHeight.Some? <==> a.status.Confirmed?)
    && FindRoot(db.roots, root).Some?
    && a.moment in EventIds(db.events)
    && a.blobHash in db.proofs
    && exists p :: p in submitted && sha(p) == a.blobHash && Ots.CommitsTo(p, root).Ok?
  }

  ghost predicate AnchorsOk(sha: Sha, db: Db, submitted: set<Bytes>) {
    (forall k :: k in db.proofs ==> db.proofs[k] in submitted && sha(db.proofs[k]) == k)
    && forall root :: root in db.anchors ==> AnchorOk(sha, db, submitted, root)
  }

  lemma CommitAdds(events: seq<Event>, e: Event, id: EventId)
    ensures id in EventIds(Commit(events, e)) <==> id in EventIds(events) || id == e.id
  {
    if e.id !in EventIds(events) {
      assert EventIds(events + [e]) == EventIds(events) + [e.id];
    }
  }

  /** A step keeps published roots, stored moments and stored proofs. */
  ghost predicate Keeps(db: Db, db': Db) {
    (forall root :: FindRoot(db.roots, root).Some? ==> FindRoot(db'.roots, root).Some?)
    && (forall id :: id in EventIds(db.events) ==> id in EventIds(db'.events))
    && forall k :: k in db.proofs ==> k in db'.proofs
  }

  lemma FindRootAppend(roots: seq<RootRow>, more: seq<RootRow>, root: Hash)
    requires FindRoot(roots, root).Some?
    ensures FindRoot(roots + more, root).Some?
  {
    var i :| 0 <= i < |roots| && roots[i] == FindRoot(roots, root).value;
    assert (roots + more)[i].rootId == root;
  }

  lemma FindRootSetMoment(roots: seq<RootRow>, target: Hash, moment: EventId, root: Hash)
    requires FindRoot(roots, root).Some?
    ensures FindRoot(SetMoment(roots, target, moment), root).Some?
  {
    var i :| 0 <= i < |roots| && roots[i] == FindRoot(roots, root).value;
    assert SetMoment(roots, target, moment)[i].rootId == root;
  }

  lemma EventsKept(db: Db, e: Event)
    ensures forall id :: id in EventIds(db.events) ==> id in EventIds(Commit(db.events, e))
    ensures e.id in EventIds(Commit(db.events, e))
  {
    forall id
      ensures id in EventIds(Commit(db.events, e)) <==> id in EventIds(db.events) || id == e.id
    {
      CommitAdds(db.events, e, id);
    }
  }

  lemma StreamStepKeeps(sha: Sha, db: Db, op: Op)
    requires op.Arrive? || op.Seal? || op.Record?
    ensures Keeps(db, Step(sha, db, op))
    ensures Step(sha, db, op).anchors == db.anchors && Step(sha, db, op).proofs == db.proofs
  {
    hide LatestRoot, NewLeaves, SealedRow, Commit, FindRoot, SetMoment, MomentEvent;
    var db' := Step(sha, db, op);
    match op
    case Arrive(e) => EventsKept(db, e);
    case Seal =>
      forall root | FindRoot(db.roots, root).Some?
        ensures FindRoot(db'.roots, root).Some?
      {
        if db'.roots != db.roots {
          FindRootAppend(db.roots, db'.roots[|db.roots|..], root);
          assert db'.roots == db.roots + db'.roots[|db.roots|..];
        }
      }
    case Record(p, now) =>
      var moment := RootMoment(sha, p, now);
      EventsKept(db, moment);
      forall r | FindRoot(db.roots, r).Some?
        ensures FindRoot(db'.roots, r).Some?
      {
        FindRootSetMoment(db.roots, p.root, moment.id, r);
      }
  }

  lemma KeepsAnchors(sha: Sha, db: Db, db': Db, submitted: set<Bytes>, submitted': set<Bytes>)
    requires AnchorsOk(sha, db, submitted) && submitted <= submitted'
    requires Keeps(db, db') && db'.anchors == db.anchors && db'.proofs == db.proofs
    ensures AnchorsOk(sha, db', submitted')
  {
    forall root | root in db'.anchors
      ensures AnchorOk(sha, db', submitted', root)
    {
      assert AnchorOk(sha, db, submitted, root);
    }
  }

  /** A stamp passes every check and signs its moment. */
  ghost predicate StampSigns(db: Db, root: Hash, proof: Bytes, calendar: Bytes, crash: Crash) {
    Ots.CommitsTo(proof, root).Ok? && RootById(db.roots, root).Ok? && root !in db.anchors
    && 1 <= |proof| <= MAX_PROOF && !crash.AfterFirst? && |calendar| < FRAME_LIMIT
  }

  ghost predicate Signed(sha: Sha, db: Db, db': Db, op: Op)
    requires op.Stamp? && StampSigns(db, op.root, op.proof, op.calendar, op.crash)
  {
    var moment := PendingMoment(sha, RootById(db.roots, op.root).value, sha(op.proof), op.calendar, op.now);
    sha(op.proof) in db'.proofs && db'.events == Commit(db.events, moment)
    && db'.anchors
       == if op.crash.AfterSecond? || 0 in op.calendar then db.anchors
          else db.anchors[op.root := Anchor(Pending, sha(op.proof), op.calendar, None, None, moment.id)]
  }

  /** A stamp adds at most its proof, its moment and, last, its anchor. */
  lemma StampEffect(sha: Sha, db: Db, op: Op)
    requires op.Stamp?
    ensures var db' := Step(sha, db, op);
            db'.roots == db.roots
            && (db'.proofs == db.proofs || db'.proofs == db.proofs[sha(op.proof) := op.proof])
            && (if StampSigns(db, op.root, op.proof, op.calendar, op.crash) then Signed(sha, db, db', op)
                else db'.events == db.events && db'.anchors == db.anchors)
  {
    hide Ots.CommitsTo, RootById, Commit, MomentEvent;
  }

  lemma FoundById(roots: seq<RootRow>, root: Hash)
    requires RootById(roots, root).Ok?
    ensures FindRoot(roots, root).Some? && RootById(roots, root).value.root == root
  {
  }

  lemma StampKeepsAnchors(sha: Sha, db: Db, op: Op, submitted: set<Bytes>)
    requires op.Stamp? && AnchorsOk(sha, db, submitted)
    ensures AnchorsOk(sha, Step(sha, db, op), submitted + {op.proof})
  {
    hide Ots.CommitsTo, FindRoot, Commit, EventIds, Step, RootById, MomentEvent;
    StampEffect(sha, db, op);
    var db', s := Step(sha, db, op), submitted + {op.proof};
    if StampSigns(db, op.root, op.proof, op.calendar, op.crash) {
      FoundById(db.roots, op.root);
      EventsKept(db, PendingMoment(sha, RootById(db.roots, op.root).value, sha(op.proof), op.calendar, op.now));
    }
    forall root | root in db'.anchors
      ensures AnchorOk(sha, db', s, root)
    {
      if root in db.anchors {
        assert AnchorOk(sha, db, submitted, root);
        assert db'.anchors[root] == db.anchors[root];
        var p :| p in submitted && sha(p) == db.anchors[root].blobHash && Ots.CommitsTo(p, root).Ok?;
        assert p in s;
      } else {
        assert op.proof in s;
      }
    }
  }

  /** A confirmation passes every check and signs its moment. */
  ghost predicate ConfirmSigns(db: Db, root: Hash, txid: Option<Bytes>) {
    RootById(db.roots, root).Ok? && root in db.anchors && db.anchors[root].status.Pending?
    && |db.anchors[root].calendar| < FRAME_LIMIT && |TxidBytes(txid)| < FRAME_LIMIT
  }

  ghost predicate Collapsed(sha: Sha, db: Db, db': Db, op: Op)
    requires op.Confirm? && ConfirmSigns(db, op.root, op.txid)
  {
    var pending := db.anchors[op.root];
    var moment := ConfirmedMoment(sha, RootById(db.roots, op.root).value, pending, op.height, op.txid, op.now);
    db' == db.(events := Commit(db.events, moment),
               anchors := if !op.crash.Never? || op.height >= I64_SIGN then db.anchors
                          else db.anchors[op.root := pending.(
                            status := Confirmed, blockHeight := Some(op.height), txid := op.txid, moment := moment.id)])
  }

  /** A confirmation adds at most its moment and, last, collapses the pending anchor. */
  lemma ConfirmEffect(sha: Sha, db: Db, op: Op)
    requires op.Confirm?
    ensures var db' := Step(sha, db, op);
            if ConfirmSigns(db, op.root, op.txid) then Collapsed(sha, db, db', op) else db' == db
  {
    hide RootById, Commit, MomentEvent;
  }

  lemma ConfirmKeepsAnchors(sha: Sha, db: Db, op: Op, submitted: set<Bytes>)
    requires op.Confirm? && AnchorsOk(sha, db, submitted)
    ensures AnchorsOk(sha, Step(sha, db, op), submitted)
  {
    hide Ots.CommitsTo, FindRoot, Commit, EventIds, Step, RootById, MomentEvent;
    ConfirmEffect(sha, db, op);
    var db' := Step(sha, db, op);
    if ConfirmSigns(db, op.root, op.txid) {
      var published, pending := RootById(db.roots, op.root).value, db.anchors[op.root];
      EventsKept(db, ConfirmedMoment(sha, published, pending, op.height, op.txid, op.now));
    }
    forall root | root in db'.anchors
      ensures AnchorOk(sha, db', submitted, root)
    {
      assert AnchorOk(sha, db, submitted, root);
    }
  }

  lemma TruncateKeepsAnchors(sha: Sha, db: Db, submitted: set<Bytes>)
    requires AnchorsOk(sha, db, submitted)
    ensures AnchorsOk(sha, Step(sha, db, Truncate), submitted)
  {
  }

  lemma MoreSubmitted(sha: Sha, db: Db, s: set<Bytes>, t: set<Bytes>)
    requires AnchorsOk(sha, db, s) && s <= t
    ensures AnchorsOk(sha, db, t)
  {
    forall root | root in db.anchors
      ensures AnchorOk(sha, db, t, root)
    {
      assert AnchorOk(sha, db, s, root);
    }
  }

  lemma StepKeepsAnchors(sha: Sha, db: Db, op: Op, before: set<Bytes>, after: set<Bytes>)
    requires AnchorsOk(sha, db, before) && before <= after && (op.Stamp? ==> op.proof in after)
    ensures AnchorsOk(sha, Step(sha, db, op), after)
  {
    hide Step, AnchorsOk, Keeps;
    match op
    case Stamp(_, proof, _, _, _) =>
      StampKeepsAnchors(sha, db, op, before);
      MoreSubmitted(sha, Step(sha, db, op), before + {proof}, after);
    case Confirm(_, _, _, _, _) =>
      ConfirmKeepsAnchors(sha, db, op, before);
      MoreSubmitted(sha, Step(sha, db, op), before, after);
    case Truncate =>
      TruncateKeepsAnchors(sha, db, before);
      MoreSubmitted(sha, Step(sha, db, op), before, after);
    case _ =>
      StreamStepKeeps(sha, db, op);
      KeepsAnchors(sha, db, Step(sha, db, op), before, after);
  }

  lemma SubmittedSnoc(ops: seq<Op>)
    requires ops != []
    ensures var k := |ops| - 1;
            Submitted(ops[..k]) <= Submitted(ops) && (ops[k].Stamp? ==> ops[k].proof in Submitted(ops))
  {
    assert ops == ops[..|ops| - 1] + [ops[|ops| - 1]];
  }

  /** Anchor invariant: in every reachable state, truncations included, each anchor is as
      `AnchorOk` says and each stored proof hashes to its own key. */
  lemma {:induction false} ReachableAnchorsOk(sha: Sha, ops: seq<Op>)
    ensures AnchorsOk(sha, Run(sha, EMPTY, ops), Submitted(ops))
  {
    if ops != [] {
      hide Step, AnchorsOk, Submitted;
      var k := |ops| - 1;
      ReachableAnchorsOk(sha, ops[..k]);
      SubmittedSnoc(ops);
      StepKeepsAnchors(sha, Run(sha, EMPTY, ops[..k]), ops[k], Submitted(ops[..k]), Submitted(ops));
    }
  }

  /** Stored evidence: every anchor's proof can be loaded, hashes to its key and commits to the
      anchored root, unless two proofs submitted in the run collide. */
  lemma StoredProofCommits(sha: Sha, ops: seq<Op>, root: Hash)
    requires root in Run(sha, EMPTY, ops).anchors && !Collides(sha, Submitted(ops))
    ensures var db := Run(sha, EMPTY, ops);
            var loaded := LoadProof(sha, db, db.anchors[root].blobHash);
            loaded.Ok? && sha(loaded.value) == db.anchors[root].blobHash
            && Ots.CommitsTo(loaded.value, root).Ok?
  {
    ReachableAnchorsOk(sha, ops);
    var db := Run(sha, EMPTY, ops);
    assert AnchorOk(sha, db, Submitted(ops), root);
    var p :| p in Submitted(ops) && sha(p) == db.anchors[root].blobHash && Ots.CommitsTo(p, root).Ok?;
    assert db.proofs[db.anchors[root].blobHash] == p;
  }

  // ----- The order of stages -----

  ghost function HeightOf(op: Op): nat { if op.Confirm? then op.height else 0 }
  ghost function ProofOf(op: Op): Bytes { if op.Stamp? then op.proof else [] }
  ghost function NowOf(op: Op): Tick { if op.Stamp? || op.Confirm? || op.Record? then op.now else ZERO32 }

  /** Committing an event stores it, unless another event has its id. */
  lemma CommitLands(db: Db, db': Db, e: Event)
    requires db'.events == Commit(db.events, e)
    ensures Lands(db, db', e)
  {
    if e.id in EventIds(db.events) {
      var i :| 0 <= i < |db.events| && EventIds(db.events)[i] == e.id;
      assert db.events[i] in db.events && db.events[i].id == e.id;
    }
  }

  /** Every step takes every root along the lifecycle or leaves it where it is. */
  lemma StepFollowsLifecycle(sha: Sha, db: Db, op: Op, root: Hash)
    requires !op.Truncate?
    ensures LifecycleStep(sha, db, Step(sha, db, op), root, HeightOf(op), ProofOf(op), NowOf(op))
  {
    hide Ots.CommitsTo, RootById, Commit, MomentEvent, Lands, Step;
    var db' := Step(sha, db, op);
    if op.Stamp? {
      StampEffect(sha, db, op);
      if StampSigns(db, op.root, op.proof, op.calendar, op.crash) {
        CommitLands(db, db', PendingMoment(sha, RootById(db.roots, op.root).value, sha(op.proof), op.calendar, op.now));
      }
    } else if op.Confirm? {
      ConfirmEffect(sha, db, op);
      if ConfirmSigns(db, op.root, op.txid) {
        var published, pending := RootById(db.roots, op.root).value, db.anchors[op.root];
        CommitLands(db, db', ConfirmedMoment(sha, published, pending, op.height, op.txid, op.now));
      }
    } else {
      StreamStepKeeps(sha, db, op);
    }
  }

  /** Over any run without a loss, a root only moves from unstamped to pending to confirmed; its
      proof and calendar never change once set; and a confirmed anchor never changes at all. */
  lemma {:induction false} StagesOnlyRise(sha: Sha, db: Db, ops: seq<Op>, root: Hash)
    requires Truncate !in ops
    ensures var a, b := AnchorOf(db, root), AnchorOf(Run(sha, db, ops), root);
            Stage(a) <= Stage(b)
            && (a.Some? ==> b.value.blobHash == a.value.blobHash && b.value.calendar == a.value.calendar)
            && (Stage(a) == 2 ==> b == a)
  {
    if ops != [] {
      hide Step, Ots.CommitsTo, Lands, RootById, MomentEvent;
      var k := |ops| - 1;
      StagesOnlyRise(sha, db, ops[..k], root);
      assert ops[k] != Truncate;
      StepFollowsLifecycle(sha, Run(sha, db, ops[..k]), ops[k], root);
    }
  }

  /** Once stamped, never stamped again; once confirmed, never confirmed again: both are refused
      and change nothing, however much later they are tried. */
  lemma StampedAndConfirmedOnce(
    sha: Sha, db: Db, ops: seq<Op>, root: Hash, proof: Bytes, calendar: Bytes, now: Tick,
    height: nat, txid: Option<Bytes>, crash: Crash)
    requires Truncate !in ops
    ensures var db' := Run(sha, db, ops);
            (Stage(AnchorOf(db, root)) >= 1 ==>
               var (after, r) := RecordStamp(sha, db', root, proof, calendar, now, crash); after == db' && r.Err?)
            && (Stage(AnchorOf(db, root)) == 2 ==>
                  var (after, r) := ConfirmAnchor(sha, db', root, height, txid, now, crash); after == db' && r.Err?)
  {
    hide Ots.CommitsTo, RootById, MomentEvent;
    StagesOnlyRise(sha, db, ops, root);
  }

  // ----- Progress -----

  lemma PublishedRootReads(sha: Sha, db: Db, root: Hash)
    requires Intact(sha, db)
    ensures RootById(db.roots, root).Ok? <==> FindRoot(db.roots, root).Some?
  {
    hide ToPublication, EpochsOk, LogOk, RootOk;
    if FindRoot(db.roots, root).Some? {
      var row := FindRoot(db.roots, root).value;
      var k :| 0 <= k < |db.roots| && db.roots[k] == row;
      PublicationReads(sha, Ids(db.log), db.roots, k);
    }
  }

  ghost predicate IsPublished(db: Db, root: Hash) { exists row :: row in db.roots && row.rootId == root }

  /** While the root stream is intact nothing but the stated conditions stands in the way: a root
      can be stamped if and only if it is published, unstamped and the proof is about it and of
      storable size, and confirmed if and only if it is pending and the height fits its column;
      no field may be too long to frame, nor the calendar's name hold a zero byte. */
  lemma AnchorProgress(
    sha: Sha, db: Db, root: Hash, proof: Bytes, calendar: Bytes, now: Tick, height: nat, txid: Option<Bytes>)
    requires Intact(sha, db)
    ensures RecordStamp(sha, db, root, proof, calendar, now, Never).1.Ok?
       <==> Ots.CommitsTo(proof, root).Ok? && IsPublished(db, root)
            && root !in db.anchors && 1 <= |proof| <= 65536 && |calendar| < 0x1_0000_0000
            && 0 !in calendar
    ensures ConfirmAnchor(sha, db, root, height, txid, now, Never).1.Ok?
       <==> IsPublished(db, root) && root in db.anchors && db.anchors[root].status.Pending?
            && height < 0x8000_0000_0000_0000
            && |db.anchors[root].calendar| < 0x1_0000_0000 && (txid.Some? ==> |txid.value| < 0x1_0000_0000)
  {
    hide Ots.CommitsTo, RootById, Commit, Intact, MomentEvent;
    PublishedRootReads(sha, db, root);
    assert IsPublished(db, root) <==> FindRoot(db.roots, root).Some?;
    hide FindRoot, IsPublished;
  }

  /** When a stamp that fails still leaves a trace, although its caller does not die: the calendar's
      name cannot be framed, and the proof is new; or it cannot be stored, and the proof or the
      moment is new. */
  lemma RefusedStampLeavesTrace(sha: Sha, db: Db, root: Hash, proof: Bytes, calendar: Bytes, now: Tick)
    requires Intact(sha, db)
    ensures var (db', r) := RecordStamp(sha, db, root, proof, calendar, now, Never);
            (r.Err? && db' != db)
            <==> (Ots.CommitsTo(proof, root).Ok? && FindRoot(db.roots, root).Some? && RootById(db.roots, root).Ok?
                  && Stage(AnchorOf(db, root)) == 0 && 1 <= |proof| <= MAX_PROOF
                  && var blob, p := sha(proof), RootById(db.roots, root).value;
                     if |calendar| >= FRAME_LIMIT then blob !in db.proofs
                     else 0 in calendar
                          && (blob !in db.proofs
                              || PendingMoment(sha, p, blob, calendar, now).id !in EventIds(db.events)))
  {
    hide Ots.CommitsTo, RootById, FindRoot, Intact, MomentEvent, EventIds;
    PublishedRootReads(sha, db, root);
    var blob := sha(proof);
    assert blob !in db.proofs ==> db.proofs[blob := proof] != db.proofs;
  }

  /** When a confirmation that fails still leaves a trace: the moment of a pending anchor is stored
      and the row is then refused, exactly when the height does not fit the signed column and the
      moment is new. */
  lemma RefusedConfirmationLeavesTrace(
    sha: Sha, db: Db, root: Hash, height: nat, txid: Option<Bytes>, now: Tick)
    requires Intact(sha, db)
    ensures var (db', r) := ConfirmAnchor(sha, db, root, height, txid, now, Never);
            (r.Err? && db' != db)
            <==> (FindRoot(db.roots, root).Some? && RootById(db.roots, root).Ok? && Stage(AnchorOf(db, root)) == 1
                  && |db.anchors[root].calendar| < FRAME_LIMIT && |TxidBytes(txid)| < FRAME_LIMIT
                  && height >= I64_SIGN
                  && ConfirmedMoment(sha, RootById(db.roots, root).value, db.anchors[root], height, txid, now).id
                     !in EventIds(db.events))
  {
    hide RootById, FindRoot, Intact, MomentEvent, EventIds;
    PublishedRootReads(sha, db, root);
  }

  /** The stored proof of an anchor can be read and names a calendar that still waits. */
  ghost predicate Waits(sha: Sha, db: Db, a: Anchor) {
    var loaded := LoadProof(sha, db, a.blobHash);
    loaded.Ok? && Ots.Commitments(sha, loaded.value).Ok? && PendingOf(Ots.Commitments(sha, loaded.value).value) != []
  }

  lemma AskedOnce(sha: Sha, ask: Calendar, pending: seq<(Bytes, Bytes)>, height: nat)
    requires pending != [] && height < U64
    requires ask(pending[0].0, pending[0].1) == Ok(Some(Ots.BlockReply(height)))
    ensures AskCalendars(sha, ask, pending) == Ok(Some(height))
  {
    hide Ots.AttestationsIn, Ots.BlockReply;
    Ots.BlockReplyAttests(sha, height, pending[0].1);
  }

  /** Such a confirmation happens: whenever a pending anchor's stored proof still waits for a
      calendar, one reply attesting to a block of height 2^63 or more stores a moment that
      supersedes the pending one, while the anchor stays pending and the upgrade fails. */
  lemma HugeHeightLeavesTrace(sha: Sha, db: Db, root: Hash, height: nat, now: Tick)
    requires Intact(sha, db) && FindRoot(db.roots, root).Some? && Stage(AnchorOf(db, root)) == 1
    requires |db.anchors[root].calendar| < FRAME_LIMIT && I64_SIGN <= height < U64
    requires Waits(sha, db, db.anchors[root])
    ensures RootById(db.roots, root).Ok?
    ensures var ask: Calendar := (uri, message) => Ok(Some(Ots.BlockReply(height)));
            var e := ConfirmedMoment(sha, RootById(db.roots, root).value, db.anchors[root], height, None, now);
            UpgradeAnchor(sha, db, root, ask, now, Never) == (db.(events := Commit(db.events, e)), Err(Database))
            && e.supersedes == Some(db.anchors[root].moment)
            && (e.id !in EventIds(db.events) ==> Commit(db.events, e) == db.events + [e])
  {
    hide RootById, FindRoot, Intact, EventIds, Ots.Commitments, Ots.AttestationsIn, LoadProof, PendingOf, AnchorBody;
    PublishedRootReads(sha, db, root);
    var ask: Calendar := (uri, message) => Ok(Some(Ots.BlockReply(height)));
    var proof := LoadProof(sha, db, db.anchors[root].blobHash).value;
    var pending := PendingOf(Ots.Commitments(sha, proof).value);
    AskedOnce(sha, ask, pending, height);
  }

  lemma OneEventIsPublished(sha: Sha, e: Event) returns (root: Hash)
    ensures var db := Run(sha, EMPTY, [Arrive(e), Op.Seal]);
            Intact(sha, db) && FindRoot(db.roots, root).Some? && db.anchors == map[] && db.proofs == map[]
  {
    var ops := [Arrive(e), Op.Seal];
    ReachableIntact(sha, ops);
    ReachableIntact(sha, [Arrive(e)]);
    assert ops[..1] == [Arrive(e)] && [Arrive(e)][..0] == [];
    var one := Run(sha, EMPTY, [Arrive(e)]);
    assert one == EMPTY.(events := [e]);
    assert EventIds(one.events)[0] == e.id;
    NewLeavesOk(one);
    hide Intact, NewLeaves, GrownRow, GrownLog, RootStream.Seal;
    SealOfIntact(sha, one);
    root := GrownRow(sha, one).rootId;
    assert Run(sha, EMPTY, ops) == RootStream.Seal(sha, one).0;
  }

  const WAITING_REPLY: Bytes := Ots.WaitReply([])

  lemma WaitingProof(sha: Sha, root: Hash)
    ensures var proof := Ots.Assemble(root, WAITING_REPLY);
            Ots.CommitsTo(proof, root).Ok? && Ots.Digest(proof).Ok? && 1 <= |proof| <= MAX_PROOF
            && Ots.Commitments(sha, proof).Ok? && PendingOf(Ots.Commitments(sha, proof).value) != []
  {
    assert WAITING_REPLY == [Ots.ATTESTATION_TAG] + (Ots.PENDING_ATTESTATION + [1, 0]) by {
      assert Ots.Argument([]) == [0] && Ots.Argument([0]) == [1, 0];
    }
    assert Varint.Minimal(Ots.MAJOR_VERSION) == [1];
    hide Ots.Commitments, Ots.AttestationsIn, Ots.Digest;
    Ots.WaitReplyWaits(sha, [], root);
    Ots.CalendarReply(sha, root, WAITING_REPLY);
  }

  lemma StampWaits(sha: Sha, db: Db, root: Hash, now: Tick)
    requires Intact(sha, db) && FindRoot(db.roots, root).Some? && db.anchors == map[] && db.proofs == map[]
    ensures var after := Step(sha, db, Stamp(root, Ots.Assemble(root, WAITING_REPLY), [], now, Never));
            after.roots == db.roots && Stage(AnchorOf(after, root)) == 1
            && after.anchors[root].calendar == [] && Waits(sha, after, after.anchors[root])
  {
    hide Intact, Step, FindRoot, RootById, MomentEvent, Commit, Ots.Assemble;
    hide Ots.CommitsTo, Ots.Commitments, Ots.Digest, PendingOf;
    WaitingProof(sha, root);
    PublishedRootReads(sha, db, root);
    StampEffect(sha, db, Stamp(root, Ots.Assemble(root, WAITING_REPLY), [], now, Never));
  }

  /** There are such anchors: one event, one seal and one stamp make one. */
  lemma WaitingAnchorExists(sha: Sha, e: Event, now: Tick) returns (ops: seq<Op>, root: Hash)
    ensures ops == [Arrive(e), Op.Seal, Stamp(root, Ots.Assemble(root, WAITING_REPLY), [], now, Never)]
    ensures Intact(sha, Run(sha, EMPTY, ops))
    ensures var db := Run(sha, EMPTY, ops);
            FindRoot(db.roots, root).Some? && Stage(AnchorOf(db, root)) == 1
            && db.anchors[root].calendar == [] && Waits(sha, db, db.anchors[root])
  {
    hide Intact, Step, FindRoot, Waits, Ots.Assemble;
    root := OneEventIsPublished(sha, e);
    var before := [Arrive(e), Op.Seal];
    var op := Stamp(root, Ots.Assemble(root, WAITING_REPLY), [], now, Never);
    ops := before + [op];
    assert ops[..2] == before && ops[2] == op;
    ReachableIntact(sha, ops);
    StampWaits(sha, Run(sha, EMPTY, before), root, now);
    assert Run(sha, EMPTY, ops) == Step(sha, Run(sha, EMPTY, before), op);
  }
}

/** Whole runs of the ledger: any interleaving of arrivals, seals, recordings, crashes, stamps,
    confirmations and losses of the root stream. */
module LedgerRuns {
  import opened Bytes
  import opened Merkle
  import opened Ordering
  import opened RootStream
  import opened Moments
  import opened RootStreamSafety
  import opened Anchors
  import Ots

  /** A crash between sealing and recording is a `Seal` with no `Record` after it; a crash between
      the two halves of a recording is an `Arrive` of the moment. An upgrade is a `Confirm` or
      nothing, by `Anchors.UpgradeIsConfirmation`. */
  datatype Op =
    | Arrive(event: Event)
    | Seal
    | Record(publication: RootPublication, now: Tick)
    | Truncate
    | Stamp(root: Hash, proof: Bytes, calendar: Bytes, now: Tick, crash: Crash)
    | Confirm(root: Hash, height: nat, txid: Option<Bytes>, now: Tick, crash: Crash)

  ghost function Step(sha: Sha, db: Db, op: Op): Db {
    match op
    case Arrive(e) => db.(events := Commit(db.events, e))
    case Seal => RootStream.Seal(sha, db).0
    case Record(p, now) => RootStream.Record(db, p.root, RootMoment(sha, p, now))
    case Truncate => RootStream.Truncate(db)
    case Stamp(root, proof, calendar, now, crash) => RecordStamp(sha, db, root, proof, calendar, now, crash).0
    case Confirm(root, height, txid, now, crash) => ConfirmAnchor(sha, db, root, height, txid, now, crash).0
  }

  ghost function Run(sha: Sha, db: Db, ops: seq<Op>): Db {
    if ops == [] then db else Step(sha, Run(sha, db, ops[..|ops| - 1]), ops[|ops| - 1])
  }

  // ----- The root stream over whole runs -----

  /** Anchoring touches the stream only by appending moments. */
  lemma AnchoringKeepsStream(sha: Sha, db: Db, op: Op)
    requires op.Stamp? || op.Confirm?
    ensures var db' := Step(sha, db, op);
            db'.log == db.log && db'.roots == db.roots
            && (db'.events == db.events || exists e :: db'.events == Commit(db.events, e))
  {
    hide Ots.CommitsTo, RootById, MomentEvent;
  }

  lemma IntactFrame(sha: Sha, db: Db, db': Db)
    requires Intact(sha, db) && db'.log == db.log && db'.roots == db.roots && db'.events == db.events
    ensures Intact(sha, db')
  {
  }

  lemma TruncateEmpty(sha: Sha, db: Db)
    requires Intact(sha, db) && |db.log| == 0
    ensures Intact(sha, RootStream.Truncate(db))
  {
  }

  lemma StepKeepsIntact(sha: Sha, db: Db, op: Op)
    requires Intact(sha, db) && (op.Truncate? ==> |db.log| == 0)
    ensures Intact(sha, Step(sha, db, op))
  {
    hide Intact;
    match op
    case Arrive(e) => ArriveKeepsIntact(sha, db, e);
    case Seal => SealKeepsIntact(sha, db);
    case Record(p, now) => RecordKeepsIntact(sha, db, p.root, RootMoment(sha, p, now));
    case Truncate => TruncateEmpty(sha, db);
    case _ =>
      AnchoringKeepsStream(sha, db, op);
      var db' := Step(sha, db, op);
      if db'.events == db.events {
        IntactFrame(sha, db, db');
      } else {
        var e :| db'.events == Commit(db.events, e);
        ArriveKeepsIntact(sha, db, e);
        IntactFrame(sha, db.(events := Commit(db.events, e)), db');
      }
  }

  /** Losing the stream over a nonempty log, and every step after that. */
  lemma StepKeepsLost(sha: Sha, db: Db, op: Op)
    requires Lost(db)
    ensures Lost(Step(sha, db, op)) && Step(sha, db, op).log == db.log
  {
    match op
    case Arrive(e) => CommitKeepsLog(db, e);
    case Seal => SealOfLost(sha, db);
    case Record(p, now) => CommitKeepsLog(db, RootMoment(sha, p, now));
    case Truncate =>
    case Stamp(_, _, _, _, _) =>
    case Confirm(_, _, _, _, _) =>
  }

  /** Root stream safety: without a loss, every reachable state has a gap-free log of distinct
      events, contiguous heights, strictly growing trees, roots that hash their prefixes and
      proofs that verify (all of `Intact`), so the audit passes. */
  lemma {:induction false} ReachableIntact(sha: Sha, ops: seq<Op>)
    requires Truncate !in ops
    ensures Intact(sha, Run(sha, EMPTY, ops))
    ensures ChainVerifies(sha, Run(sha, EMPTY, ops))
  {
    if ops != [] {
      hide Step, Intact;
      var k := |ops| - 1;
      ReachableIntact(sha, ops[..k]);
      assert ops[k] != Truncate;
      StepKeepsIntact(sha, Run(sha, EMPTY, ops[..k]), ops[k]);
    }
    IntactVerifies(sha, Run(sha, EMPTY, ops));
  }

  lemma TruncateLoses(sha: Sha, db: Db)
    requires Intact(sha, db) && |db.log| > 0
    ensures Lost(Step(sha, db, Truncate))
  {
  }

  /** With losses allowed, every reachable state is intact or lost, and its log is well formed. */
  lemma {:induction false} ReachableIntactOrLost(sha: Sha, ops: seq<Op>)
    ensures Intact(sha, Run(sha, EMPTY, ops)) || Lost(Run(sha, EMPTY, ops))
    ensures LogOk(Run(sha, EMPTY, ops))
  {
    if ops != [] {
      hide Step;
      var k := |ops| - 1;
      var db := Run(sha, EMPTY, ops[..k]);
      ReachableIntactOrLost(sha, ops[..k]);
      if Lost(db) {
        StepKeepsLost(sha, db, ops[k]);
      } else if ops[k].Truncate? && |db.log| > 0 {
        TruncateLoses(sha, db);
      } else {
        StepKeepsIntact(sha, db, ops[k]);
      }
    }
  }

  /** Refusal after loss: once the roots are gone over a nonempty log, whatever happens next, no
      root is ever published, the log never moves, and every seal refuses and changes nothing. */
  lemma {:induction false} LostForever(sha: Sha, db: Db, ops: seq<Op>)
    requires Lost(db)
    ensures var db' := Run(sha, db, ops);
            db'.log == db.log && db'.roots == []
            && RootStream.Seal(sha, db') == (db', Err(RootStreamLost(|db.log|)))
    ensures Lost(Run(sha, db, ops))
  {
    if ops != [] {
      hide Step, Lost;
      var k := |ops| - 1;
      LostForever(sha, db, ops[..k]);
      StepKeepsLost(sha, Run(sha, db, ops[..k]), ops[k]);
    }
    assert Run(sha, db, ops).roots == [] by { assert Lost(Run(sha, db, ops)); }
    SealOfLost(sha, Run(sha, db, ops));
  }

  /** Every step extends the log or leaves it alone. */
  lemma StepExtendsLog(sha: Sha, db: Db, op: Op)
    ensures db.log <= Step(sha, db, op).log
  {
    hide RootById, LatestRoot, NewLeaves, SealedRow, Ots.CommitsTo, MomentEvent;
  }

  /** Append-only: the log of every earlier state is a prefix of the log of every later one. */
  lemma {:induction false} LogOnlyGrows(sha: Sha, db: Db, ops: seq<Op>, n: nat)
    requires n <= |ops|
    ensures Run(sha, db, ops[..n]).log <= Run(sha, db, ops).log
  {
    if n == |ops| {
      assert ops[..n] == ops;
    } else {
      hide Step;
      var k := |ops| - 1;
      LogOnlyGrows(sha, db, ops[..k], n);
      assert ops[..k][..n] == ops[..n];
      StepExtendsLog(sha, Run(sha, db, ops[..k]), ops[k]);
    }
  }

  // ----- Determinism -----

  /** A root row without the node's own recording of it. */
  ghost function Public(roots: seq<RootRow>): (p: seq<RootRow>)
    ensures |p| == |roots|
  {
    seq(|roots|, i requires 0 <= i < |roots| => roots[i].(moment := None))
  }

  ghost predicate SameStream(a: Db, b: Db) {
    a.log == b.log && Public(a.roots) == Public(b.roots)
  }

  ghost function EventSet(db: Db): set<EventId> { Members(EventIds(db.events)) }

  /** The event sets held at the seals of a run. */
  ghost function Boundaries(sha: Sha, db: Db, ops: seq<Op>): seq<set<EventId>> {
    if ops == [] then []
    else
      var k := |ops| - 1;
      Boundaries(sha, db, ops[..k]) + (if ops[k].Seal? then [EventSet(Run(sha, db, ops[..k]))] else [])
  }

  lemma SameNewLeaves(a: Db, b: Db)
    requires LogOk(a) && LogOk(b) && a.log == b.log && EventSet(a) == EventSet(b)
    ensures NewLeaves(a) == NewLeaves(b)
  {
    var x, y := Uncommitted(EventIds(a.events), Ids(a.log)), Uncommitted(EventIds(b.events), Ids(b.log));
    UncommittedDistinct(EventIds(a.events), Ids(a.log));
    UncommittedDistinct(EventIds(b.events), Ids(b.log));
    DistinctKeysOfIds(x);
    DistinctKeysOfIds(y);
    forall id
      ensures id in Members(x) <==> id in Members(y)
    {
      assert id in EventSet(a) <==> id in EventSet(b);
    }
    OrderByCanonical(IdKey, x, y);
  }

  lemma SamePublicRow(a: seq<RootRow>, b: seq<RootRow>, i: nat)
    requires Public(a) == Public(b) && i < |a|
    ensures i < |b| && a[i].rootId == b[i].rootId
  {
    assert Public(a)[i] == Public(b)[i];
  }

  lemma SameRootFound(a: seq<RootRow>, b: seq<RootRow>, id: Hash)
    requires Public(a) == Public(b)
    ensures FindRoot(a, id).Some? <==> FindRoot(b, id).Some?
  {
    if FindRoot(a, id).Some? {
      var i :| 0 <= i < |a| && a[i] == FindRoot(a, id).value;
      SamePublicRow(a, b, i);
    }
    if FindRoot(b, id).Some? {
      var i :| 0 <= i < |b| && b[i] == FindRoot(b, id).value;
      SamePublicRow(b, a, i);
    }
  }

  lemma SameGrownRow(sha: Sha, a: Db, b: Db)
    requires LogOk(a) && LogOk(b) && SameStream(a, b) && EventSet(a) == EventSet(b)
    ensures NewLeaves(a) == NewLeaves(b) && |a.roots| == |b.roots|
    ensures GrownLog(a) == GrownLog(b) && GrownRow(sha, a) == GrownRow(sha, b)
    ensures GrownRow(sha, a).moment == None
  {
    hide LogOk, NewLeaves;
    SameNewLeaves(a, b);
    var n := |a.roots|;
    assert |b.roots| == n by { assert |Public(a.roots)| == |Public(b.roots)|; }
    if n > 0 {
      SamePublicRow(a.roots, b.roots, n - 1);
    }
  }

  lemma PublicAppend(roots: seq<RootRow>, row: RootRow)
    requires row.moment == None
    ensures Public(roots + [row]) == Public(roots) + [row]
  {
  }

  lemma SealDeterministic(sha: Sha, a: Db, b: Db)
    requires Intact(sha, a) && Intact(sha, b) && SameStream(a, b) && EventSet(a) == EventSet(b)
    ensures SameStream(RootStream.Seal(sha, a).0, RootStream.Seal(sha, b).0)
  {
    SameGrownRow(sha, a, b);
    hide RootStream.Seal, Intact, NewLeaves, FindRoot, Public, GrownRow, GrownLog, EventSet;
    SealOfIntact(sha, a);
    SealOfIntact(sha, b);
    SameRootFound(a.roots, b.roots, GrownRow(sha, a).rootId);
    PublicAppend(a.roots, GrownRow(sha, a));
    PublicAppend(b.roots, GrownRow(sha, a));
  }

  lemma OtherStepsKeepStream(sha: Sha, db: Db, op: Op)
    requires !op.Seal? && !op.Truncate?
    ensures SameStream(Step(sha, db, op), db)
  {
    hide Ots.CommitsTo, RootById, Commit, MomentEvent;
    if op.Record? {
      var r := SetMoment(db.roots, op.publication.root, RootMoment(sha, op.publication, op.now).id);
      assert Public(r) == Public(db.roots);
    }
  }

  lemma SealStep(sha: Sha, db: Db)
    ensures Step(sha, db, Op.Seal) == RootStream.Seal(sha, db).0
  {
  }

  lemma SameLastBoundary(sha: Sha, p: seq<Op>, q: seq<Op>)
    requires |p| > 0 && |q| > 0 && p[|p| - 1].Seal? && q[|q| - 1].Seal?
    requires Boundaries(sha, EMPTY, p) == Boundaries(sha, EMPTY, q)
    ensures var a, b := p[..|p| - 1], q[..|q| - 1];
            Boundaries(sha, EMPTY, a) == Boundaries(sha, EMPTY, b)
            && EventSet(Run(sha, EMPTY, a)) == EventSet(Run(sha, EMPTY, b))
  {
    var x, y := Boundaries(sha, EMPTY, p), Boundaries(sha, EMPTY, q);
    var n := |x| - 1;
    assert x[..n] == Boundaries(sha, EMPTY, p[..|p| - 1]) && y[..n] == Boundaries(sha, EMPTY, q[..|q| - 1]);
    assert x[n] == y[n];
  }

  /** Seal determinism: two nodes that hold the same event sets at their seals publish the same log,
      the same roots and the same proofs, whatever arrived in which order in between. */
  lemma {:induction false} SameBoundariesSameStream(sha: Sha, p: seq<Op>, q: seq<Op>)
    requires Truncate !in p && Truncate !in q
    requires Boundaries(sha, EMPTY, p) == Boundaries(sha, EMPTY, q)
    ensures SameStream(Run(sha, EMPTY, p), Run(sha, EMPTY, q))
    decreases |p| + |q|
  {
    hide Step, Intact, ChainVerifies;
    var i, j := |p| - 1, |q| - 1;
    if i >= 0 && !p[i].Seal? {
      assert p[i] != Truncate;
      assert Boundaries(sha, EMPTY, p) == Boundaries(sha, EMPTY, p[..i]);
      SameBoundariesSameStream(sha, p[..i], q);
      OtherStepsKeepStream(sha, Run(sha, EMPTY, p[..i]), p[i]);
    } else if j >= 0 && !q[j].Seal? {
      assert q[j] != Truncate;
      assert Boundaries(sha, EMPTY, q) == Boundaries(sha, EMPTY, q[..j]);
      SameBoundariesSameStream(sha, p, q[..j]);
      OtherStepsKeepStream(sha, Run(sha, EMPTY, q[..j]), q[j]);
    } else if i >= 0 && j >= 0 {
      SameLastBoundary(sha, p, q);
      SameBoundariesSameStream(sha, p[..i], q[..j]);
      ReachableIntact(sha, p[..i]);
      ReachableIntact(sha, q[..j]);
      SealDeterministic(sha, Run(sha, EMPTY, p[..i]), Run(sha, EMPTY, q[..j]));
      assert Run(sha, EMPTY, p) == Step(sha, Run(sha, EMPTY, p[..i]), Op.Seal);
      assert Run(sha, EMPTY, q) == Step(sha, Run(sha, EMPTY, q[..j]), Op.Seal);
      SealStep(sha, Run(sha, EMPTY, p[..i]));
      SealStep(sha, Run(sha, EMPTY, q[..j]));
    }
  }

  // ----- The heartbeat -----

  lemma RecordedIsStored(db: Db, root: Hash, moment: Event)
    ensures moment.id in EventIds(RootStream.Record(db, root, moment).events)
    ensures forall id :: id in EventIds(RootStream.Record(db, root, moment).events)
                    <==> id in EventIds(db.events) || id == moment.id
  {
    if moment.id !in EventIds(db.events) {
      assert EventIds(db.events + [moment]) == EventIds(db.events) + [moment.id];
    }
  }

  lemma PublishedCommitsAll(sha: Sha, db: Db)
    requires Intact(sha, db) && RootStream.Seal(sha, db).1.Ok? && RootStream.Seal(sha, db).1.value.Published?
    ensures var sealed := RootStream.Seal(sha, db).0;
            Intact(sha, sealed) && sealed.events == db.events
            && forall id :: id in EventIds(sealed.events) ==> id in Ids(sealed.log)
    ensures forall id :: id in Ids(RootStream.Seal(sha, db).0.log) ==> id in EventIds(db.events)
  {
    assert LogOk(db);
    SealKeepsIntact(sha, db);
    var sealed := RootStream.Seal(sha, db).0;
    assert LogOk(sealed);
    hide RootStream.Seal, Intact, NewLeaves, GrownRow, FindRoot, Ids, EventIds, GrownLog;
    SealOfIntact(sha, db);
    NewLeavesOk(db);
    GrownLogOk(db);
  }

  /** The heartbeat, and when it stops. After a publication, the next seal has nothing to do exactly
      when the recording moment's id was already stored; and if the caller died before recording,
      the next seal has nothing to do at all. */
  lemma HeartbeatIff(sha: Sha, db: Db, moment: Event)
    requires Intact(sha, db) && RootStream.Seal(sha, db).1.Ok? && RootStream.Seal(sha, db).1.value.Published?
    ensures var (sealed, r) := RootStream.Seal(sha, db);
            var recorded := RootStream.Record(sealed, r.value.publication.root, moment);
            var next := RootStream.Seal(sha, recorded).1;
            (next.Ok? && next.value.Unchanged?) <==> moment.id in EventIds(db.events)
    ensures var next := RootStream.Seal(sha, RootStream.Seal(sha, db).0).1; next.Ok? && next.value.Unchanged?
  {
    hide RootStream.Seal, Intact, Ids, EventIds, Commit, SetMoment;
    var (sealed, r) := RootStream.Seal(sha, db);
    var root := r.value.publication.root;
    PublishedCommitsAll(sha, db);
    RecordKeepsIntact(sha, sealed, root, moment);
    RecordedIsStored(sealed, root, moment);
    UnchangedIff(sha, RootStream.Record(sealed, root, moment));
    UnchangedIff(sha, sealed);
  }

  lemma CommitKeepsIds(events: seq<Event>, e: Event, id: EventId)
    requires id in EventIds(events)
    ensures id in EventIds(Commit(events, e))
  {
    if e.id !in EventIds(events) {
      assert EventIds(events + [e]) == EventIds(events) + [e.id];
    }
  }

  lemma QuietStep(sha: Sha, db: Db, op: Op, id: EventId)
    requires !op.Seal? && !op.Truncate? && id in EventIds(db.events)
    ensures Step(sha, db, op).log == db.log && id in EventIds(Step(sha, db, op).events)
  {
    hide Ots.CommitsTo, RootById, MomentEvent, SetMoment, Commit, EventIds;
    var db' := Step(sha, db, op);
    if op.Stamp? || op.Confirm? {
      AnchoringKeepsStream(sha, db, op);
    }
    if db'.events != db.events {
      var e :| db'.events == Commit(db.events, e);
      CommitKeepsIds(db.events, e, id);
    }
  }

  /** An event that waits to be committed keeps the next seal from being idle, whatever happens
      before that seal. */
  lemma {:induction false} WaitingEventIsSealed(sha: Sha, db: Db, ops: seq<Op>, id: EventId)
    requires Intact(sha, db) && id in EventIds(db.events) && id !in Ids(db.log)
    requires Op.Seal !in ops && Truncate !in ops
    ensures var after := Run(sha, db, ops);
            Intact(sha, after) && id in EventIds(after.events) && id !in Ids(after.log)
    ensures var r := RootStream.Seal(sha, Run(sha, db, ops)).1; !(r.Ok? && r.value.Unchanged?)
  {
    hide Step, Intact, Ids, EventIds, RootStream.Seal;
    if ops != [] {
      var k := |ops| - 1;
      assert ops[k] != Op.Seal && ops[k] != Truncate;
      WaitingEventIsSealed(sha, db, ops[..k], id);
      QuietStep(sha, Run(sha, db, ops[..k]), ops[k], id);
      StepKeepsIntact(sha, Run(sha, db, ops[..k]), ops[k]);
    }
    UnchangedIff(sha, Run(sha, db, ops));
  }
}

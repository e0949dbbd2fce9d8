/** The tables as mutable state, with the operations of crates/cc-anchor/src/store.rs as the
    sequences of statements and loops they are, proved against the functions over tables. */
module Store {
  import opened Bytes
  import opened Tree
  import opened Merkle
  import opened Ordering
  import opened RootStream
  import opened Moments
  import opened RootStreamSafety
  import opened Anchors
  import Ots
  import Verifiers

  datatype ChainAudit = ChainAudit(rootsChecked: nat, proofsVerified: nat, leaves: nat, unrecorded: nat)

  function Unrecorded(rows: seq<RootRow>): nat {
    if rows == [] then 0
    else Unrecorded(rows[..|rows| - 1]) + (if rows[|rows| - 1].moment.None? then 1 else 0)
  }

  /** The rows without a moment. */
  ghost function Missing(rows: seq<RootRow>): set<int> {
    set i | 0 <= i < |rows| && rows[i].moment.None?
  }

  lemma MissingSnoc(rows: seq<RootRow>, n: nat)
    requires |rows| == n + 1
    ensures Missing(rows) == Missing(rows[..n]) + if rows[n].moment.None? then {n as int} else {}
  {
    forall i
      ensures i in Missing(rows) <==> i in Missing(rows[..n]) || (i == n && rows[n].moment.None?)
    {
    }
  }

  /** The audit's count is the number of rows without a moment. */
  lemma {:induction false} UnrecordedCounts(rows: seq<RootRow>)
    ensures Unrecorded(rows) == |Missing(rows)|
  {
    if |rows| > 0 {
      var n := |rows| - 1;
      UnrecordedCounts(rows[..n]);
      MissingSnoc(rows, n);
      assert n !in Missing(rows[..n]);
      hide Missing;
    }
  }

  method ReadLeaves(sha: Sha, rows: seq<LogRow>) returns (r: Result<seq<Hash>, AnchorError>)
    ensures r == RowsToLeaves(sha, rows)
  {
    var leaves: seq<Hash> := [];
    for i := 0 to |rows|
      invariant |leaves| == i && FirstGap(rows, 0) == FirstGap(rows, i)
      invariant forall j :: 0 <= j < i ==> leaves[j] == LeafHash(sha, rows[j].event)
    {
      if rows[i].position != i {
        return Err(LogCorrupt(i, rows[i].position));
      }
      leaves := leaves + [LeafHash(sha, rows[i].event)];
    }
    assert leaves == Leaves(sha, Ids(rows));
    r := Ok(leaves);
  }

  lemma {:induction false} OrderByLength<T>(key: T -> int, rows: seq<T>)
    ensures |OrderBy(key, rows)| == |rows|
  {
    if rows != [] {
      OrderByLength(key, rows[1..]);
      InsertByMembers(key, rows[0], OrderBy(key, rows[1..]));
    }
  }

  lemma LengthOfLeaves(sha: Sha, log: seq<LogRow>)
    requires LoadLeaves(sha, log).Ok?
    ensures |LoadLeaves(sha, log).value| == |log|
  {
    OrderByLength(LogKey, log);
  }

  lemma PublicationOfRow(roots: seq<RootRow>, row: RootRow)
    ensures var p := ToPublication(roots, row);
            p.Ok? ==> p.value.root == row.rootId && p.value.moment == row.moment
  {
  }

  class Ledger {
    var events: seq<Event>
    var log: seq<LogRow>
    var roots: seq<RootRow>
    var anchors: map<Hash, Anchor>
    var proofs: map<Hash, Bytes>

    ghost function Snapshot(): Db
      reads this
    {
      Db(events, log, roots, anchors, proofs)
    }

    constructor ()
      ensures Snapshot() == EMPTY
    {
      events, log, roots, anchors, proofs := [], [], [], map[], map[];
    }

    /** Appending is idempotent on the event id. */
    method CommitEvent(e: Event)
      modifies this`events
      ensures events == Commit(old(events), e)
    {
      if e.id !in EventIds(events) {
        events := events + [e];
      }
    }

    /** The sealing transaction: nothing is written before the last check has passed. */
    method SealEpoch(sha: Sha) returns (r: Result<RootOutcome, AnchorError>)
      modifies this`log, this`roots
      ensures (Snapshot(), r) == Seal(sha, old(Snapshot()))
    {
      hide ToPublication, OrderBy, FindRoot, RootAt, Mth, Subproof;
      var latest := LatestRoot(roots);
      if latest.Err? {
        return Err(latest.error);
      }
      var prev, next, committed := latest.value, NextPosition(log), |log|;
      if next != committed {
        return Err(LogCorrupt(committed, next - 1));
      }
      if prev.None? && committed > 0 {
        return Err(RootStreamLost(committed));
      }
      var height := if prev.None? then 0 else prev.value.height + 1;
      var added := SealRows(OrderBy(IdKey, Uncommitted(EventIds(events), Ids(log))), next, height);
      if |added| == 0 {
        return Ok(if prev.None? then Unchanged(Mth(Rfc6962(sha), []), 0)
                  else Unchanged(prev.value.root, prev.value.height));
      }
      var leaves := ReadLeaves(sha, OrderBy(LogKey, log + added));
      if leaves.Err? {
        return Err(leaves.error);
      }
      var h := Rfc6962(sha);
      var root := Mth(h, leaves.value);
      var consistency: Option<ConsistencyProof<Hash>> := None;
      if prev.Some? {
        var proof := ProveConsistency(h, leaves.value, prev.value.treeSize);
        if proof.Err? {
          return Err(Proof(proof.error));
        }
        consistency := Some(proof.value);
      }
      if FindRoot(roots, root).Some? || RootAt(roots, height).Some? {
        return Err(Database);
      }
      var prevRoot := if prev.None? then None else Some(prev.value.root);
      var blob := if consistency.None? then None else Some(Flatten(consistency.value.path));
      log := log + added;
      roots := roots + [RootRow(root, height, |leaves.value|, prevRoot, blob, None)];
      r := Ok(Published(RootPublication(height, root, |leaves.value|, prevRoot, consistency, None)));
    }

    method RecordRootMoment(sha: Sha, published: RootPublication, now: Tick) returns (id: EventId)
      modifies this`events, this`roots
      ensures id == RootMoment(sha, published, now).id
      ensures Snapshot() == Record(old(Snapshot()), published.root, RootMoment(sha, published, now))
    {
      var moment := RootMoment(sha, published, now);
      CommitEvent(moment);
      roots := SetMoment(roots, published.root, moment.id);
      id := moment.id;
    }

    /** Seal, then record: two steps, so the moment is committed by the next epoch's root. */
    method PublishRoot(sha: Sha, now: Tick) returns (r: Result<RootOutcome, AnchorError>)
      modifies this`events, this`log, this`roots
      ensures var (sealed, outcome) := Seal(sha, old(Snapshot()));
              if outcome.Ok? && outcome.value.Published? then
                var p := outcome.value.publication;
                var moment := RootMoment(sha, p, now);
                Snapshot() == Record(sealed, p.root, moment)
                && r == Ok(Published(p.(moment := Some(moment.id))))
              else Snapshot() == sealed && r == outcome
    {
      hide Seal;
      r := SealEpoch(sha);
      if r.Ok? && r.value.Published? {
        var p := r.value.publication;
        var id := RecordRootMoment(sha, p, now);
        r := Ok(Published(p.(moment := Some(id))));
      }
    }

    /** The audit accepts if and only if every root hashes its prefix of the log and every later
        root is consistent with the one below it; it then counts what it checked. */
    method VerifyRootChain(sha: Sha) returns (r: Result<ChainAudit, AnchorError>)
      ensures r.Ok? <==> ChainVerifies(sha, Snapshot())
      ensures r.Ok? ==>
                var rows := OrderBy(RootKey, roots);
                r.value == ChainAudit(|rows|, if |rows| == 0 then 0 else |rows| - 1, |log|, Unrecorded(rows))
    {
      hide ConsistencyAccepts, OrderBy, Mth, ToPublication;
      var leaves := ReadLeaves(sha, OrderBy(LogKey, log));
      if leaves.Err? {
        return Err(leaves.error);
      }
      LengthOfLeaves(sha, log);
      var rows := OrderBy(RootKey, roots);
      var audit := ChainAudit(0, 0, |leaves.value|, 0);
      var prev: Option<RootPublication> := None;
      var k := 0;
      while k < |rows|
        invariant 0 <= k <= |rows|
        invariant prev.None? <==> k == 0
        invariant k > 0 ==> prev.value.root == rows[k - 1].rootId
        invariant forall j :: 0 <= j < k ==> RowVerifies(sha, leaves.value, roots, rows, j)
        invariant audit == ChainAudit(k, if k == 0 then 0 else k - 1, |log|, Unrecorded(rows[..k]))
      {
        var published := ToPublication(roots, rows[k]);
        PublicationOfRow(roots, rows[k]);
        if published.Err? {
          assert !RowVerifies(sha, leaves.value, roots, rows, k);
          return Err(published.error);
        }
        var p := published.value;
        if p.treeSize > |leaves.value| || Mth(Rfc6962(sha), leaves.value[..p.treeSize]) != p.root {
          assert !RowVerifies(sha, leaves.value, roots, rows, k);
          return Err(RootMismatch(p.height));
        }
        assert rows[..k + 1][..k] == rows[..k];
        audit := audit.(rootsChecked := audit.rootsChecked + 1,
                        unrecorded := audit.unrecorded + if p.moment.None? then 1 else 0);
        if prev.Some? {
          var ok := false;
          if p.consistency.Some? {
            ok := Verifiers.VerifyConsistency(Rfc6962(sha), p.consistency.value, prev.value.root, p.root);
          }
          if !ok {
            assert !RowVerifies(sha, leaves.value, roots, rows, k);
            return Err(ConsistencyBroken(p.height));
          }
          audit := audit.(proofsVerified := audit.proofsVerified + 1);
        }
        assert RowVerifies(sha, leaves.value, roots, rows, k);
        prev := Some(p);
        k := k + 1;
      }
      assert rows[..k] == rows;
      r := Ok(audit);
    }

    /** Stamping is three writes; `crash` says after which of them the caller dies. */
    method Stamp(sha: Sha, root: Hash, proof: Bytes, calendar: Bytes, now: Tick, crash: Crash)
      returns (r: Result<Anchor, AnchorError>)
      modifies this`proofs, this`events, this`anchors
      ensures (Snapshot(), r) == RecordStamp(sha, old(Snapshot()), root, proof, calendar, now, crash)
    {
      hide Ots.CommitsTo, RootById, MomentEvent;
      if Ots.CommitsTo(proof, root).Err? {
        return Err(AnchorError.Ots);
      }
      var published := RootById(roots, root);
      if published.Err? {
        return Err(published.error);
      }
      if root in anchors {
        return Err(AnchorState);
      }
      if !(1 <= |proof| <= MAX_PROOF) {
        return Err(Database);
      }
      var blob := sha(proof);
      if blob !in proofs {
        proofs := proofs[blob := proof];
      }
      if crash.AfterFirst? {
        return Err(Database);
      }
      if |calendar| >= FRAME_LIMIT {
        return Err(Panic);
      }
      var moment := PendingMoment(sha, published.value, blob, calendar, now);
      CommitEvent(moment);
      if crash.AfterSecond? || 0 in calendar {
        return Err(Database);
      }
      var anchor := Anchor(Pending, blob, calendar, None, None, moment.id);
      anchors := anchors[root := anchor];
      r := Ok(anchor);
    }

    /** Confirming appends a superseding moment and then collapses the row. */
    method Confirm(sha: Sha, root: Hash, height: nat, txid: Option<Bytes>, now: Tick, crash: Crash)
      returns (r: Result<Anchor, AnchorError>)
      modifies this`events, this`anchors
      ensures (Snapshot(), r) == ConfirmAnchor(sha, old(Snapshot()), root, height, txid, now, crash)
    {
      hide RootById, MomentEvent;
      var published := RootById(roots, root);
      if published.Err? {
        return Err(published.error);
      }
      if root !in anchors {
        return Err(AnchorState);
      }
      var pending := anchors[root];
      if pending.status.Confirmed? {
        return Err(AnchorState);
      }
      if |pending.calendar| >= FRAME_LIMIT || |TxidBytes(txid)| >= FRAME_LIMIT {
        return Err(Panic);
      }
      var moment := ConfirmedMoment(sha, published.value, pending, height, txid, now);
      CommitEvent(moment);
      if !crash.Never? || height >= I64_SIGN {
        return Err(Database);
      }
      var anchor := pending.(status := Confirmed, blockHeight := Some(height), txid := txid, moment := moment.id);
      anchors := anchors[root := anchor];
      r := Ok(anchor);
    }

    /** The calendars are asked in order until one attests to a block. */
    method Upgrade(sha: Sha, root: Hash, ask: Calendar, now: Tick, crash: Crash)
      returns (r: Result<Anchor, AnchorError>)
      modifies this`events, this`anchors
      ensures (Snapshot(), r) == UpgradeAnchor(sha, old(Snapshot()), root, ask, now, crash)
    {
      hide Ots.Commitments, Ots.AttestationsIn, ConfirmAnchor, LoadProof, PendingOf;
      if root !in anchors {
        return Err(AnchorState);
      }
      var record := anchors[root];
      if record.status.Confirmed? {
        return Ok(record);
      }
      var loaded := LoadProof(sha, Db(events, log, roots, anchors, proofs), record.blobHash);
      if loaded.Err? {
        return Err(loaded.error);
      }
      var walked := Ots.Commitments(sha, loaded.value);
      if walked.Err? {
        return Err(AnchorError.Ots);
      }
      var pending := PendingOf(walked.value);
      ghost var goal := AskCalendars(sha, ask, pending);
      assert pending[0..] == pending;
      for i := 0 to |pending|
        invariant Snapshot() == old(Snapshot())
        invariant AskCalendars(sha, ask, pending[i..]) == goal
      {
        assert pending[i..][1..] == pending[i + 1..];
        var (uri, message) := pending[i];
        var answer := ask(uri, message);
        if answer.Err? {
          return Err(AnchorError.Ots);
        }
        if answer.value.Some? {
          var cs := Ots.AttestationsIn(sha, answer.value.value, message);
          if cs.Err? {
            return Err(AnchorError.Ots);
          }
          var height := FirstBitcoin(cs.value);
          if height.Some? {
            r := Confirm(sha, root, height.value, None, now, crash);
            return;
          }
        }
      }
      r := Ok(record);
    }
  }
}

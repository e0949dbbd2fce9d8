/** What every step of the root stream keeps, and what follows for readers and auditors. */
module RootStreamSafety {
  import opened Bytes
  import opened Tree
  import opened Merkle
  import opened Ordering
  import opened RootStream
  import TreeProofs
  import Digits

  // ----- The invariant -----

  ghost predicate Distinct(ids: seq<Hash>) {
    forall i, j :: 0 <= i < j < |ids| ==> ids[i] != ids[j]
  }

  /** Positions count up from 0, and the committed events are distinct stored events. */
  ghost predicate LogOk(db: Db) {
    (forall i :: 0 <= i < |db.log| ==> db.log[i].position == i)
    && Distinct(Ids(db.log)) && Distinct(EventIds(db.events))
    && forall i :: 0 <= i < |db.log| ==> Ids(db.log)[i] in EventIds(db.events)
  }

  /** The proof blob from the first `old` events to all of `ids`. */
  ghost function StoredProof(sha: Sha, ids: seq<EventId>, old_: nat): Bytes {
    if 0 < old_ <= |ids| then Flatten(Subproof(Rfc6962(sha), Leaves(sha, ids), old_, true)) else []
  }

  /** The root at height `k` commits to a prefix of the log that strictly extends the one below
      it, and stores the proof of that. */
  ghost predicate RootOk(sha: Sha, ids: seq<EventId>, roots: seq<RootRow>, k: nat)
    requires k < |roots|
  {
    var row := roots[k];
    row.height == k && 0 < row.treeSize <= |ids|
    && row.rootId == MerkleRoot(sha, ids[..row.treeSize])
    && if k == 0 then row.prevRoot == None && row.consistency == None
       else
         roots[k - 1].treeSize < row.treeSize && row.prevRoot == Some(roots[k - 1].rootId)
         && row.consistency == Some(StoredProof(sha, ids[..row.treeSize], roots[k - 1].treeSize))
  }

  ghost predicate RootsOk(sha: Sha, ids: seq<EventId>, roots: seq<RootRow>) {
    |roots| > 0 && roots[|roots| - 1].treeSize == |ids|
    && (forall k :: 0 <= k < |roots| ==> RootOk(sha, ids, roots, k))
    && forall j, k :: 0 <= j < k < |roots| ==> roots[j].rootId != roots[k].rootId
  }

  /** Each leaf's epoch is the height of the first root that commits to it. */
  ghost predicate EpochsOk(log: seq<LogRow>, roots: seq<RootRow>) {
    forall i :: 0 <= i < |log| ==>
      var e := log[i].epoch;
      e < |roots| && i < roots[e].treeSize && (e > 0 ==> roots[e - 1].treeSize <= i)
  }

  /** The stream is intact: empty with an empty log, or covering the log. */
  ghost predicate Intact(sha: Sha, db: Db) {
    LogOk(db)
    && if |db.log| == 0 then |db.roots| == 0
       else RootsOk(sha, Ids(db.log), db.roots) && EpochsOk(db.log, db.roots)
  }

  /** The stream is lost: leaves are committed and no root is published. */
  ghost predicate Lost(db: Db) { LogOk(db) && |db.log| > 0 && |db.roots| == 0 }

  // ----- Ordered reads of an intact stream -----

  lemma LogInOrder(db: Db)
    requires LogOk(db)
    ensures OrderBy(LogKey, db.log) == db.log
    ensures NextPosition(db.log) == |db.log|
  {
    OrderByFixed(LogKey, db.log);
  }

  lemma LoadedLeaves(sha: Sha, db: Db)
    requires LogOk(db)
    ensures LoadLeaves(sha, db.log) == Ok(Leaves(sha, Ids(db.log)))
  {
    LogInOrder(db);
  }

  lemma RootsInOrder(sha: Sha, ids: seq<EventId>, roots: seq<RootRow>)
    requires RootsOk(sha, ids, roots)
    ensures OrderBy(RootKey, roots) == roots
  {
    forall i, j | 0 <= i < j < |roots|
      ensures RootKey(roots[i]) < RootKey(roots[j])
    {
      assert RootOk(sha, ids, roots, i) && RootOk(sha, ids, roots, j);
    }
    OrderByFixed(RootKey, roots);
  }

  lemma {:induction false} FindRootFinds(roots: seq<RootRow>, k: nat)
    requires k < |roots|
    requires forall i, j :: 0 <= i < j < |roots| ==> roots[i].rootId != roots[j].rootId
    ensures FindRoot(roots, roots[k].rootId) == Some(roots[k])
  {
    if k > 0 {
      FindRootFinds(roots[1..], k - 1);
    }
  }

  /** The proof of the publication at height `k`, as it was when it was made. */
  ghost function PublishedProof(sha: Sha, ids: seq<EventId>, roots: seq<RootRow>, k: nat): ConsistencyProof<Hash>
    requires RootsOk(sha, ids, roots) && 0 < k < |roots|
  {
    assert RootOk(sha, ids, roots, k);
    assert RootOk(sha, ids, roots, k - 1);
    var m, n := roots[k - 1].treeSize, roots[k].treeSize;
    ConsistencyProof(m, n, Subproof(Rfc6962(sha), Leaves(sha, ids[..n]), m, true))
  }

  lemma PublicationReads(sha: Sha, ids: seq<EventId>, roots: seq<RootRow>, k: nat)
    requires RootsOk(sha, ids, roots) && k < |roots|
    ensures ToPublication(roots, roots[k]) == Ok(RootPublication(
              k, roots[k].rootId, roots[k].treeSize, roots[k].prevRoot,
              if k == 0 then None else Some(PublishedProof(sha, ids, roots, k)), roots[k].moment))
  {
    assert RootOk(sha, ids, roots, k);
    if k > 0 {
      assert RootOk(sha, ids, roots, k - 1);
      FindRootFinds(roots, k - 1);
      UnflattenInverts(PublishedProof(sha, ids, roots, k).path);
    }
  }

  lemma LeavesPrefix(sha: Sha, ids: seq<EventId>, n: nat)
    requires n <= |ids|
    ensures Leaves(sha, ids[..n]) == Leaves(sha, ids)[..n]
  {
  }

  /** Every stored proof verifies between the roots it joins. */
  lemma StoredProofVerifies(sha: Sha, ids: seq<EventId>, roots: seq<RootRow>, k: nat)
    requires RootsOk(sha, ids, roots) && 0 < k < |roots|
    ensures ConsistencyAccepts(Rfc6962(sha), PublishedProof(sha, ids, roots, k), roots[k - 1].rootId, roots[k].rootId)
  {
    hide ConsistencyAccepts;
    assert RootOk(sha, ids, roots, k);
    assert RootOk(sha, ids, roots, k - 1);
    var m, n := roots[k - 1].treeSize, roots[k].treeSize;
    var prefix := ids[..n];
    LeavesPrefix(sha, prefix, m);
    assert prefix[..m] == ids[..m];
    TreeProofs.ConsistencyComplete(Rfc6962(sha), Leaves(sha, prefix), m);
  }

  // ----- The audit -----

  /** What `verify_root_chain` checks of the `k`-th row in height order. */
  ghost predicate RowVerifies(sha: Sha, leaves: seq<Hash>, roots: seq<RootRow>, rows: seq<RootRow>, k: nat)
    requires k < |rows|
  {
    var p := ToPublication(roots, rows[k]);
    p.Ok? && p.value.treeSize <= |leaves|
    && Mth(Rfc6962(sha), leaves[..p.value.treeSize]) == p.value.root
    && (k > 0 ==>
          p.value.consistency.Some?
          && ConsistencyAccepts(Rfc6962(sha), p.value.consistency.value, rows[k - 1].rootId, rows[k].rootId))
  }

  ghost predicate ChainVerifies(sha: Sha, db: Db) {
    var rows := OrderBy(RootKey, db.roots);
    var leaves := LoadLeaves(sha, db.log);
    leaves.Ok? && forall k :: 0 <= k < |rows| ==> RowVerifies(sha, leaves.value, db.roots, rows, k)
  }

  /** An intact stream passes the audit. */
  lemma IntactVerifies(sha: Sha, db: Db)
    requires Intact(sha, db)
    ensures ChainVerifies(sha, db)
  {
    LoadedLeaves(sha, db);
    var ids, leaves := Ids(db.log), Leaves(sha, Ids(db.log));
    assert |db.roots| == 0 ==> OrderBy(RootKey, db.roots) == [];
    hide ConsistencyAccepts, Mth, OrderBy, LoadLeaves, ToPublication, LogOk, EpochsOk;
    if |db.log| > 0 {
      RootsInOrder(sha, ids, db.roots);
      forall k | 0 <= k < |db.roots|
        ensures RowVerifies(sha, leaves, db.roots, db.roots, k)
      {
        assert RootOk(sha, ids, db.roots, k);
        PublicationReads(sha, ids, db.roots, k);
        LeavesPrefix(sha, ids, db.roots[k].treeSize);
        if k > 0 {
          StoredProofVerifies(sha, ids, db.roots, k);
        }
      }
    }
  }

  // ----- Sealing keeps the stream intact -----

  lemma IdKeyInjective(a: EventId, b: EventId)
    ensures IdKey(a) == IdKey(b) <==> a == b
  {
    Digits.LexIsNumeric(Digits.Octets, a, b);
  }

  lemma DistinctKeysOfIds(ids: seq<EventId>)
    requires Distinct(ids)
    ensures DistinctKeys(IdKey, ids)
  {
    forall i, j | 0 <= i < j < |ids|
      ensures IdKey(ids[i]) != IdKey(ids[j])
    {
      IdKeyInjective(ids[i], ids[j]);
    }
  }

  lemma {:induction false} UncommittedDistinct(ids: seq<EventId>, committed: seq<EventId>)
    requires Distinct(ids)
    ensures Distinct(Uncommitted(ids, committed))
  {
    if ids != [] {
      UncommittedDistinct(ids[1..], committed);
      var rest := Uncommitted(ids[1..], committed);
      forall i | 0 <= i < |rest|
        ensures rest[i] != ids[0]
      {
        assert rest[i] in ids[1..];
      }
    }
  }

  /** A seal adds exactly the events no leaf names, each once, in the byte order of their ids. */
  lemma NewLeavesOk(db: Db)
    requires LogOk(db)
    ensures forall i, j :: 0 <= i < j < |NewLeaves(db)| ==> Digits.LexLess(NewLeaves(db)[i], NewLeaves(db)[j])
    ensures Ascending(IdKey, NewLeaves(db)) && Distinct(NewLeaves(db))
    ensures forall id :: id in NewLeaves(db) <==> id in EventIds(db.events) && id !in Ids(db.log)
  {
    var new_ := Uncommitted(EventIds(db.events), Ids(db.log));
    UncommittedDistinct(EventIds(db.events), Ids(db.log));
    DistinctKeysOfIds(new_);
    OrderByCorrect(IdKey, new_);
    forall id ensures id in NewLeaves(db) <==> id in new_ {
      assert id in Members(NewLeaves(db)) <==> id in Members(new_);
    }
    forall i, j | 0 <= i < j < |NewLeaves(db)|
      ensures NewLeaves(db)[i] != NewLeaves(db)[j]
    {
      assert IdKey(NewLeaves(db)[i]) < IdKey(NewLeaves(db)[j]);
    }
    forall i, j | 0 <= i < j < |NewLeaves(db)|
      ensures Digits.LexLess(NewLeaves(db)[i], NewLeaves(db)[j])
    {
      Digits.LexIsNumeric(Digits.Octets, NewLeaves(db)[i], NewLeaves(db)[j]);
    }
  }

  ghost function GrownLog(db: Db): seq<LogRow> {
    db.log + SealRows(NewLeaves(db), |db.log|, |db.roots|)
  }

  /** The row a seal of an intact stream inserts. */
  ghost function GrownRow(sha: Sha, db: Db): RootRow {
    var ids, n := Ids(GrownLog(db)), |db.roots|;
    RootRow(MerkleRoot(sha, ids), n, |ids|,
            if n == 0 then None else Some(db.roots[n - 1].rootId),
            if n == 0 then None else Some(StoredProof(sha, ids, |db.log|)), None)
  }

  lemma GrownLogOk(db: Db)
    requires LogOk(db)
    ensures LogOk(db.(log := GrownLog(db)))
    ensures Ids(GrownLog(db)) == Ids(db.log) + NewLeaves(db)
  {
    NewLeavesOk(db);
    var new_, ids := NewLeaves(db), Ids(db.log);
    assert Ids(GrownLog(db)) == ids + new_;
    forall i, j | 0 <= i < j < |ids| + |new_|
      ensures (ids + new_)[i] != (ids + new_)[j]
    {
      if i < |ids| <= j {
        assert new_[j - |ids|] in new_ && ids[i] in ids;
      }
    }
    forall i | 0 <= i < |ids| + |new_|
      ensures (ids + new_)[i] in EventIds(db.events)
    {
      if i >= |ids| {
        assert new_[i - |ids|] in new_;
      }
    }
  }

  /** The publication a seal of an intact stream extends. */
  ghost function Head(sha: Sha, db: Db): Option<RootPublication>
    requires Intact(sha, db)
  {
    var n, roots := |db.roots|, db.roots;
    if n == 0 then None
    else
      Some(RootPublication(n - 1, roots[n - 1].rootId, roots[n - 1].treeSize, roots[n - 1].prevRoot,
                           if n == 1 then None else Some(PublishedProof(sha, Ids(db.log), roots, n - 1)),
                           roots[n - 1].moment))
  }

  lemma HeadIsLatest(sha: Sha, db: Db)
    requires Intact(sha, db)
    ensures LatestRoot(db.roots) == Ok(Head(sha, db))
    ensures Head(sha, db).None? <==> |db.log| == 0
    ensures |db.roots| == if Head(sha, db).None? then 0 else Head(sha, db).value.height + 1
    ensures RootAt(db.roots, |db.roots|).None?
  {
    var ids, n := Ids(db.log), |db.roots|;
    if n > 0 {
      RootsInOrder(sha, ids, db.roots);
      PublicationReads(sha, ids, db.roots, n - 1);
      forall k | 0 <= k < n
        ensures db.roots[k].height != n
      {
        assert RootOk(sha, ids, db.roots, k);
      }
    } else {
      assert OrderBy(RootKey, db.roots) == [];
    }
  }

  /** The publication says what the row says, with the proof it stores as the prover gives it. */
  ghost predicate Announces(sha: Sha, p: RootPublication, row: RootRow, ids: seq<EventId>, oldSize: nat) {
    p.height == row.height && p.root == row.rootId && p.treeSize == row.treeSize == |ids|
    && p.prevRoot == row.prevRoot && p.moment == None
    && (p.consistency.Some? <==> row.height > 0)
    && (p.consistency.Some? ==> Ok(p.consistency.value) == ProveConsistency(Rfc6962(sha), Leaves(sha, ids), oldSize))
  }

  lemma SealedRowOfIntact(sha: Sha, db: Db)
    requires Intact(sha, db) && NewLeaves(db) != []
    ensures var sealed := SealedRow(sha, GrownLog(db), Head(sha, db), |db.roots|);
            sealed.Ok? && sealed.value.0 == GrownRow(sha, db)
            && Announces(sha, sealed.value.1, GrownRow(sha, db), Ids(GrownLog(db)), |db.log|)
  {
    GrownLogOk(db);
    LoadedLeaves(sha, db.(log := GrownLog(db)));
  }

  /** What an idle seal answers: the latest root and its height, or the root of nothing. */
  ghost function IdleAnswer(sha: Sha, db: Db): RootOutcome {
    var n := |db.roots|;
    if n == 0 then Unchanged(sha([]), 0) else Unchanged(db.roots[n - 1].rootId, n - 1)
  }

  /** What sealing an intact stream does: nothing new, or one row over the grown log, or (only if
      the new root equals an old one) a refused insert. */
  lemma SealOfIntact(sha: Sha, db: Db)
    requires Intact(sha, db)
    ensures var (db', r) := Seal(sha, db);
            var row := GrownRow(sha, db);
            if NewLeaves(db) == [] then db' == db && r == Ok(IdleAnswer(sha, db))
            else if FindRoot(db.roots, row.rootId).Some? then db' == db && r == Err(Database)
            else
              db' == db.(log := GrownLog(db), roots := db.roots + [row])
              && r.Ok? && r.value.Published?
              && Announces(sha, r.value.publication, row, Ids(db'.log), |db.log|)
  {
    assert LogOk(db);
    hide Intact, Head, LatestRoot, NextPosition, SealedRow, NewLeaves, GrownRow, FindRoot, RootAt, LogOk;
    hide Mth, OrderBy, Ids, Announces;
    LogInOrder(db);
    HeadIsLatest(sha, db);
    if NewLeaves(db) != [] {
      SealedRowOfIntact(sha, db);
    }
  }

  /** The proof from the last root to the grown log exists and verifies. */
  lemma GrownProofVerifies(sha: Sha, db: Db)
    requires Intact(sha, db) && |db.roots| > 0
    ensures var grown, last := Ids(GrownLog(db)), db.roots[|db.roots| - 1].rootId;
            var proof := ProveConsistency(Rfc6962(sha), Leaves(sha, grown), |db.log|);
            proof.Ok? && proof.value.oldSize == |db.log| && proof.value.newSize == |grown|
            && ConsistencyAccepts(Rfc6962(sha), proof.value, last, MerkleRoot(sha, grown))
  {
    var n, ids, grown := |db.roots|, Ids(db.log), Ids(GrownLog(db));
    assert LogOk(db);
    hide NewLeaves, GrownLog, ConsistencyAccepts, Mth, Subproof, LogOk, EpochsOk, StoredProof;
    GrownLogOk(db);
    assert RootOk(sha, ids, db.roots, n - 1);
    assert ids[..|ids|] == ids && grown[..|ids|] == ids;
    LeavesPrefix(sha, grown, |ids|);
    TreeProofs.ConsistencyComplete(Rfc6962(sha), Leaves(sha, grown), |ids|);
  }

  /** A publication describes the new state: its size is that of the log, it is what the last row
      reads back as, and its proof is accepted between the last two roots. */
  lemma PublicationOfSeal(sha: Sha, db: Db)
    requires Intact(sha, db) && Seal(sha, db).1.Ok? && Seal(sha, db).1.value.Published?
    ensures var (db', r) := Seal(sha, db);
            var p, n := r.value.publication, |db.roots|;
            |db'.roots| == n + 1 && db'.roots[..n] == db.roots
            && p.height == n && p.root == db'.roots[n].rootId == MerkleRoot(sha, Ids(db'.log))
            && p.treeSize == |db'.log| > |db.log|
            && (n == 0 ==> p.prevRoot == None && p.consistency == None)
            && (n > 0 ==>
                  p.prevRoot == Some(db.roots[n - 1].rootId) && p.consistency.Some?
                  && p.consistency.value.oldSize == |db.log| && p.consistency.value.newSize == |db'.log|
                  && ConsistencyAccepts(Rfc6962(sha), p.consistency.value, db.roots[n - 1].rootId, p.root))
  {
    assert LogOk(db);
    hide Intact, Seal, NewLeaves, GrownLog, FindRoot, ConsistencyAccepts, MerkleRoot, ProveConsistency, LogOk,
      StoredProof, Leaves;
    SealOfIntact(sha, db);
    GrownLogOk(db);
    if |db.roots| > 0 {
      GrownProofVerifies(sha, db);
    }
  }

  /** The grown log and the prefix under root `k` hash preimages that collide. */
  ghost predicate RootCollides(sha: Sha, db: Db, k: nat) {
    k < |db.roots| && db.roots[k].treeSize <= |db.log|
    && Collides(sha, LogPreimages(sha, Ids(GrownLog(db))) + LogPreimages(sha, Ids(db.log)[..db.roots[k].treeSize]))
  }

  /** An intact stream with new events publishes, unless what is hashed for the grown log and for a
      published prefix collides. */
  lemma SealPublishesOrCollides(sha: Sha, db: Db)
    requires Intact(sha, db) && NewLeaves(db) != []
    ensures (Seal(sha, db).1.Ok? && Seal(sha, db).1.value.Published?) || exists k :: RootCollides(sha, db, k)
  {
    hide Seal, NewLeaves, GrownLog, MerkleRoot, LogPreimages, Collides, StoredProof, EpochsOk, FindRoot;
    SealOfIntact(sha, db);
    var id := GrownRow(sha, db).rootId;
    var found := FindRoot(db.roots, id);
    if found.Some? {
      var k :| 0 <= k < |db.roots| && db.roots[k] == found.value;
      assert RootOk(sha, Ids(db.log), db.roots, k);
      var prefix := Ids(db.log)[..db.roots[k].treeSize];
      GrownLogOk(db);
      RootIdentity(sha, Ids(GrownLog(db)), prefix);
      assert RootCollides(sha, db, k);
    }
  }

  /** A seal finds nothing new if and only if every stored event is already committed. */
  lemma UnchangedIff(sha: Sha, db: Db)
    requires Intact(sha, db)
    ensures (Seal(sha, db).1.Ok? && Seal(sha, db).1.value.Unchanged?)
       <==> forall id :: id in EventIds(db.events) ==> id in Ids(db.log)
  {
    assert LogOk(db);
    hide Seal, NewLeaves, GrownRow, FindRoot, Intact, LogOk, Ids, EventIds;
    SealOfIntact(sha, db);
    NewLeavesOk(db);
    if NewLeaves(db) != [] {
      assert NewLeaves(db)[0] in NewLeaves(db);
    }
  }

  lemma GrownRootsOk(sha: Sha, db: Db)
    requires Intact(sha, db) && NewLeaves(db) != []
    requires Ids(GrownLog(db)) == Ids(db.log) + NewLeaves(db)
    requires FindRoot(db.roots, GrownRow(sha, db).rootId).None?
    ensures RootsOk(sha, Ids(GrownLog(db)), db.roots + [GrownRow(sha, db)])
  {
    hide MerkleRoot, StoredProof, Ids, NewLeaves, GrownLog, LogOk;
    var ids, ids', roots, row := Ids(db.log), Ids(GrownLog(db)), db.roots, GrownRow(sha, db);
    var roots' := roots + [row];
    forall k | 0 <= k < |roots'|
      ensures RootOk(sha, ids', roots', k)
    {
      if k < |roots| {
        assert RootOk(sha, ids, roots, k);
        assert ids'[..roots[k].treeSize] == ids[..roots[k].treeSize];
      } else {
        assert ids'[..|ids'|] == ids';
      }
    }
  }

  lemma GrownEpochsOk(sha: Sha, db: Db)
    requires Intact(sha, db) && NewLeaves(db) != []
    ensures EpochsOk(GrownLog(db), db.roots + [GrownRow(sha, db)])
  {
    var roots' := db.roots + [GrownRow(sha, db)];
    forall i | 0 <= i < |GrownLog(db)|
      ensures var e := GrownLog(db)[i].epoch;
              e < |roots'| && i < roots'[e].treeSize && (e > 0 ==> roots'[e - 1].treeSize <= i)
    {
      if i >= |db.log| {
        assert GrownLog(db)[i].epoch == |db.roots|;
      }
    }
  }

  /** Sealing keeps an intact stream intact. */
  lemma SealKeepsIntact(sha: Sha, db: Db)
    requires Intact(sha, db)
    ensures Intact(sha, Seal(sha, db).0)
  {
    SealOfIntact(sha, db);
    var db' := Seal(sha, db).0;
    if db' != db {
      GrownLogOk(db);
      GrownRootsOk(sha, db);
      GrownEpochsOk(sha, db);
    }
  }

  /** A seal of a lost stream refuses and changes nothing. */
  lemma SealOfLost(sha: Sha, db: Db)
    requires Lost(db)
    ensures Seal(sha, db) == (db, Err(RootStreamLost(|db.log|)))
  {
    LogInOrder(db);
    assert OrderBy(RootKey, db.roots) == [];
  }

  // ----- Arrivals and recordings -----

  lemma CommitKeepsLog(db: Db, e: Event)
    requires LogOk(db)
    ensures LogOk(db.(events := Commit(db.events, e)))
  {
    if e.id !in EventIds(db.events) {
      var ids := EventIds(db.events);
      assert EventIds(Commit(db.events, e)) == ids + [e.id];
    }
  }

  lemma SetMomentKeepsRoots(sha: Sha, ids: seq<EventId>, roots: seq<RootRow>, root: Hash, moment: EventId)
    requires RootsOk(sha, ids, roots)
    ensures RootsOk(sha, ids, SetMoment(roots, root, moment))
  {
    hide MerkleRoot, StoredProof;
    var roots' := SetMoment(roots, root, moment);
    forall k | 0 <= k < |roots'|
      ensures RootOk(sha, ids, roots', k)
    {
      assert RootOk(sha, ids, roots, k);
    }
  }

  /** After a recording the root's row carries the moment, the moment is stored, and every other row
      is as it was. */
  lemma RecordedRow(db: Db, root: Hash, moment: Event, i: nat)
    requires i < |db.roots|
    ensures var after := Record(db, root, moment);
            |after.roots| == |db.roots| && moment.id in EventIds(after.events)
            && (if db.roots[i].rootId == root then after.roots[i] == db.roots[i].(moment := Some(moment.id))
                else after.roots[i] == db.roots[i])
  {
    if moment.id !in EventIds(db.events) {
      assert EventIds(db.events + [moment])[|db.events|] == moment.id;
    }
  }

  /** Recording a moment changes no fact the invariant speaks of. */
  lemma RecordKeepsIntact(sha: Sha, db: Db, root: Hash, moment: Event)
    requires Intact(sha, db)
    ensures Intact(sha, Record(db, root, moment))
  {
    hide RootsOk, Commit;
    CommitKeepsLog(db, moment);
    if |db.log| > 0 {
      SetMomentKeepsRoots(sha, Ids(db.log), db.roots, root, moment.id);
    }
  }

  lemma ArriveKeepsIntact(sha: Sha, db: Db, e: Event)
    requires Intact(sha, db)
    ensures Intact(sha, db.(events := Commit(db.events, e)))
  {
    CommitKeepsLog(db, e);
  }

  // ----- Inclusion of events -----

  lemma {:induction false} SizesAscend(sha: Sha, ids: seq<EventId>, roots: seq<RootRow>, j: nat, k: nat)
    requires RootsOk(sha, ids, roots) && j <= k < |roots|
    ensures roots[j].treeSize <= roots[k].treeSize
    decreases k - j
  {
    if j < k {
      assert RootOk(sha, ids, roots, k);
      SizesAscend(sha, ids, roots, j, k - 1);
    }
  }

  lemma {:induction false} FindEventFinds(log: seq<LogRow>, i: nat)
    requires i < |log| && Distinct(Ids(log))
    ensures FindEvent(log, log[i].event) == Some(log[i])
  {
    if i > 0 {
      assert Ids(log)[0] != Ids(log)[i];
      assert Distinct(Ids(log[1..])) by {
        forall a, b | 0 <= a < b < |log| - 1
          ensures Ids(log[1..])[a] != Ids(log[1..])[b]
        {
          assert Ids(log)[a + 1] != Ids(log)[b + 1];
        }
      }
      FindEventFinds(log[1..], i - 1);
    }
  }

  lemma {:induction false} CoveringFinds(rows: seq<RootRow>, position: nat, e: nat)
    requires e < |rows| && rows[e].treeSize > position
    requires forall k :: 0 <= k < e ==> rows[k].treeSize <= position
    ensures FirstCovering(rows, position) == Some(rows[e])
  {
    if e > 0 {
      CoveringFinds(rows[1..], position, e - 1);
    }
  }

  /** No root below the leaf's epoch commits to it. */
  lemma LowerRootsMiss(sha: Sha, db: Db, i: nat, k: nat)
    requires Intact(sha, db) && i < |db.log| && k < db.log[i].epoch
    ensures db.log[i].epoch < |db.roots| && db.roots[k].treeSize <= i
    ensures db.log[i].event !in Ids(db.log)[..db.roots[k].treeSize]
  {
    var ids, n := Ids(db.log), db.roots[k].treeSize;
    SizesAscend(sha, ids, db.roots, k, db.log[i].epoch - 1);
    forall j | 0 <= j < n
      ensures ids[..n][j] != db.log[i].event
    {
      assert ids[j] != ids[i];
    }
  }

  /** The answer of an intact stream to a request for a proof. */
  lemma ProveEventReads(sha: Sha, db: Db, i: nat)
    requires Intact(sha, db) && i < |db.log|
    ensures var e := db.log[i].epoch;
            e < |db.roots| && i < db.roots[e].treeSize <= |db.log|
            && db.roots[e].rootId == MerkleRoot(sha, Ids(db.log)[..db.roots[e].treeSize])
            && ProveEvent(sha, db, db.log[i].event) == Ok(EventInclusion(
                 db.log[i].event, Leaves(sha, Ids(db.log))[i], db.roots[e].rootId, e,
                 ProveInclusion(Rfc6962(sha), Leaves(sha, Ids(db.log))[..db.roots[e].treeSize], i).value))
  {
    hide FindEvent, FirstCovering, LoadLeaves, ToPublication, AuditPath, Mth, MerkleRoot, Leaves, OrderBy;
    var ids, roots, e := Ids(db.log), db.roots, db.log[i].epoch;
    FindEventFinds(db.log, i);
    assert RootOk(sha, ids, roots, e);
    forall k | 0 <= k < e
      ensures roots[k].treeSize <= i
    {
      LowerRootsMiss(sha, db, i, k);
    }
    RootsInOrder(sha, ids, roots);
    CoveringFinds(roots, i, e);
    PublicationReads(sha, ids, roots, e);
    LoadedLeaves(sha, db);
    hide RootOk, RootsOk;
  }

  lemma EarliestProof(sha: Sha, ids: seq<EventId>, n: nat, i: nat)
    requires i < n <= |ids|
    ensures var h, leaves := Rfc6962(sha), Leaves(sha, ids);
            var r := ProveInclusion(h, leaves[..n], i);
            r.Ok? && leaves[i] == LeafHash(sha, ids[i]) && r.value.leafIndex == i && r.value.treeSize == n
            && InclusionAccepts(h, r.value, leaves[i], MerkleRoot(sha, ids[..n]))
  {
    hide InclusionAccepts, AuditPath, Mth;
    LeavesPrefix(sha, ids, n);
    var leaves := Leaves(sha, ids);
    TreeProofs.InclusionComplete(Rfc6962(sha), leaves[..n], i);
    assert leaves[..n][i] == leaves[i];
  }

  /** Earliest root: an intact stream proves every committed event, against the root whose height
      was stored with its leaf; the proof verifies and no lower root commits to the event. */
  lemma ProvesEarliest(sha: Sha, db: Db, i: nat)
    requires Intact(sha, db) && i < |db.log|
    ensures var r := ProveEvent(sha, db, db.log[i].event);
            r.Ok? && r.value.height == db.log[i].epoch < |db.roots|
            && r.value.root == db.roots[r.value.height].rootId
            && r.value.event == db.log[i].event && r.value.leaf == sha([0] + db.log[i].event)
            && r.value.proof.leafIndex == i && r.value.proof.treeSize == db.roots[r.value.height].treeSize
            && InclusionAccepts(Rfc6962(sha), r.value.proof, r.value.leaf, r.value.root)
    ensures forall k :: 0 <= k < db.log[i].epoch ==>
              db.roots[k].treeSize <= i && db.log[i].event !in Ids(db.log)[..db.roots[k].treeSize]
  {
    hide Intact, ProveEvent, InclusionAccepts, MerkleRoot, Leaves;
    ProveEventReads(sha, db, i);
    EarliestProof(sha, Ids(db.log), db.roots[db.log[i].epoch].treeSize, i);
    forall k | 0 <= k < db.log[i].epoch
      ensures db.roots[k].treeSize <= i && db.log[i].event !in Ids(db.log)[..db.roots[k].treeSize]
    {
      LowerRootsMiss(sha, db, i, k);
    }
  }

  /** No lower root can be made to speak for the event: any inclusion proof of that root's size
      which its root accepts for the event exhibits a collision. */
  lemma LowerRootProvesNothing(sha: Sha, db: Db, i: nat, k: nat, proof: InclusionProof<Hash>)
    requires Intact(sha, db) && i < |db.log| && k < db.log[i].epoch && k < |db.roots|
    requires proof.treeSize == db.roots[k].treeSize <= |db.log|
    requires InclusionAccepts(Rfc6962(sha), proof, LeafHash(sha, db.log[i].event), db.roots[k].rootId)
    ensures proof.leafIndex < proof.treeSize
    ensures Collides(sha, InclusionPreimages(sha, Ids(db.log)[..db.roots[k].treeSize], proof, db.log[i].event))
  {
    hide MerkleRoot, Collides, InclusionPreimages, Climb, StoredProof, ProveInclusion;
    var ids, n := Ids(db.log), db.roots[k].treeSize;
    assert RootOk(sha, ids, db.roots, k);
    LowerRootsMiss(sha, db, i, k);
    InclusionNamesTheEvent(sha, ids[..n], proof, db.log[i].event);
    assert ids[..n][proof.leafIndex] in ids[..n];
  }

  lemma UncommittedNotProved(sha: Sha, db: Db, e: EventId)
    ensures e !in Ids(db.log) ==> ProveEvent(sha, db, e) == Err(NotCommitted)
  {
    if FindEvent(db.log, e).Some? {
      var row := FindEvent(db.log, e).value;
      var i :| 0 <= i < |db.log| && db.log[i] == row;
      assert Ids(db.log)[i] == e;
    }
  }

  lemma HeightsCount(sha: Sha, ids: seq<EventId>, roots: seq<RootRow>)
    requires RootsOk(sha, ids, roots)
    ensures forall i :: 0 <= i < |roots| ==> roots[i].height == i
  {
    forall k | 0 <= k < |roots|
      ensures roots[k].height == k
    {
      assert RootOk(sha, ids, roots, k);
    }
  }

  lemma RootAtFinds(roots: seq<RootRow>, k: nat)
    requires k < |roots| && forall i :: 0 <= i < |roots| ==> roots[i].height == i
    ensures RootAt(roots, k) == Some(roots[k])
  {
  }

  /** A mirror asking for neighbouring roots of an intact stream gets a proof that verifies. */
  lemma NeighboursAreConsistent(sha: Sha, db: Db, height: nat)
    requires Intact(sha, db)
    ensures ConsistencyBetween(db, height).Ok? <==> height + 1 < |db.roots|
    ensures var r := ConsistencyBetween(db, height);
            r.Ok? ==> ConsistencyAccepts(Rfc6962(sha), r.value.2, r.value.0, r.value.1)
                      && r.value.0 == db.roots[height].rootId && r.value.1 == db.roots[height + 1].rootId
  {
    hide ConsistencyAccepts, ToPublication, RootAt, Ids, LogOk, EpochsOk;
    var ids, roots := Ids(db.log), db.roots;
    if |roots| > 0 {
      HeightsCount(sha, ids, roots);
      hide RootsOk;
      if height < |roots| {
        RootAtFinds(roots, height);
        PublicationReads(sha, ids, roots, height);
      }
      if height + 1 < |roots| {
        RootAtFinds(roots, height + 1);
        PublicationReads(sha, ids, roots, height + 1);
        StoredProofVerifies(sha, ids, roots, height + 1);
      }
    }
  }
}

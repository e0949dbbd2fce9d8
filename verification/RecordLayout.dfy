/** The bytes that the commitment layer hashes and the seals sign, as literal layouts. */
module RecordLayout {
  import opened Bytes
  import opened Codec
  import opened Merkle
  import opened RootStream
  import opened RootStreamSafety
  import opened Moments
  import opened Anchors
  import opened Layout
  import Ots
  import SealLog

  ghost function Eight(n: nat): Bytes { Four(n / 0x1_0000_0000) + Four(n) }

  lemma LastByte(n: nat, width: nat)
    ensures BigEndian(n, width + 1) == BigEndian(n / 256, width) + [n % 256]
  {
  }

  lemma EightBytes(n: nat)
    ensures BigEndian(n, 8) == Eight(n)
  {
    hide BigEndian;
    var a, b, c, d := n / 256, n / 256 / 256, n / 256 / 256 / 256, n / 256 / 256 / 256 / 256;
    LastByte(n, 7);
    LastByte(a, 6);
    LastByte(b, 5);
    LastByte(c, 4);
    FourBytes(d);
    assert b == n / 0x1_0000 && c == n / 0x100_0000 && d == n / 0x1_0000_0000;
    assert Four(n) == [c % 256, b % 256, a % 256, n % 256];
  }

  ghost function Presence(h: Option<Hash>): Bytes { if h.None? then [0] else [1] + h.value }

  /** A root moment's body: "cc.anchor.root.v0", the height, the tree size, the root, and the root
      before it behind a presence byte. */
  lemma RootBodyLayout(p: RootPublication)
    ensures RootBody(p)
         == [0, 0, 0, 17,
             0x63, 0x63, 0x2e, 0x61, 0x6e, 0x63, 0x68, 0x6f, 0x72, 0x2e, 0x72, 0x6f, 0x6f, 0x74, 0x2e, 0x76, 0x30]
            + Eight(p.height) + Eight(p.treeSize) + p.root + Presence(p.prevRoot)
  {
    hide BigEndian, Eight;
    EightBytes(p.height);
    EightBytes(p.treeSize);
  }

  /** An anchor moment's body: "cc.anchor.stamp.v0", the root, its height, 0 for pending or 1 for
      confirmed, the proof's address, the calendar, the block height and the transaction. */
  ghost function AnchorBytes(
    root: Hash, height: nat, status: byte, blob: Hash, calendar: Bytes, block: Option<nat>, txid: Option<Bytes>): Bytes
  {
    [0, 0, 0, 18,
     0x63, 0x63, 0x2e, 0x61, 0x6e, 0x63, 0x68, 0x6f, 0x72, 0x2e, 0x73, 0x74, 0x61, 0x6d, 0x70, 0x2e, 0x76, 0x30]
    + root + Eight(height) + [status] + blob
    + (Four(|calendar|) + calendar)
    + (if block.None? then [0] else [1] + Eight(block.value))
    + (if txid.None? then [0, 0, 0, 0] else Four(|txid.value|) + txid.value)
  }

  lemma AnchorBodyLayout(f: AnchorFacts)
    ensures AnchorBody(f) == AnchorBytes(f.root, f.height, if f.status.Pending? then 0 else 1, f.blob, f.calendar,
                                         f.blockHeight, f.txid)
  {
    hide BigEndian, Eight;
    EightBytes(f.height);
    if f.blockHeight.Some? { EightBytes(f.blockHeight.value); }
    FourBytes(|f.calendar|);
    FourBytes(|TxidBytes(f.txid)|);
    assert f.txid.None? ==> Framed(TxidBytes(f.txid)) == [0, 0, 0, 0];
  }

  /** "cc.moment.v0", two zero versions, the time, what it supersedes behind a presence byte, node
      zero, and the hash of the body. */
  ghost function MomentBytes(time: Tick, supersedes: Option<EventId>, body: Hash): Bytes {
    [0, 0, 0, 12, 0x63, 0x63, 0x2e, 0x6d, 0x6f, 0x6d, 0x65, 0x6e, 0x74, 0x2e, 0x76, 0x30, 0, 0, 0, 0]
    + time + Presence(supersedes) + [0, 0, 0, 0, 0, 0, 0, 0] + body
  }

  /** What is appended for a publication and for an anchor: the moment's bytes, under their hash. */
  lemma MomentLayout(sha: Sha, p: RootPublication, f: AnchorFacts, supersedes: Option<EventId>, now: Tick)
    ensures var bytes := MomentBytes(now, None, sha(RootBody(p)));
            RootMoment(sha, p, now) == Event(sha(bytes), None, bytes)
    ensures var bytes := MomentBytes(now, supersedes, sha(AnchorBody(f)));
            AnchorMoment(sha, f, supersedes, now) == Event(sha(bytes), supersedes, bytes)
  {
    hide RootBody, AnchorBody;
  }

  lemma StampMoment(sha: Sha, p: RootPublication, blob: Hash, calendar: Bytes, now: Tick)
    ensures var bytes := MomentBytes(now, None, sha(AnchorBytes(p.root, p.height, 0, blob, calendar, None, None)));
            PendingMoment(sha, p, blob, calendar, now) == Event(sha(bytes), None, bytes)
  {
    hide AnchorBytes, MomentBytes, AnchorBody;
    var f := AnchorFacts(p.root, p.height, Pending, blob, calendar, None, None);
    AnchorBodyLayout(f);
    MomentLayout(sha, p, f, None, now);
  }

  lemma ConfirmationMoment(
    sha: Sha, p: RootPublication, a: Anchor, height: nat, txid: Option<Bytes>, now: Tick)
    ensures var body := AnchorBytes(p.root, p.height, 1, a.blobHash, a.calendar, Some(height), txid);
            var bytes := MomentBytes(now, Some(a.moment), sha(body));
            ConfirmedMoment(sha, p, a, height, txid, now) == Event(sha(bytes), Some(a.moment), bytes)
  {
    hide AnchorBytes, MomentBytes, AnchorBody;
    var f := AnchorFacts(p.root, p.height, Confirmed, a.blobHash, a.calendar, Some(height), txid);
    AnchorBodyLayout(f);
    MomentLayout(sha, p, f, Some(a.moment), now);
  }

  lemma PublishedAt(sha: Sha, db: Db, k: nat)
    requires Intact(sha, db) && k < |db.roots|
    ensures var p := RootById(db.roots, db.roots[k].rootId);
            p.Ok? && p.value.root == db.roots[k].rootId && p.value.height == k
  {
    hide ToPublication, EpochsOk, LogOk, RootOk, FindRoot;
    var ids := Ids(db.log);
    FindRootFinds(db.roots, k);
    PublicationReads(sha, ids, db.roots, k);
  }

  /** What a stamp of the root at height `k` stores: the proof under its hash, the moment, and a
      pending row that names both. Nothing else changes. */
  lemma StampStores(sha: Sha, db: Db, k: nat, proof: Bytes, calendar: Bytes, now: Tick)
    requires Intact(sha, db) && k < |db.roots|
    requires RecordStamp(sha, db, db.roots[k].rootId, proof, calendar, now, Never).1.Ok?
    ensures var root, blob := db.roots[k].rootId, sha(proof);
            var (db', r) := RecordStamp(sha, db, root, proof, calendar, now, Never);
            var bytes := MomentBytes(now, None, sha(AnchorBytes(root, k, 0, blob, calendar, None, None)));
            var row := Anchor(Pending, blob, calendar, None, None, sha(bytes));
            r == Ok(row)
            && db' == Db(Commit(db.events, Event(sha(bytes), None, bytes)), db.log, db.roots,
                         db.anchors[root := row], if blob in db.proofs then db.proofs else db.proofs[blob := proof])
  {
    hide AnchorBytes, MomentBytes, RootById, Intact, Ots.CommitsTo, PendingMoment, Commit;
    PublishedAt(sha, db, k);
    var p := RootById(db.roots, db.roots[k].rootId).value;
    StampMoment(sha, p, sha(proof), calendar, now);
  }

  /** What a confirmation of the root at height `k` stores: a moment that supersedes the stamp's, and
      the row with the block and the transaction. Nothing else changes. */
  lemma ConfirmationStores(sha: Sha, db: Db, k: nat, height: nat, txid: Option<Bytes>, now: Tick)
    requires Intact(sha, db) && k < |db.roots|
    requires ConfirmAnchor(sha, db, db.roots[k].rootId, height, txid, now, Never).1.Ok?
    ensures var root := db.roots[k].rootId;
            root in db.anchors
            && var (db', r) := ConfirmAnchor(sha, db, root, height, txid, now, Never);
               var a := db.anchors[root];
               var body := AnchorBytes(root, k, 1, a.blobHash, a.calendar, Some(height), txid);
               var bytes := MomentBytes(now, Some(a.moment), sha(body));
               var row := Anchor(Confirmed, a.blobHash, a.calendar, Some(height), txid, sha(bytes));
               r == Ok(row)
               && db' == Db(Commit(db.events, Event(sha(bytes), Some(a.moment), bytes)), db.log, db.roots,
                            db.anchors[root := row], db.proofs)
  {
    hide AnchorBytes, MomentBytes, RootById, Intact, ConfirmedMoment, Commit;
    PublishedAt(sha, db, k);
    var root := db.roots[k].rootId;
    var p := RootById(db.roots, root).value;
    ConfirmationMoment(sha, p, db.anchors[root], height, txid, now);
  }

  // ----- Seals -----

  ghost function CountBytes(s: SealLog.Seal): Bytes {
    Eight(s.candidates) + (TextBytes(s.build) + Eight(s.sealedAtUs))
  }

  ghost function DigestBytes(s: SealLog.Seal): Bytes {
    s.filterVersion + (s.corpusDigest + (s.commitment + CountBytes(s)))
  }

  /** "cc.seal.v1", then the fields in the order of the record. */
  ghost function SealBytes(s: SealLog.Seal): Bytes {
    [0, 0, 0, 10, 0x63, 0x63, 0x2e, 0x73, 0x65, 0x61, 0x6c, 0x2e, 0x76, 0x31]
    + (s.instance + (s.nodeKey + (Two(s.foldVersion) + (s.foldManifest + DigestBytes(s)))))
  }

  lemma CountsWrite(s: SealLog.Seal)
    ensures Writes(SealLog.CountsWire(), (s.candidates, (s.build, s.sealedAtUs)), true, CountBytes(s))
  {
    hide BigEndian, Eight, TextWire, TextBytes;
    EightBytes(s.candidates);
    EightBytes(s.sealedAtUs);
    TextWrites(s.build);
  }

  lemma DigestsWrite(s: SealLog.Seal)
    ensures Writes(SealLog.DigestsWire(), SealLog.SealFieldsOf(s).1.1.1.1, true, DigestBytes(s))
  {
    hide SealLog.CountsWire, CountBytes;
    CountsWrite(s);
  }

  /** The bytes a seal signature covers. */
  lemma SealLayout(s: SealLog.Seal)
    ensures SealLog.EncodeSeal(s) == SealBytes(s)
  {
    hide SealLog.DigestsWire, DigestBytes, BigEndian, Two;
    DigestsWrite(s);
    TwoBytes(s.foldVersion);
  }
}

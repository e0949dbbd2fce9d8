/**
 The anchor lifecycle of crates/cc-anchor/src/store.rs. Stamping and confirming are several
 database steps and not one transaction, so each takes the point at which the caller may die.
 Every state of an anchor is recorded by a signed moment, whose id is the hash of what it says.
 */
module Anchors {
  import opened Bytes
  import opened RootStream
  import opened Moments
  import Ots
  import Varint

  /** Where a caller stops: after its first write, after its second, or not at all. */
  datatype Crash = AfterFirst | AfterSecond | Never

  const MAX_PROOF := 65536
  const I64_SIGN: nat := 0x8000_0000_0000_0000

  /** The `.ots` blob table keeps the first bytes stored under an address. */
  function StoreProof(db: Db, blob: Hash, proof: Bytes): Db {
    if blob in db.proofs then db else db.(proofs := db.proofs[blob := proof])
  }

  /** The moment of a stamp. */
  function PendingMoment(sha: Sha, p: RootPublication, blob: Hash, calendar: Bytes, now: Tick): Event {
    AnchorMoment(sha, AnchorFacts(p.root, p.height, Pending, blob, calendar, None, None), None, now)
  }

  /** The moment of a confirmation, which supersedes the one the pending row names. */
  function ConfirmedMoment(
    sha: Sha, p: RootPublication, pending: Anchor, height: nat, txid: Option<Bytes>, now: Tick): Event
  {
    AnchorMoment(sha, AnchorFacts(p.root, p.height, Confirmed, pending.blobHash, pending.calendar, Some(height), txid),
                 Some(pending.moment), now)
  }

  /** A calendar with a zero byte cannot be stored as text, which the table refuses after the proof
      and the moment have been stored. */
  function RecordStamp(sha: Sha, db: Db, root: Hash, proof: Bytes, calendar: Bytes, now: Tick, crash: Crash)
    : (Db, Result<Anchor, AnchorError>)
  {
    var published := RootById(db.roots, root);
    if Ots.CommitsTo(proof, root).Err? then (db, Err(Ots))
    else if published.Err? then (db, Err(published.error))
    else if root in db.anchors then (db, Err(AnchorState))
    else if !(1 <= |proof| <= MAX_PROOF) then (db, Err(Database))
    else
      var blob := sha(proof);
      var db1 := StoreProof(db, blob, proof);
      if crash.AfterFirst? then (db1, Err(Database))
      else if |calendar| >= FRAME_LIMIT then (db1, Err(Panic))
      else
        var moment := PendingMoment(sha, published.value, blob, calendar, now);
        var db2 := db1.(events := Commit(db1.events, moment));
        if crash.AfterSecond? || 0 in calendar then (db2, Err(Database))
        else
          var anchor := Anchor(Pending, blob, calendar, None, None, moment.id);
          (db2.(anchors := db2.anchors[root := anchor]), Ok(anchor))
  }

  /** A height of 2^63 or more is stored as a negative number, which the table refuses after the
      moment has been appended. */
  function ConfirmAnchor(sha: Sha, db: Db, root: Hash, height: nat, txid: Option<Bytes>, now: Tick, crash: Crash)
    : (Db, Result<Anchor, AnchorError>)
  {
    var published := RootById(db.roots, root);
    if published.Err? then (db, Err(published.error))
    else if root !in db.anchors then (db, Err(AnchorState))
    else
      var pending := db.anchors[root];
      if pending.status.Confirmed? then (db, Err(AnchorState))
      else if |pending.calendar| >= FRAME_LIMIT || |TxidBytes(txid)| >= FRAME_LIMIT then (db, Err(Panic))
      else
        var moment := ConfirmedMoment(sha, published.value, pending, height, txid, now);
        var db1 := db.(events := Commit(db.events, moment));
        if !crash.Never? || height >= I64_SIGN then (db1, Err(Database))
        else
          var anchor := pending.(status := Confirmed, blockHeight := Some(height), txid := txid, moment := moment.id);
          (db1.(anchors := db1.anchors[root := anchor]), Ok(anchor))
  }

  function LoadProof(sha: Sha, db: Db, blob: Hash): Result<Bytes, AnchorError> {
    if blob !in db.proofs then Err(AnchorState)
    else if Ots.Digest(db.proofs[blob]).Err? then Err(Ots)
    else if sha(db.proofs[blob]) != blob then Err(AnchorState)
    else Ok(db.proofs[blob])
  }

  // ----- Asking the calendars -----

  /** What a calendar answers about a commitment: an error, not yet, or a timestamp. */
  type Calendar = (Bytes, Bytes) -> Result<Option<Bytes>, Varint.OtsError>

  function PendingOf(cs: seq<Ots.Commitment>): seq<(Bytes, Bytes)> {
    if cs == [] then []
    else if cs[0].attestation.Pending? then [(cs[0].attestation.uri, cs[0].message)] + PendingOf(cs[1..])
    else PendingOf(cs[1..])
  }

  function FirstBitcoin(cs: seq<Ots.Commitment>): (height: Option<nat>)
    ensures height.Some? ==> exists c :: c in cs && c.attestation == Ots.Bitcoin(height.value)
    ensures height.None? ==> forall c :: c in cs ==> !c.attestation.Bitcoin?
  {
    if cs == [] then None
    else if cs[0].attestation.Bitcoin? then Some(cs[0].attestation.height)
    else FirstBitcoin(cs[1..])
  }

  /** The first block height any calendar attests to, asked in order. */
  function AskCalendars(sha: Sha, ask: Calendar, pending: seq<(Bytes, Bytes)>): Result<Option<nat>, AnchorError> {
    if pending == [] then Ok(None)
    else
      var (uri, message) := pending[0];
      match ask(uri, message)
      case Err(_) => Err(Ots)
      case Ok(None) => AskCalendars(sha, ask, pending[1..])
      case Ok(Some(timestamp)) =>
        match Ots.AttestationsIn(sha, timestamp, message)
        case Err(_) => Err(Ots)
        case Ok(cs) =>
          var height := FirstBitcoin(cs);
          if height.Some? then Ok(height) else AskCalendars(sha, ask, pending[1..])
  }

  /** The anchor after an upgrade, or the reason there is none; pending if no block carries it. */
  function UpgradeAnchor(sha: Sha, db: Db, root: Hash, ask: Calendar, now: Tick, crash: Crash)
    : (Db, Result<Anchor, AnchorError>)
  {
    if root !in db.anchors then (db, Err(AnchorState))
    else if db.anchors[root].status.Confirmed? then (db, Ok(db.anchors[root]))
    else
      match LoadProof(sha, db, db.anchors[root].blobHash)
      case Err(e) => (db, Err(e))
      case Ok(proof) =>
        match Ots.Commitments(sha, proof)
        case Err(_) => (db, Err(Ots))
        case Ok(cs) =>
          match AskCalendars(sha, ask, PendingOf(cs))
          case Err(e) => (db, Err(e))
          case Ok(None) => (db, Ok(db.anchors[root]))
          case Ok(Some(height)) => ConfirmAnchor(sha, db, root, height, None, now, crash)
  }

  // ----- One step of the lifecycle -----

  ghost function AnchorOf(db: Db, root: Hash): Option<Anchor> {
    if root in db.anchors then Some(db.anchors[root]) else None
  }

  /** How far a root has come: 0 unstamped, 1 pending, 2 confirmed. */
  ghost function Stage(a: Option<Anchor>): nat {
    if a.None? then 0 else if a.value.status.Pending? then 1 else 2
  }

  /** The moment `e` is stored, or its id belongs to an event that was stored before it. */
  ghost predicate Lands(db: Db, db': Db, e: Event) {
    e in db'.events || exists x :: x in db.events && x.id == e.id && x != e
  }

  /** A root stays as it is, or is stamped with a proof about itself, or a pending anchor is
      confirmed, keeping proof and calendar, by a moment that supersedes the one it named. */
  ghost predicate LifecycleStep(sha: Sha, db: Db, db': Db, root: Hash, height: nat, proof: Bytes, now: Tick) {
    var a, a' := AnchorOf(db, root), AnchorOf(db', root);
    a' == a
    || (RootById(db.roots, root).Ok?
        && var p := RootById(db.roots, root).value;
           (a.None? && a'.Some? && Ots.CommitsTo(proof, root).Ok?
            && var e := PendingMoment(sha, p, sha(proof), a'.value.calendar, now);
               a'.value == Anchor(Pending, sha(proof), a'.value.calendar, None, None, e.id) && Lands(db, db', e))
           || (a.Some? && a.value.status.Pending? && a'.Some?
               && var e := ConfirmedMoment(sha, p, a.value, height, a'.value.txid, now);
                  a'.value == a.value.(status := Confirmed, blockHeight := Some(height),
                                       txid := a'.value.txid, moment := e.id)
                  && Lands(db, db', e)))
  }

  // ----- What the calendars are asked, and what is made of it -----

  /** The questions are the pending commitments of the proof: each calendar about its own message. */
  lemma {:induction false} PendingOfMembers(cs: seq<Ots.Commitment>, uri: Bytes, message: Bytes)
    ensures (uri, message) in PendingOf(cs) <==> Ots.Commitment(Ots.Pending(uri), message) in cs
  {
    if cs != [] {
      PendingOfMembers(cs[1..], uri, message);
      assert cs == [cs[0]] + cs[1..];
    }
  }

  ghost predicate FirstAt(cs: seq<Ots.Commitment>, height: nat, j: nat)
    requires j < |cs|
  {
    cs[j].attestation == Ots.Bitcoin(height) && forall i :: 0 <= i < j ==> !cs[i].attestation.Bitcoin?
  }

  /** `height` is the first block height among these attestations. */
  ghost predicate FirstHeight(cs: seq<Ots.Commitment>, height: nat) {
    exists j: nat | j < |cs| :: FirstAt(cs, height, j)
  }

  /** What the calendar of a pending commitment answers about that commitment's message. */
  ghost function Answer(ask: Calendar, c: Ots.Commitment): Result<Option<Bytes>, Varint.OtsError>
    requires c.attestation.Pending?
  {
    ask(c.attestation.uri, c.message)
  }

  /** A commitment that decides nothing: it is not pending, or its calendar has no block yet, or the
      calendar's reply, walked from the commitment's message, attests to none. */
  ghost predicate Silent(sha: Sha, ask: Calendar, c: Ots.Commitment) {
    c.attestation.Pending? ==>
      Answer(ask, c).Ok?
      && (Answer(ask, c).value.Some? ==>
            var cs := Ots.AttestationsIn(sha, Answer(ask, c).value.value, c.message);
            cs.Ok? && forall d :: d in cs.value ==> !d.attestation.Bitcoin?)
  }

  /** A commitment whose calendar's reply attests to a block, this one first. */
  ghost predicate Speaks(sha: Sha, ask: Calendar, c: Ots.Commitment, height: nat) {
    c.attestation.Pending? && Answer(ask, c).Ok? && Answer(ask, c).value.Some?
    && var cs := Ots.AttestationsIn(sha, Answer(ask, c).value.value, c.message);
       cs.Ok? && FirstHeight(cs.value, height)
  }

  /** A commitment whose calendar fails or answers with something that is not a timestamp. */
  ghost predicate Fails(sha: Sha, ask: Calendar, c: Ots.Commitment) {
    c.attestation.Pending?
    && (Answer(ask, c).Err?
        || (Answer(ask, c).value.Some?
            && Ots.AttestationsIn(sha, Answer(ask, c).value.value, c.message).Err?))
  }

  ghost predicate SilentBefore(sha: Sha, ask: Calendar, cs: seq<Ots.Commitment>, i: nat)
    requires i <= |cs|
  {
    forall j :: 0 <= j < i ==> Silent(sha, ask, cs[j])
  }

  lemma FirstAtTail(cs: seq<Ots.Commitment>, height: nat, j: nat)
    requires j + 1 < |cs| && !cs[0].attestation.Bitcoin?
    ensures FirstAt(cs, height, j + 1) <==> FirstAt(cs[1..], height, j)
  {
    var tail := cs[1..];
    if FirstAt(tail, height, j) {
      forall i | 0 <= i < j + 1
        ensures !cs[i].attestation.Bitcoin?
      {
        if i > 0 { assert cs[i] == tail[i - 1]; }
      }
    }
  }

  lemma FirstHeightTail(cs: seq<Ots.Commitment>, height: nat)
    requires cs != [] && !cs[0].attestation.Bitcoin?
    ensures FirstHeight(cs, height) <==> FirstHeight(cs[1..], height)
  {
    if FirstHeight(cs, height) {
      var j: nat :| j < |cs| && FirstAt(cs, height, j);
      FirstAtTail(cs, height, j - 1);
    }
    if FirstHeight(cs[1..], height) {
      var j: nat :| j < |cs[1..]| && FirstAt(cs[1..], height, j);
      FirstAtTail(cs, height, j);
    }
  }

  lemma {:induction false} FirstBitcoinIsFirst(cs: seq<Ots.Commitment>, height: nat)
    ensures FirstBitcoin(cs) == Some(height) <==> FirstHeight(cs, height)
  {
    if cs != [] {
      if cs[0].attestation.Bitcoin? {
        assert FirstAt(cs, cs[0].attestation.height, 0);
      } else {
        hide FirstHeight;
        FirstHeightTail(cs, height);
        FirstBitcoinIsFirst(cs[1..], height);
      }
    }
  }

  /** The first commitment that is not silent decides. */
  ghost predicate Decides(
    sha: Sha, ask: Calendar, cs: seq<Ots.Commitment>, i: nat, r: Result<Option<nat>, AnchorError>)
    requires i <= |cs|
  {
    SilentBefore(sha, ask, cs, i)
    && if i == |cs| then r == Ok(None)
       else (Fails(sha, ask, cs[i]) && r == Err(Ots))
            || (r.Ok? && r.value.Some? && Speaks(sha, ask, cs[i], r.value.value))
  }

  lemma AskFirst(sha: Sha, ask: Calendar, cs: seq<Ots.Commitment>)
    requires cs != []
    ensures var r := AskCalendars(sha, ask, PendingOf(cs));
            if Silent(sha, ask, cs[0]) then r == AskCalendars(sha, ask, PendingOf(cs[1..]))
            else Decides(sha, ask, cs, 0, r)
  {
    hide Ots.AttestationsIn, FirstHeight;
    var c := cs[0];
    if c.attestation.Pending? {
      var pending := PendingOf(cs);
      assert pending[0] == (c.attestation.uri, c.message) && pending[1..] == PendingOf(cs[1..]);
      if Answer(ask, c).Ok? && Answer(ask, c).value.Some? {
        var found := Ots.AttestationsIn(sha, Answer(ask, c).value.value, c.message);
        if found.Ok? && FirstBitcoin(found.value).Some? {
          FirstBitcoinIsFirst(found.value, FirstBitcoin(found.value).value);
        }
      }
    }
  }

  lemma NothingToAsk(sha: Sha, ask: Calendar)
    ensures AskCalendars(sha, ask, PendingOf([])) == Ok(None)
  {
  }

  /** What the calendars decide: the answer to the upgrade is that of the first pending commitment,
      in the order of the proof, whose calendar fails or attests to a block; and then it is the first
      block of that reply. If there is none, there is no height. */
  lemma {:induction false} AskedInOrder(sha: Sha, ask: Calendar, cs: seq<Ots.Commitment>) returns (i: nat)
    ensures i <= |cs| && Decides(sha, ask, cs, i, AskCalendars(sha, ask, PendingOf(cs)))
  {
    hide PendingOf, AskCalendars, Silent, Fails, Speaks;
    if cs == [] {
      i := 0;
      NothingToAsk(sha, ask);
    } else {
      AskFirst(sha, ask, cs);
      if Silent(sha, ask, cs[0]) {
        var j := AskedInOrder(sha, ask, cs[1..]);
        i := j + 1;
        assert forall k :: 0 < k < i ==> cs[k] == cs[1..][k - 1];
        assert i < |cs| ==> cs[i] == cs[1..][j];
      } else {
        i := 0;
      }
    }
  }

  /** A commitment is silent, speaks of one height, or fails, and only one of these. */
  lemma OneVerdict(sha: Sha, ask: Calendar, c: Ots.Commitment, height: nat, other: nat)
    ensures !(Silent(sha, ask, c) && Fails(sha, ask, c))
    ensures Speaks(sha, ask, c, height) ==> !Silent(sha, ask, c) && !Fails(sha, ask, c)
    ensures Speaks(sha, ask, c, height) && Speaks(sha, ask, c, other) ==> height == other
    ensures Silent(sha, ask, c) || Fails(sha, ask, c) || exists h :: Speaks(sha, ask, c, h)
  {
    hide Ots.AttestationsIn, FirstHeight;
    if c.attestation.Pending? && Answer(ask, c).Ok? && Answer(ask, c).value.Some? {
      var found := Ots.AttestationsIn(sha, Answer(ask, c).value.value, c.message);
      if found.Ok? {
        FirstBitcoinIsFirst(found.value, height);
        FirstBitcoinIsFirst(found.value, other);
        if FirstBitcoin(found.value).Some? {
          FirstBitcoinIsFirst(found.value, FirstBitcoin(found.value).value);
          assert Speaks(sha, ask, c, FirstBitcoin(found.value).value);
        }
      }
    }
  }

  ghost predicate UpgradeOfPending(
    sha: Sha, db: Db, db': Db, root: Hash, ask: Calendar, now: Tick, crash: Crash, r: Result<Anchor, AnchorError>)
    requires root in db.anchors
  {
    var blob := db.anchors[root].blobHash;
    if blob !in db.proofs then db' == db && r == Err(AnchorState)
    else
      var file := db.proofs[blob];
      if Ots.Digest(file).Err? then db' == db && r == Err(Ots)
      else if sha(file) != blob then db' == db && r == Err(AnchorState)
      else if Ots.Commitments(sha, file).Err? then db' == db && r == Err(Ots)
      else
        var cs := Ots.Commitments(sha, file).value;
        exists i: nat | i <= |cs| && SilentBefore(sha, ask, cs, i) ::
          if i == |cs| then db' == db && r == Ok(db.anchors[root])
          else (Fails(sha, ask, cs[i]) && db' == db && r == Err(Ots))
               || exists height :: Speaks(sha, ask, cs[i], height)
                                   && (db', r) == ConfirmAnchor(sha, db, root, height, None, now, crash)
  }

  /** Everything an upgrade can do: refuse a root without a stamp; return a confirmed record; fail
      to read the stored proof; or ask the calendars of its pending commitments in order, and then
      fail with the first that fails, confirm at the first height of the first that attests to one,
      or return the pending record if none does. Only a confirmation changes anything. */
  lemma UpgradeIsConfirmation(sha: Sha, db: Db, root: Hash, ask: Calendar, now: Tick, crash: Crash)
    ensures var (db', r) := UpgradeAnchor(sha, db, root, ask, now, crash);
            if root !in db.anchors then db' == db && r == Err(AnchorState)
            else if db.anchors[root].status.Confirmed? then db' == db && r == Ok(db.anchors[root])
            else UpgradeOfPending(sha, db, db', root, ask, now, crash, r)
  {
    hide Ots.Commitments, Ots.Digest, ConfirmAnchor, AskCalendars, PendingOf, Fails, Speaks, SilentBefore;
    if root in db.anchors && db.anchors[root].status.Pending? {
      var loaded := LoadProof(sha, db, db.anchors[root].blobHash);
      if loaded.Ok? && Ots.Commitments(sha, loaded.value).Ok? {
        var i := AskedInOrder(sha, ask, Ots.Commitments(sha, loaded.value).value);
      }
    }
  }
}

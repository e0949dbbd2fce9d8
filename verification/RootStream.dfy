/**
 Sealing and the root stream of crates/cc-anchor/src/store.rs, as functions over tables.

 A table is the sequence of its rows in insertion order; every ORDER BY of the source goes
 through `OrderBy`. A transaction under the advisory lock is one function that returns the new
 tables and the answer, and returns the old tables whenever the transaction is dropped.
 */
module RootStream {
  import opened Bytes
  import opened Tree
  import opened Merkle
  import opened Ordering
  import Digits

  /** A row of the event table: its id, what it supersedes, and the canonical bytes it was signed over. */
  datatype Event = Event(id: EventId, supersedes: Option<EventId>, payload: Bytes)

  datatype LogRow = LogRow(position: nat, event: EventId, epoch: nat)

  datatype RootRow = RootRow(
    rootId: Hash, height: nat, treeSize: nat, prevRoot: Option<Hash>, consistency: Option<Bytes>,
    moment: Option<EventId>)

  datatype RootPublication = RootPublication(
    height: nat, root: Hash, treeSize: nat, prevRoot: Option<Hash>,
    consistency: Option<ConsistencyProof<Hash>>, moment: Option<EventId>)

  datatype RootOutcome = Published(publication: RootPublication) | Unchanged(root: Hash, height: nat)

  datatype EventInclusion = EventInclusion(
    event: EventId, leaf: Hash, root: Hash, height: nat, proof: InclusionProof<Hash>)

  datatype AnchorStatus = Pending | Confirmed

  datatype Anchor = Anchor(
    status: AnchorStatus, blobHash: Hash, calendar: Bytes, blockHeight: Option<nat>,
    txid: Option<Bytes>, moment: EventId)

  datatype AnchorError =
    | Database
    | Proof(proofError: ProofError)
    | Ots
    | RootStreamLost(leaves: nat)
    | UnknownRoot
    | NotCommitted
    | LogCorrupt(expected: int, found: int)
    | RootMismatch(rootHeight: nat)
    | ConsistencyBroken(brokenHeight: nat)
    | AnchorState
    | Panic

  datatype Db = Db(
    events: seq<Event>, log: seq<LogRow>, roots: seq<RootRow>,
    anchors: map<Hash, Anchor>, proofs: map<Hash, Bytes>)

  const EMPTY := Db([], [], [], map[], map[])

  /** A 32-byte column sorts as the number it writes: `Digits.LexIsNumeric`. */
  function IdKey(id: EventId): int { Digits.Value(Digits.Octets, id) }
  function LogKey(row: LogRow): int { row.position }
  function RootKey(row: RootRow): int { row.height }

  function Ids(log: seq<LogRow>): (ids: seq<EventId>)
    ensures |ids| == |log|
  {
    seq(|log|, i requires 0 <= i < |log| => log[i].event)
  }

  function EventIds(events: seq<Event>): (ids: seq<EventId>)
    ensures |ids| == |events|
  {
    seq(|events|, i requires 0 <= i < |events| => events[i].id)
  }

  // ----- Reading rows -----

  function FindRoot(roots: seq<RootRow>, id: Hash): (r: Option<RootRow>)
    ensures r.Some? ==> r.value in roots && r.value.rootId == id
    ensures r.None? ==> forall i :: 0 <= i < |roots| ==> roots[i].rootId != id
  {
    if roots == [] then None
    else if roots[0].rootId == id then Some(roots[0])
    else FindRoot(roots[1..], id)
  }

  function RootAt(roots: seq<RootRow>, height: nat): (r: Option<RootRow>)
    ensures r.Some? ==> r.value in roots && r.value.height == height
    ensures r.None? <==> forall i :: 0 <= i < |roots| ==> roots[i].height != height
  {
    if roots == [] then None
    else if roots[0].height == height then Some(roots[0])
    else RootAt(roots[1..], height)
  }

  function Predecessor(roots: seq<RootRow>, row: RootRow): Option<RootRow> {
    if row.prevRoot.None? then None else FindRoot(roots, row.prevRoot.value)
  }

  /** A row joined with its predecessor, whose size the stored path is a claim about. */
  function ToPublication(roots: seq<RootRow>, row: RootRow): Result<RootPublication, AnchorError> {
    var prev := Predecessor(roots, row);
    if row.consistency.None? then
      Ok(RootPublication(row.height, row.rootId, row.treeSize, row.prevRoot, None, row.moment))
    else if prev.None? then Err(ConsistencyBroken(row.height))
    else
      match Unflatten(row.consistency.value)
      case Err(e) => Err(Proof(e))
      case Ok(path) =>
        Ok(RootPublication(row.height, row.rootId, row.treeSize, row.prevRoot,
                           Some(ConsistencyProof(prev.value.treeSize, row.treeSize, path)), row.moment))
  }

  function RootById(roots: seq<RootRow>, root: Hash): Result<RootPublication, AnchorError> {
    var row := FindRoot(roots, root);
    if row.None? then Err(UnknownRoot) else ToPublication(roots, row.value)
  }

  function LatestRoot(roots: seq<RootRow>): Result<Option<RootPublication>, AnchorError> {
    var rows := OrderBy(RootKey, roots);
    if rows == [] then Ok(None)
    else
      match ToPublication(roots, rows[|rows| - 1])
      case Err(e) => Err(e)
      case Ok(p) => Ok(Some(p))
  }

  /** The first place, from `i` on, where positions stop counting up from 0. */
  function FirstGap(rows: seq<LogRow>, i: nat): (gap: Option<nat>)
    requires i <= |rows|
    ensures gap.None? <==> forall j :: i <= j < |rows| ==> rows[j].position == j
    ensures gap.Some? ==> i <= gap.value < |rows|
    decreases |rows| - i
  {
    if i == |rows| then None
    else if rows[i].position != i then Some(i)
    else FirstGap(rows, i + 1)
  }

  function RowsToLeaves(sha: Sha, rows: seq<LogRow>): Result<seq<Hash>, AnchorError> {
    var gap := FirstGap(rows, 0);
    if gap.Some? then Err(LogCorrupt(gap.value, rows[gap.value].position))
    else Ok(Leaves(sha, Ids(rows)))
  }

  function LoadLeaves(sha: Sha, log: seq<LogRow>): Result<seq<Hash>, AnchorError> {
    RowsToLeaves(sha, OrderBy(LogKey, log))
  }

  // ----- Sealing -----

  function NextPosition(log: seq<LogRow>): int {
    var rows := OrderBy(LogKey, log);
    if rows == [] then 0 else rows[|rows| - 1].position + 1
  }

  /** The events no log row names yet, in arrival order. */
  function Uncommitted(ids: seq<EventId>, committed: seq<EventId>): (new_: seq<EventId>)
    ensures forall id :: id in new_ <==> id in ids && id !in committed
  {
    if ids == [] then []
    else if ids[0] in committed then Uncommitted(ids[1..], committed)
    else [ids[0]] + Uncommitted(ids[1..], committed)
  }

  function SealRows(ids: seq<EventId>, next: nat, epoch: nat): (rows: seq<LogRow>)
    ensures |rows| == |ids|
  {
    seq(|ids|, i requires 0 <= i < |ids| => LogRow(next + i, ids[i], epoch))
  }

  function NewLeaves(db: Db): seq<EventId> {
    OrderBy(IdKey, Uncommitted(EventIds(db.events), Ids(db.log)))
  }

  /** The root row over a grown log, and the publication returned for it. */
  function SealedRow(sha: Sha, log: seq<LogRow>, prev: Option<RootPublication>, height: nat)
    : Result<(RootRow, RootPublication), AnchorError>
  {
    match LoadLeaves(sha, log)
    case Err(e) => Err(e)
    case Ok(leaves) =>
      var h := Rfc6962(sha);
      var root := Mth(h, leaves);
      if prev.None? then
        Ok((RootRow(root, height, |leaves|, None, None, None),
            RootPublication(height, root, |leaves|, None, None, None)))
      else
        match ProveConsistency(h, leaves, prev.value.treeSize)
        case Err(e) => Err(Proof(e))
        case Ok(proof) =>
          Ok((RootRow(root, height, |leaves|, Some(prev.value.root), Some(Flatten(proof.path)), None),
              RootPublication(height, root, |leaves|, Some(prev.value.root), Some(proof), None)))
  }

  /** The sealing transaction of `publish_root`. */
  function Seal(sha: Sha, db: Db): (Db, Result<RootOutcome, AnchorError>) {
    match LatestRoot(db.roots)
    case Err(e) => (db, Err(e))
    case Ok(prev) =>
      var committed, next := |db.log|, NextPosition(db.log);
      if next != committed then (db, Err(LogCorrupt(committed, next - 1)))
      else if prev.None? && committed > 0 then (db, Err(RootStreamLost(committed)))
      else
        var height := if prev.None? then 0 else prev.value.height + 1;
        var log := db.log + SealRows(NewLeaves(db), next, height);
        if |log| == committed then
          (db, Ok(if prev.None? then Unchanged(Mth(Rfc6962(sha), []), 0)
                  else Unchanged(prev.value.root, prev.value.height)))
        else
          match SealedRow(sha, log, prev, height)
          case Err(e) => (db, Err(e))
          case Ok((row, publication)) =>
            if FindRoot(db.roots, row.rootId).Some? || RootAt(db.roots, height).Some? then (db, Err(Database))
            else (db.(log := log, roots := db.roots + [row]), Ok(Published(publication)))
  }

  // ----- The other steps -----

  /** Committing an event is idempotent on its id. */
  function Commit(events: seq<Event>, e: Event): seq<Event> {
    if e.id in EventIds(events) then events else events + [e]
  }

  function SetMoment(roots: seq<RootRow>, root: Hash, moment: EventId): (r: seq<RootRow>)
    ensures |r| == |roots|
  {
    seq(|roots|, i requires 0 <= i < |roots| =>
      if roots[i].rootId == root then roots[i].(moment := Some(moment)) else roots[i])
  }

  /** `record_root_moment`: append the moment, then point the row at it. */
  function Record(db: Db, root: Hash, moment: Event): Db {
    db.(events := Commit(db.events, moment), roots := SetMoment(db.roots, root, moment.id))
  }

  /** Losing the root stream: `roots` and the `anchors` rows that reference it. */
  function Truncate(db: Db): Db { db.(roots := [], anchors := map[]) }

  // ----- Reading proofs -----

  function FindEvent(log: seq<LogRow>, e: EventId): (r: Option<LogRow>)
    ensures r.Some? ==> r.value in log && r.value.event == e
    ensures r.None? <==> forall i :: 0 <= i < |log| ==> log[i].event != e
  {
    if log == [] then None
    else if log[0].event == e then Some(log[0])
    else FindEvent(log[1..], e)
  }

  /** The lowest root whose tree is larger than `position`. */
  function FirstCovering(rows: seq<RootRow>, position: nat): (r: Option<RootRow>)
    ensures r.None? <==> forall i :: 0 <= i < |rows| ==> rows[i].treeSize <= position
  {
    if rows == [] then None
    else if rows[0].treeSize > position then Some(rows[0])
    else FirstCovering(rows[1..], position)
  }

  function ProveEvent(sha: Sha, db: Db, e: EventId): Result<EventInclusion, AnchorError> {
    var found := FindEvent(db.log, e);
    if found.None? then Err(NotCommitted)
    else
      var position := found.value.position;
      var row := FirstCovering(OrderBy(RootKey, db.roots), position);
      if row.None? then Err(NotCommitted)
      else
        var p :- ToPublication(db.roots, row.value);
        var leaves :- LoadLeaves(sha, db.log);
        if p.treeSize > |leaves| then Err(Panic)
        else
          match ProveInclusion(Rfc6962(sha), leaves[..p.treeSize], position)
          case Err(err) => Err(Proof(err))
          case Ok(proof) => Ok(EventInclusion(e, leaves[position], p.root, p.height, proof))
  }

  function ConsistencyBetween(db: Db, height: nat): Result<(Hash, Hash, ConsistencyProof<Hash>), AnchorError> {
    var older, newer := RootAt(db.roots, height), RootAt(db.roots, height + 1);
    if older.None? then Err(UnknownRoot)
    else
      var o :- ToPublication(db.roots, older.value);
      if newer.None? then Err(UnknownRoot)
      else
        var n :- ToPublication(db.roots, newer.value);
        if n.consistency.None? then Err(ConsistencyBroken(n.height)) else Ok((o.root, n.root, n.consistency.value))
  }
}

# Clockchain commitment layer: a Dafny model

This project models the parts of the ledger that its guarantees rest on, and proves those
guarantees for every input and every run:

- the RFC 6962 accumulator: recursive provers, bit-walking verifiers, soundness and completeness
  for trees of every size (`Tree`, `TreeLevels`, `TreeProofs`, `Verifiers`, `Merkle`);
- the root stream and the anchor lifecycle as a transition system over the tables, with crashes
  between steps and the loss of the `roots` table (`RootStream`, `RootStreamSafety`, `Moments`,
  `Anchors`, `LedgerRuns`, `AnchorRuns`, `AnchorMoments`, `Store`, `Ordering`);
- the strict v1 wire codec, built from lawful combinators and proved equal to a literal byte layout
  (`Codec`, `Wire`, `Envelope`, `Layout`, `Utf8`, `Digits`);
- the OpenTimestamps stream walker, as a parser proved equal to its grammar (`Varint`, `Ots`,
  `OtsLayout`, `OtsReader`), and the bytes of moments and seals (`RecordLayout`);
- the hash-chained seal log (`SealLog`, `SealLogRuns`), the lease and fence job queue (`Jobs`,
  `JobRuns`) and the reservation budget (`Budget`, `BudgetRuns`, `BudgetDaily`);
- calendar and coordinate arithmetic in its four forms (`Calendar`, `Coordinate`,
  `CoordinateProofs`).

`dafny verify dfyconfig.toml` checks all of it.

## How to read it

SHA-256 is a parameter `sha: Bytes -> Hash` of every definition that hashes, and Ed25519 is a
predicate that says which signatures verify. A soundness theorem concludes with what is promised
or with a collision inside an explicit finite set: the preimages that the computations named in the
theorem really hash. Nothing assumes that a hash function is injective.

State that the source changes in place is a class (`Store.Ledger`, `OtsReader.Reader`,
`SealLog.LogFile`, `Jobs.Worker`, `Budget.Registry`) whose methods are proved equal to functions
over values; the theorems about whole runs speak of those functions. Loops of the source are loops
here. Clock readings, dates, the pause switch, calendar replies and the point at which a caller dies
are arguments, so a run is any interleaving. The moments that the layer signs about itself have the
ids their content hashes to.

Round trips and collision theorems hold for any field order and any tags, so each format is also
proved equal to a reference that is written as literal bytes and shares nothing with the code's
definitions: roots (`Merkle.RootInBytes`), envelopes (`Layout`), moments, anchors and seals
(`RecordLayout`), operations and files (`Ots`, `OtsLayout`) and dates (`CoordinateProofs`).

## Where the code and its descriptions differ

- `crates/cc-anchor/src/store.rs:89-98` says that a rebuild truncates `roots`;
  `crates/cc-ledger/src/lib.rs:875-887` no longer does. The model keeps the truncation as a step
  that can happen at any time.
- "One head digest, one seal log" is false when a line's digest is 64 zeros, the value that stands
  for "no line before". `SealLogRuns.SameHeadSameLog` proves it for all other logs;
  `SealLogRuns.GenesisDigestForks` builds two accepted files with one head from any log that has
  such a line.
- `OtsProof::commitments` skips a one-byte version, while `digest` reads one of any length, so the
  two disagree unless the version is the single byte 1 (`Ots.CommitmentsOffsetIff`,
  `Ots.LongVersionExample`).
- `varuint` drops bits above 63: it is exact if and only if the encoding has fewer than ten bytes or
  its tenth byte is 0 or 1 (`Varint.VaruintExactIff`); nine bytes 0x80 and then 0x02 write 2^64 and
  are read as 0 (`Varint.OverlongReadsAsZero`).
- Confirming an anchor at a height of 2^63 or more stores the superseding moment and is then refused
  by the table, so the anchor stays pending. `AnchorRuns.RefusedConfirmationLeavesTrace` says exactly
  when a failed confirmation leaves a trace; `AnchorRuns.HugeHeightLeavesTrace` shows one calendar
  reply that causes it, and `AnchorRuns.WaitingAnchorExists` a run that is open to it.
- `crates/cc-anchor/src/store.rs:200-208` says that an idle seal stops being reachable once the stream
  runs. `LedgerRuns.HeartbeatIff` shows when: not if the caller dies between sealing and recording.
- An anchor moment's body does not tell an absent transaction id from an empty one
  (`Moments.AnchorBodyIff`).
- The budget's daily limit fails for a date on which something is settled after one reservation and
  before another that is dated otherwise: the date is read before the lock, so transactions can
  commit out of date order. `BudgetDaily.DailyLimitIff` proves that the limit holds in every run with
  a given schedule of operations and dates if and only if the schedule has no such pattern, or the
  policy no room for it; dates that never go back have none (`BudgetDaily.AdvancingDatesKeepLimit`).
- The schema (migration `0004_anchor.sql`) and `confirm_anchor` speak of one settlement, as two
  moments. A pending moment is superseded by the moment of every confirmation that got as far as
  signing, so once if and only if they all signed the same one (`AnchorMoments.SupersededByAttempts`);
  a confirmation that dies after signing and is tried again at another time leaves two
  (`AnchorMoments.RetryForks`).
- A stamp whose calendar name holds a zero byte is refused by its text column after its proof and its
  moment have been stored (`AnchorRuns.RefusedStampLeavesTrace`).

## Model

| member | source | states |
|---|---|---|
| `Tree.SplitIsLargestPowerBelow` | crates/cc-anchor/src/merkle.rs:107-112 | the split computed from leading zeros is a power of two below n, and every power of two below n is at most it |
| `TreeLevels.UpKeepsRoot` | crates/cc-anchor/src/merkle.rs:114-132 | hashing one whole level of leaves pairwise, an odd last node carried up, leaves the recursive tree hash unchanged: the bridge between recursion from the top and walking from the bottom |
| `TreeLevels.UpShortensPath` | crates/cc-anchor/src/merkle.rs:274-287 | the recursive audit path is the sibling on the lowest level followed by the audit path one level up |
| `TreeLevels.OddProofIsAuditPath` | crates/cc-anchor/src/merkle.rs:428-444 | for an odd old size the recursive consistency proof is the last old leaf followed by that leaf's audit path |
| `TreeLevels.UpKeepsEvenProof` | crates/cc-anchor/src/merkle.rs:428-444 | for an even old size the consistency proof is the one for half the old size on the level above |
| `TreeProofs.InclusionComplete` | crates/cc-anchor/src/merkle.rs:227-287 | for every leaf list a proof exists exactly for in-range indices, and the bit-walking verifier accepts it for that leaf and the recursive root |
| `TreeProofs.InclusionSound` | crates/cc-anchor/src/merkle.rs:227-253 | a proof accepted against the root of a list of its size names the leaf at its index and is the prover's own proof, unless pairs hashed by the tree or the verifier collide |
| `TreeProofs.AuditPathLength` | crates/cc-anchor/src/merkle.rs:274-287 | path length is a function of index and size alone and at most the ceiling of log2 of the size |
| `TreeProofs.ClimbOldRebuildsPrefix` | crates/cc-anchor/src/merkle.rs:348-397 | folding only the left siblings of a node's audit path gives the root of the nodes up to it: why one walk rebuilds both roots |
| `TreeProofs.SubproofIsWholePath` | crates/cc-anchor/src/merkle.rs:402-444 | what the prover sends, with the old root put back when the old tree is perfect, is exactly the seed and path the verifier walks |
| `TreeProofs.ConsistencyComplete` | crates/cc-anchor/src/merkle.rs:348-444 | for every list and every old size from 1 to n the recursive proof is accepted between the root of the prefix and the root of the whole; other sizes are refused |
| `TreeProofs.ConsistencySound` | crates/cc-anchor/src/merkle.rs:348-397 | any path accepted between the roots of two lists of the named sizes shows that the shorter list is a prefix of the longer, unless pairs hashed by the trees or the verifier collide |
| `TreeProofs.EqualSizesNeedNoPath` | crates/cc-anchor/src/merkle.rs:348-397 | between equal sizes a proof is accepted exactly when its path is empty and the roots are equal |
| `TreeProofs.ImpossibleSizes` | crates/cc-anchor/src/merkle.rs:348-397 | proofs from nothing, or to a smaller tree, are never accepted |
| `Verifiers.VerifyInclusion` | crates/cc-anchor/src/merkle.rs:227-253 | the loop over `fnode`, `snode` and `r` accepts exactly when the level-by-level walk ends at the root with the path used up |
| `Verifiers.VerifyConsistency` | crates/cc-anchor/src/merkle.rs:348-397 | the loop over `fnode`, `snode`, `fr` and `sr` accepts exactly when the walk rebuilds both roots, with every early refusal |
| `Tree.PowerOfTwoIff` | crates/cc-anchor/src/merkle.rs:348-397 | the test that decides whether the walk is seeded with the old root accepts exactly the powers of two |
| `Merkle.AuditMerkleAgrees` | ops/corpus_audit.py:167-173 | the auditor's tree hash over raw leaves equals the accumulator's root over leaf hashes, for every list |
| `Merkle.RootInBytes` | crates/cc-anchor/src/merkle.rs:86-132 | what a root is in bytes, for every log: the hash of nothing, of 00 and the event, or of 01 and the roots of the two parts, left first, split at the largest power of two below the size |
| `Merkle.SmallRoots` | crates/cc-anchor/src/merkle.rs:86-132 | the roots of two and of three events, written out |
| `Merkle.FlattenAt` | crates/cc-anchor/src/merkle.rs:450-456 | hash i of a stored path stands at byte 32 i |
| `Merkle.InclusionNamesTheEvent` | crates/cc-anchor/src/merkle.rs:86-105 | with SHA-256 prefixes: an accepted proof shows the log holds that event at that index, or exhibits two colliding preimages |
| `Merkle.ConsistencyMeansPrefix` | crates/cc-anchor/src/merkle.rs:91-132 | with SHA-256 prefixes: an accepted path shows that no event was removed or moved between two logs, or exhibits two colliding preimages |
| `Merkle.RootIdentity` | crates/cc-anchor/src/store.rs:998-1007 | equal roots mean equal logs, of whatever lengths, or two colliding preimages are exhibited |
| `Merkle.WritePath` | crates/cc-anchor/src/merkle.rs:450-456 | the loop writes the hashes of a path one after another |
| `Merkle.UnflattenInverts` | crates/cc-anchor/src/merkle.rs:450-470 | a stored path reads back as it was written |
| `Merkle.FlattenInverts` | crates/cc-anchor/src/merkle.rs:450-470 | a blob is read exactly when it is whole hashes, and writes back to itself |
| `Ordering.OrderByCanonical` | crates/cc-anchor/src/store.rs:14-24 | the order leaves are sealed in depends on the set of rows and not on arrival |
| `RootStreamSafety.NewLeavesOk` | crates/cc-anchor/src/store.rs:239-250 | a seal takes exactly the events that no log row names, each once, in the byte order of their ids |
| `RootStreamSafety.SealOfIntact` | crates/cc-anchor/src/store.rs:210-297 | sealing an intact stream answers with the last root and its height and changes nothing, or adds exactly the new leaves and one root row that the publication describes field by field, or is refused because the root already exists |
| `RootStreamSafety.PublicationOfSeal` | crates/cc-anchor/src/store.rs:287-294 | a publication describes the new state: the height, the root of the whole log, the size of the log, the root before it, and a proof between the last two sizes that is accepted between the last two roots |
| `RootStreamSafety.SealPublishesOrCollides` | crates/cc-anchor/src/store.rs:210-297 | an intact stream with new events publishes, unless preimages hashed for the grown log and for a published prefix collide |
| `RootStreamSafety.UnchangedIff` | crates/cc-anchor/src/store.rs:210-297 | a seal is idle if and only if every stored event is already committed |
| `RootStreamSafety.SealKeepsIntact` | crates/cc-anchor/src/store.rs:215-285 | sealing keeps the whole invariant: gap-free log, distinct events, contiguous heights, growing trees, roots that hash their prefixes, proofs that are the prover's |
| `RootStreamSafety.SealOfLost` | crates/cc-anchor/src/store.rs:215-236 | with leaves committed and no root, sealing refuses and changes nothing |
| `RootStreamSafety.RecordKeepsIntact` | crates/cc-anchor/src/store.rs:305-332 | recording a moment, whichever root it names, keeps the invariant |
| `RootStreamSafety.RecordedRow` | crates/cc-anchor/src/store.rs:305-332 | after a recording the row of that root carries the moment, every other field and row is as before, and the moment's id is stored |
| `RootStreamSafety.StoredProofVerifies` | crates/cc-anchor/src/store.rs:393-432 | every stored proof, read back from its blob, verifies between the two roots it joins |
| `RootStreamSafety.IntactVerifies` | crates/cc-anchor/src/store.rs:580-631 | an intact stream passes the audit |
| `RootStreamSafety.ProvesEarliest` | crates/cc-anchor/src/store.rs:522-552 | every committed event is proved at its own position against the root whose height was stored with its leaf, the leaf is the hash of 00 and the event, the proof verifies, and no lower root commits to the event |
| `RootStreamSafety.LowerRootProvesNothing` | crates/cc-anchor/src/store.rs:522-552 | any inclusion proof of a lower root's size that its root accepts for the event exhibits a collision |
| `RootStreamSafety.UncommittedNotProved` | crates/cc-anchor/src/store.rs:522-535 | an event that no leaf names is refused |
| `RootStreamSafety.NeighboursAreConsistent` | crates/cc-anchor/src/store.rs:638-654 | a proof between neighbouring roots is served exactly when both exist, and verifies between them |
| `LedgerRuns.ReachableIntact` | crates/cc-anchor/src/store.rs:210-332 | every state reachable by arrivals, seals, recordings, stamps, confirmations and crashes between them is intact and passes the audit |
| `LedgerRuns.ReachableIntactOrLost` | crates/cc-anchor/src/store.rs:89-98 | with truncations allowed at any point, every reachable state is intact or lost and its log is well formed |
| `LedgerRuns.LostForever` | crates/cc-anchor/src/store.rs:89-98 | once roots are lost over a nonempty log, whatever happens next, no root is ever published, the log stays as it is and every seal refuses |
| `LedgerRuns.LogOnlyGrows` | crates/cc-anchor/src/store.rs:239-272 | the log of every earlier state is a prefix of the log of every later one |
| `LedgerRuns.SealDeterministic` | crates/cc-anchor/src/store.rs:239-272 | two intact nodes with the same stream and the same event set, in whatever arrival order, publish the same rows |
| `LedgerRuns.SameBoundariesSameStream` | crates/cc-anchor/src/store.rs:14-24 | two runs that hold the same event sets at their seals end with the same log, roots and proofs |
| `LedgerRuns.HeartbeatIff` | crates/cc-anchor/src/store.rs:196-208 | after a publication the next seal is idle exactly when the recording moment's id was already stored, and always if the caller died before recording |
| `LedgerRuns.WaitingEventIsSealed` | crates/cc-anchor/src/store.rs:196-208 | an event that waits to be committed keeps the next seal from being idle, whatever happens before it |
| `Moments.MomentCanonInjective` | crates/cc-core/src/lib.rs:393-447 | the canonical bytes of a moment determine its time, what it supersedes, its subject and its body |
| `Moments.RootBodyIff` | crates/cc-anchor/src/store.rs:339-355 | two root moments hash one body if and only if they record the same publication |
| `Moments.AnchorBodyIff` | crates/cc-anchor/src/store.rs:1015-1041 | two anchor moments hash one body if and only if they record the same facts, an absent and an empty transaction id counting as one |
| `Moments.RootIsNotAnchor` | crates/cc-anchor/src/store.rs:1008-1012 | a root moment and an anchor moment never hash the same body |
| `RecordLayout.RootBodyLayout` | crates/cc-anchor/src/store.rs:339-355 | a root moment's body as literal bytes: domain, height, tree size, root and the root before it, in that order |
| `RecordLayout.AnchorBodyLayout` | crates/cc-anchor/src/store.rs:1015-1041 | an anchor moment's body as literal bytes: domain, root, height, status, proof address, calendar, block height and transaction |
| `RecordLayout.MomentLayout` | crates/cc-core/src/lib.rs:393-447 | a moment as literal bytes: domain, versions, time, what it supersedes, node zero and the body's hash; its id is their hash |
| `RecordLayout.StampStores` | crates/cc-anchor/src/store.rs:717-774 | everything a stamp of the root at a given height stores, down to the bytes of its moment, and that nothing else changes |
| `RecordLayout.ConfirmationStores` | crates/cc-anchor/src/store.rs:783-838 | everything a confirmation stores, down to the bytes of its moment, and that nothing else changes |
| `Anchors.PendingOfMembers` | crates/cc-anchor/src/ots.rs:271-281 | the questions are exactly the pending commitments of the proof, each calendar asked about its own message |
| `Anchors.AskedInOrder` | crates/cc-anchor/src/store.rs:885-918 | the answer is that of the first pending commitment, in the order of the proof, whose calendar fails or attests to a block, and then the first block of that reply; if none does, there is no height |
| `Anchors.OneVerdict` | crates/cc-anchor/src/store.rs:896-914 | every commitment is silent, speaks of exactly one height, or fails, and only one of these |
| `Anchors.UpgradeIsConfirmation` | crates/cc-anchor/src/store.rs:885-918 | the state and the answer of every upgrade, over the commitments of the stored proof: refusal without a stamp, the record of a confirmed anchor, failure to read the proof, failure of the first calendar that fails, the pending record when all are silent, and otherwise a confirmation at the first height of the first that speaks |
| `AnchorRuns.ReachableAnchorsOk` | crates/cc-anchor/src/store.rs:717-838 | in every reachable state an anchor has a height exactly when confirmed, belongs to a published root, names a stored moment and proof, and every stored proof hashes to its key |
| `AnchorRuns.StoredProofCommits` | crates/cc-anchor/src/store.rs:954-974 | every anchor's proof loads, hashes to its key and commits to that root, unless two submitted proofs collide |
| `AnchorRuns.StepFollowsLifecycle` | crates/cc-anchor/src/store.rs:717-838 | each step leaves a root alone, stamps it with a proof about it, or confirms a pending anchor; the signed moment, which for a confirmation names the pending one as superseded, is stored unless another event already had its id |
| `AnchorRuns.StagesOnlyRise` | crates/cc-anchor/src/store.rs:717-838 | over any run a root goes only from unstamped to pending to confirmed, keeps its proof and calendar, and never changes once confirmed |
| `AnchorRuns.StampedAndConfirmedOnce` | crates/cc-anchor/src/store.rs:734-812 | a second stamp or confirmation, however much later, is refused and changes nothing |
| `AnchorRuns.AnchorProgress` | crates/cc-anchor/src/store.rs:717-838 | in an intact stream a root can be stamped exactly when it is published, unstamped and the proof is about it and of storable size, and confirmed exactly when pending with a height that fits, no field being too long to frame and the calendar's name free of zero bytes |
| `AnchorRuns.RefusedStampLeavesTrace` | crates/cc-anchor/src/store.rs:717-774 | a failed stamp changes the tables if and only if its calendar's name cannot be framed or stored and its proof or moment is new |
| `AnchorRuns.RefusedConfirmationLeavesTrace` | crates/cc-anchor/src/store.rs:783-838 | a failed confirmation changes the tables if and only if the anchor is pending, the height is 2^63 or more and the moment is new |
| `AnchorRuns.HugeHeightLeavesTrace` | crates/cc-anchor/src/store.rs:885-918 | one reply attesting a height of 2^63 or more makes the upgrade of any waiting anchor fail after committing a moment that supersedes the pending one, with the anchor still pending |
| `AnchorRuns.WaitingAnchorExists` | crates/cc-anchor/src/store.rs:717-774 | a run of one event, one seal and one stamp reaches a state to which that applies |
| `AnchorMoments.PendingIsRecorded` | crates/cc-anchor/src/store.rs:717-774 | in every run of signed events (`ArrivalsAuthentic`) each pending anchor's moment is stored, records its root, proof and calendar, and supersedes nothing, unless two payloads of the run collide |
| `AnchorMoments.ConfirmedSupersedesPending` | crates/cc-anchor/src/store.rs:776-838 | in every run of signed events (`ArrivalsAuthentic`) each confirmed anchor was pending earlier; its moment is stored, alone under its id, supersedes exactly the moment the pending row named, and that one is still stored, unless two payloads of the run collide |
| `AnchorMoments.TakenIdIsNotStored` | crates/cc-anchor/src/store.rs:783-838 | the exception is real: if another event has the moment's id, the anchor is confirmed and the moment is not stored |
| `AnchorMoments.SupersededByAttempts` | crates/cc-anchor/src/store.rs:783-838 | what supersedes a moment in a run is exactly the moments of the confirmations that got as far as signing, so it is superseded once if and only if they all signed the same one |
| `AnchorMoments.SameAttemptIff` | crates/cc-anchor/src/store.rs:1015-1054 | two confirmations sign the same moment if and only if they name one time, height and transaction, unless their bodies collide |
| `AnchorMoments.RetryForks` | crates/cc-anchor/src/store.rs:783-838 | a run in which a confirmation dies after signing and is retried at another time stores two superseding moments, unless two payloads collide |
| `AnchorMoments.HugeHeightHappens` | crates/cc-anchor/src/store.rs:885-918 | in a run of one event, one seal, one stamp and one upgrade the huge height appends the superseding moment, unless two payloads collide |
| `AnchorMoments.ConfirmedAnchorExists` | crates/cc-anchor/src/store.rs:783-838 | a run of signed events reaches a confirmed anchor |
| `Store.ReadLeaves` | crates/cc-anchor/src/store.rs:459-473 | the loop refuses at the first gap in positions and otherwise hashes every event in order |
| `Store.Ledger.SealEpoch` | crates/cc-anchor/src/store.rs:210-285 | the sealing transaction, statement by statement, does what the specification over tables says |
| `Store.Ledger.RecordRootMoment` | crates/cc-anchor/src/store.rs:305-332 | commits the moment and points the root's row at it, and changes nothing else |
| `Store.Ledger.PublishRoot` | crates/cc-anchor/src/store.rs:210-297 | seals, then records in a separate step, and returns the publication with its moment |
| `Store.Ledger.VerifyRootChain` | crates/cc-anchor/src/store.rs:580-631 | the audit loop accepts if and only if every root hashes its prefix and every later root is consistent with the one below; it counts what it checked |
| `Store.UnrecordedCounts` | crates/cc-anchor/src/store.rs:580-631 | the audit's count of unrecorded roots is the number of rows without a moment |
| `Store.Ledger.Stamp` | crates/cc-anchor/src/store.rs:717-774 | the three writes of a stamp, up to any crash point |
| `Store.Ledger.Confirm` | crates/cc-anchor/src/store.rs:783-838 | the two writes of a confirmation, up to any crash point |
| `Store.Ledger.Upgrade` | crates/cc-anchor/src/store.rs:885-918 | the loop over pending calendars confirms at the first attested height, or leaves the anchor pending |
| `Codec.BothLawful` | crates/cc-core/src/v1.rs:442-450 | fields written one after another keep the round trip and canonicity of their parts |
| `Codec.OptionLawful` | crates/cc-core/src/v1.rs:374-389 | an option with its presence byte is lawful when its content is |
| `Codec.TextLawful` | crates/cc-core/src/v1.rs:360-373 | length-prefixed UTF-8 text round-trips and has one encoding |
| `Utf8.Utf8Iff` | crates/cc-core/src/v1.rs:360-373 | the byte tables accept exactly the encodings of sequences of Unicode scalar values (section 3 of RFC 3629) |
| `Codec.SetLawful` | crates/cc-core/src/v1.rs:408-441 | a counted, strictly sorted set round-trips and has one encoding |
| `Codec.UnionLawful` | crates/cc-core/src/v1.rs:470-551 | a tagged union is lawful when each alternative is and carries its own tag |
| `Codec.WriteSet` | crates/cc-core/src/v1.rs:409-423 | the writing loop appends the count and every element to what is already written, or refuses as the specification does |
| `Codec.ReadSet` | crates/cc-core/src/v1.rs:424-441 | the reading loop returns the elements that follow the count, and refuses unsorted or repeated ones |
| `Wire.ValueLawful` | crates/cc-core/src/v1.rs:470-530 | the value union round-trips and is canonical |
| `Wire.SelectionLawful` | crates/cc-core/src/v1.rs:531-551 | the selection union round-trips and is canonical |
| `Wire.PayloadLawful` | crates/cc-core/src/v1.rs:552-642 | every payload kind round-trips, is canonical, and is read and written only under its own kind |
| `Layout.ValueWrites` | crates/cc-core/src/v1.rs:470-530 | a value is written as its literal tag 0 to 8 and its fields, exactly when its set fits |
| `Layout.SelectionWrites` | crates/cc-core/src/v1.rs:531-551 | a selection is written as its literal tag 0 or 1 and the hash |
| `Layout.DecisionWrites` | crates/cc-core/src/v1.rs:442-469 | a decision is its kind, rationale, evidence, parents, old and new value, in that order |
| `Layout.PayloadWrites` | crates/cc-core/src/v1.rs:552-597 | every payload kind writes its fields in the order of the format, exactly when its texts and sets fit |
| `Layout.SortedIff` | crates/cc-core/src/v1.rs:408-423 | neighbours that ascend make a set that ascends in byte order between any two elements |
| `Envelope.EnvelopeInverts` | crates/cc-core/src/v1.rs:206-234 | reading what is written gives the envelope and leaves whatever follows |
| `Envelope.PreimageRoundTrip` | crates/cc-core/src/v1.rs:206-295 | every envelope with a preimage reads back as itself with nothing left over |
| `Envelope.PreimageInjective` | crates/cc-core/src/v1.rs:206-234 | two envelopes never share a preimage |
| `Layout.PreimageIsLayout` | crates/cc-core/src/v1.rs:206-234 | the whole wire format: an envelope has a preimage if and only if its texts, sets, subject key and total size fit, and the preimage is the literal layout |
| `Layout.PreimageOffsets` | crates/cc-core/src/v1.rs:206-234 | domain and versions, instance, kind and author stand at bytes 0, 19, 51 and 53 of every preimage |
| `Envelope.ReadWholeIsCanonical` | crates/cc-core/src/v1.rs:251-295 | bytes read whole within the limit are the preimage of what was read, or fail the subject-key length check and nothing else, so the byte comparison of `decode` never refuses |
| `Envelope.DecodeIff` | crates/cc-core/src/v1.rs:251-295 | decoding accepts exactly a canonical preimage and a 64-byte signature that verifies, so both size limits agree |
| `Layout.DecodesLayout` | crates/cc-core/src/v1.rs:251-295 | decoding accepts exactly the literal layout of an envelope that fits, followed by a 64-byte signature by its author, and returns that envelope |
| `Envelope.DecodeKeepsBytes` | crates/cc-core/src/v1.rs:251-295 | what decoding returns keeps the bytes and names the hash of the preimage |
| `Envelope.SameEnvelopeSamePreimage` | crates/cc-core/src/v1.rs:251-295 | two messages that decode to one envelope differ at most in the signature and have one id |
| `Envelope.SignIff` | crates/cc-core/src/v1.rs:243-250 | with a working key signing succeeds exactly when a preimage exists, and returns the signer as author, the preimage followed by the signature over it, and its hash |
| `Varint.WriteVaruint` | crates/cc-anchor/src/ots.rs:389-400 | the loop appends the minimal base-128 bytes of the value |
| `Varint.VaruintIff` | crates/cc-anchor/src/ots.rs:441-456 | the reader succeeds with n and a remainder exactly on a terminated encoding of at most ten bytes that writes n modulo 2^64 |
| `Varint.VaruintInverts` | crates/cc-anchor/src/ots.rs:389-456 | reading inverts writing on every 64-bit value, whatever follows |
| `Varint.VaruintExactIff` | crates/cc-anchor/src/ots.rs:447-447 | a value is read exactly if and only if the encoding has fewer than ten bytes or its tenth byte is 0 or 1 |
| `Varint.OverlongReadsAsZero` | crates/cc-anchor/src/ots.rs:441-456 | ten bytes that write 2^64 are read as 0 |
| `Ots.WalkIff` | crates/cc-anchor/src/ots.rs:289-383 | the walker succeeds with commitments and a remainder if and only if the stream is a well-formed operation tree followed by that remainder, and the commitments are its leaves in order, each with its branch's operations applied |
| `Ots.ExecutesInPlace` | crates/cc-anchor/src/ots.rs:326-353 | reversal and hexadecimal give what they should in every place of the message |
| `OtsLayout.InterpretIff` | crates/cc-anchor/src/ots.rs:355-383 | an attestation is read as exactly what its literal tag and payload claim; one with an unknown tag is kept and never refused |
| `OtsLayout.CommitsToIff` | crates/cc-anchor/src/ots.rs:191-242 | a file is about a digest if and only if it is the 31 magic bytes, an encoding of version 1, the byte 08 and the digest |
| `OtsLayout.AssembleLayout` | crates/cc-anchor/src/ots.rs:169-183 | the file stored for a reply, as literal bytes, with its timestamp at byte 65 |
| `Ots.WalkIgnoresMessage` | crates/cc-anchor/src/ots.rs:295-319 | whether and how far a stream is walked does not depend on the message, and at least one commitment is found |
| `Ots.CalendarReply` | crates/cc-anchor/src/ots.rs:169-183 | a proof is built exactly when the reply is one timestamp and nothing else; it commits to the digest, its commitments are the reply's, and the empty refusal never fires |
| `Ots.CommitmentsOffsetIff` | crates/cc-anchor/src/ots.rs:224-256 | the commitments are read from right after the digest if and only if the version is the single byte 1 |
| `Ots.LongVersionExample` | crates/cc-anchor/src/ots.rs:246-256 | a file whose digest is accepted and whose commitments are read one byte early |
| `Ots.LongVersionMisleads` | crates/cc-anchor/src/ots.rs:224-256 | when its digest ends in the SHA-256 opcode, such a file is accepted, commits to the digest, and derives every commitment from the digest's hash |
| `Ots.SerializeUnique` | crates/cc-anchor/src/ots.rs:289-383 | a stream is the serialization of one operation tree followed by one remainder |
| `Ots.BlockReplyAttests` | crates/cc-anchor/src/ots.rs:355-383 | every 64-bit height is attested by some calendar reply |
| `OtsReader.Reader.ReadVaruint` | crates/cc-anchor/src/ots.rs:441-456 | the cursor loop reads what the specification reads and stops where it stops |
| `OtsReader.Reader.ReadAttestation` | crates/cc-anchor/src/ots.rs:355-383 | the cursor reads one attestation and the message it is about |
| `OtsReader.Reader.Apply` | crates/cc-anchor/src/ots.rs:326-353 | the cursor executes one operation, reading its argument if it has one |
| `OtsReader.Reader.Walk` | crates/cc-anchor/src/ots.rs:289-319 | the loop with recursion on siblings collects what the recursive specification collects, and ends on the remaining bytes |
| `SealLog.EncodeSealInjective` | ops/seal_v1.py:171-179 | the signed bytes determine the seal |
| `RecordLayout.SealLayout` | ops/seal_v1.py:171-179 | the signed bytes as a literal layout: domain, then the ten fields in the order of the record |
| `SealLog.ReadLogLoop` | ops/seal_v1.py:264-288 | the loop carrying the previous digest returns what the recursive reader returns |
| `SealLog.VerifyLogLoop` | ops/seal_v1.py:291-308 | the loop carrying the previous seal returns the report, or the first refusal, of the recursive verifier |
| `SealLog.LogFile.RecordSeal` | ops/seal_v1.py:358-370 | a recording checks the document, the head and the succession, and appends one line or leaves the file alone |
| `SealLogRuns.ReadLogIff` | ops/seal_v1.py:264-288 | a file is accepted with given entries if and only if it is their canonical lines and each names the digest of the line before, from 64 zeros |
| `SealLogRuns.SuccessionIff` | ops/seal_v1.py:219-237 | a seal may follow another if and only if its clock is later and either count, digest and commitment are equal, or the count grew and digest and commitment both changed |
| `SealLogRuns.CheckDocIff` | ops/seal_v1.py:182-216 | a document passes if and only if it names the key, carries a 64-byte signature by it over the canonical bytes, and is about the expected identity |
| `SealLogRuns.RecordIff` | ops/seal_v1.py:358-370 | for any file and document, a recording succeeds if and only if the document passes, the file is a chained log and its head is signed and may be followed; otherwise nothing changes |
| `SealLogRuns.RecordOnLog` | ops/seal_v1.py:358-370 | on a chained log a successful recording appends exactly the document's line, naming the last line's digest, and answers with the new length |
| `SealLogRuns.VerifyLogIff` | ops/seal_v1.py:291-308 | full verification accepts exactly the files of chained entries that are signed, of the expected identity and in succession, and reports their number, the last line's digest and the last seal |
| `SealLogRuns.RunVerifies` | ops/seal_v1.py:358-370 | a log built from nothing by any attempts passes full verification, although each attempt checks only the head |
| `SealLogRuns.EntriesOrdered` | ops/seal_v1.py:219-237 | between any two entries clocks strictly increase, counts do not fall, and equal counts mean equal digest and commitment |
| `SealLogRuns.NeighboursChangeTogether` | ops/seal_v1.py:219-237 | between neighbouring entries digest and commitment change together, and exactly when the count grows |
| `SealLogRuns.AcceptedEntriesAreSigned` | ops/seal_v1.py:182-216 | every entry of a file that full verification accepts is signed under the key over its own canonical bytes and names the expected identity |
| `SealLogRuns.SameHeadSameLog` | ops/seal_v1.py:264-288 | two accepted logs with one head digest are the same, or two of their lines collide, or a line hashes to 64 zeros |
| `SealLogRuns.GenesisDigestForks` | ops/seal_v1.py:264-288 | from any accepted log with a line that hashes to 64 zeros come two different accepted files with one head and no new collision |
| `SealLogRuns.TornAppendRefused` | ops/seal_v1.py:311-319 | a partly written line is refused by every later recording and verification, and the file is left as it is |
| `Jobs.Worker.EnqueueJob` | ops/generation_worker.py:53-57 | inserts a queued job once and refuses another brief under its id |
| `Jobs.Worker.AcquireLease` | ops/generation_worker.py:58-67 | the acquisition transaction with its four refusals |
| `Jobs.Worker.CheckLease` | ops/generation_worker.py:68-71 | the guard |
| `Jobs.Worker.ReserveCents` | ops/generation_worker.py:72-81 | the reservation transaction with its refusals |
| `Jobs.Worker.FinishJob` | ops/generation_worker.py:82-85 | the finishing transaction, which gives up the lease |
| `Jobs.Worker.RequeueReviewed` | ops/generation_worker.py:287-292 | only a reviewed job goes back to the queue |
| `JobRuns.RowsAdvance` | ops/generation_worker.py:53-85 | between any two moments of a run a job keeps its brief, its fence does not fall, and a lease given up returns only with a newer fence |
| `JobRuns.FencesIncrease` | ops/generation_worker.py:58-67 | fences of a job strictly increase over every interleaving |
| `JobRuns.OlderFenceIsDead` | ops/generation_worker.py:68-85 | once a newer fence is acquired no older one checks, reserves or finishes |
| `JobRuns.FinishesAtMostOnce` | ops/generation_worker.py:82-85 | each fence finishes its job at most once |
| `JobRuns.UseIsExclusive` | ops/generation_worker.py:58-85 | whoever passes the guard holds a fence acquired before, since when the job was neither acquired again nor finished under it |
| `JobRuns.LeaseRespected` | ops/generation_worker.py:58-67 | unless its holder finishes, a job is acquired again only when the time the lease was granted for has run out |
| `JobRuns.ReviewedJobWaits` | ops/generation_worker.py:287-292 | a job finished into review is acquired again only after a requeue |
| `JobRuns.FenceCounts` | ops/generation_worker.py:58-67 | a job's fence is the number of its granted acquisitions |
| `JobRuns.AcquiredAtMostThrice` | ops/generation_worker.py:58-67 | no job is acquired more than three times in any run |
| `JobRuns.DailyLimits` | ops/generation_worker.py:72-81 | no day's reservations over all jobs exceed 500 cents or 40 text calls |
| `JobRuns.TableIsGranted` | ops/generation_worker.py:72-81 | the reservations table holds exactly the granted reservations, in order |
| `JobRuns.AcquireIff` | ops/generation_worker.py:58-67 | an acquisition is granted if and only if generation is enabled and the job is there, queued, failed or running, granted fewer than three times in the run, and its lease is over; the answer and the row it writes |
| `JobRuns.AbandonedJobIff` | ops/generation_worker.py:58-67 | a job whose holder neither finished nor was replaced is acquired again if and only if generation is enabled, the granted time has run out and it was not the third acquisition |
| `JobRuns.FinishIff` | ops/generation_worker.py:68-85 | a finish succeeds if and only if its fence is the number of acquisitions so far and its lease lasts; it stores state, outcome and error and ends the lease |
| `JobRuns.ReserveIff` | ops/generation_worker.py:72-81 | a reservation is granted if and only if it is a free text call or a priced image under a usable fence, and the run's granted reservations leave room below 500 cents and 40 text calls |
| `JobRuns.BriefIsFirst` | ops/generation_worker.py:53-57 | a job exists from its first enqueueing on and keeps that brief |
| `JobRuns.EnqueueIff` | ops/generation_worker.py:53-57 | enqueueing is refused if and only if the job was first given another brief |
| `JobRuns.RequeueStores` | ops/generation_worker.py:287-292 | a requeue makes a reviewed job queued and changes nothing else |
| `Budget.Micro` | ops/model_policy.py:87-97 | a charge becomes the least whole number of millionths that covers it; invalid and negative amounts are refused |
| `Budget.Registry.ReserveHold` | ops/model_policy.py:197-212 | the reservation transaction with its refusals |
| `Budget.Registry.SettleCharge` | ops/model_policy.py:213-224 | the settling transaction, which commits an overrun and the freeze before reporting it |
| `Budget.Registry.Status` | ops/model_policy.py:225-229 | reported spending and holds add up to what every attempt counts for |
| `BudgetRuns.BlockedIffOverran` | ops/model_policy.py:213-224 | in every reachable state the budget is frozen if and only if some settled attempt exceeded its reservation |
| `BudgetRuns.FrozenForGood` | ops/model_policy.py:197-212 | once frozen it stays frozen and grants nothing |
| `BudgetRuns.TotalCovered` | ops/model_policy.py:197-224 | holds, and charges up to their reservations, never exceed the total limit |
| `BudgetRuns.SpentAndHeldBounded` | ops/model_policy.py:197-229 | money spent and held is at most the limit plus the overruns, and without a freeze there are none |
| `BudgetRuns.CallsBounded` | ops/model_policy.py:197-212 | no date has more calls than allowed, in whatever order dates come |
| `BudgetDaily.DailyCovered` | ops/model_policy.py:197-224 | in every run whose schedule does not expose a date, open holds and that date's covered charges stay within the daily limit, frozen or not |
| `BudgetDaily.DailyWithinLimit` | ops/model_policy.py:197-224 | and while the budget is not frozen, the holds and charges themselves do |
| `BudgetDaily.AdvancingDatesKeepLimit` | ops/model_policy.py:199-200 | dates that never go back expose neither today nor a later date |
| `BudgetDaily.ExposedScheduleBreaks` | ops/model_policy.py:197-224 | for every schedule that exposes a date there is a run with the same operations and dates, without overruns, that ends above that date's limit |
| `BudgetDaily.DailyLimitIff` | ops/model_policy.py:197-224 | for every valid policy, all runs with a schedule keep a date within the daily limit if and only if the schedule does not expose it |
| `BudgetRuns.AttemptsPersist` | ops/model_policy.py:213-224 | attempts are never dropped, keep their holds until settled and their charges for good |
| `BudgetRuns.BooksAreHistory` | ops/model_policy.py:197-224 | every attempt was opened by a reservation for its amount and date, and every charge is a cost reported later, rounded up |
| `BudgetRuns.GrantedIff` | ops/model_policy.py:197-212 | a reservation is granted if and only if it is for 0 to 100000000 millionths, no attempt ever overran, spending and holds leave room in total and on the date, the date has a call left and the name is new |
| `BudgetRuns.SettledIff` | ops/model_policy.py:213-224 | a settlement of an open attempt for a valid cost replaces its hold by the charge, and freezes and reports if and only if the charge is above the hold; anything else changes nothing |
| `Calendar.FloorIsTrunc` | clients/typescript/src/coordinate.ts:121-129 | the flooring and truncating forms agree on every year, month and day |
| `Calendar.LeapAgrees` | clients/typescript/src/coordinate.ts:131-133 | leap years by truncating and by flooring remainder agree for every year |
| `Calendar.NewYearForms` | crates/cc-authoring/src/lib.rs:37-47 | both 1 January forms equal both general ones for every year |
| `Calendar.ConsecutiveDays` | clients/python/clockchain_public/coordinate.py:53-78 | consecutive dates of every year have consecutive numbers |
| `Calendar.EpochIsZero` | clients/python/clockchain_public/coordinate.py:68-78 | 1970-01-01 is day 0 |
| `Calendar.OrderIff` | clients/python/clockchain_public/coordinate.py:53-78 | day numbers are in date order and determine the date |
| `Calendar.EveryDayHasOneDate` | clients/python/clockchain_public/coordinate.py:53-78 | every whole number is the number of exactly one valid date |
| `CoordinateProofs.CoordinateIff` | clients/python/clockchain_public/coordinate.py:26-39 | writing a tick and reading a coordinate are inverse over all integers and all strings, refusals included |
| `CoordinateProofs.ClientsWriteAlike` | clients/typescript/src/coordinate.ts:26-36 | 32 bytes in hexadecimal and a padded number are the same text for every tick, and both clients refuse the same |
| `CoordinateProofs.ClientsReadAlike` | clients/typescript/src/coordinate.ts:38-43 | both clients read every string alike |
| `CoordinateProofs.ClientsDateAlike` | clients/typescript/src/coordinate.ts:80-95 | both clients give every date, possible or not, the same coordinate or the same refusal |
| `CoordinateProofs.OrderIsTime` | clients/python/clockchain_public/coordinate.py:26-32 | the texts of two ticks sort as the ticks do |
| `CoordinateProofs.SecondsFloor` | clients/python/clockchain_public/coordinate.py:42-50 | whole seconds survive, and any coordinate gives the second it lies in, before the epoch too |
| `CoordinateProofs.DateIff` | clients/python/clockchain_public/coordinate.py:53-78 | a date has a coordinate if and only if it exists and its year has at most four digits |
| `CoordinateProofs.DateOrder` | clients/python/clockchain_public/coordinate.py:53-78 | the coordinates of two dates sort as the dates do, and only equal dates share one |
| `CoordinateProofs.DateIsMidnight` | clients/python/clockchain_public/coordinate.py:53-78 | a date's coordinate is its midnight, in units of 2^-64 seconds from noon of 2000-01-01 |
| `CoordinateProofs.KnownDates` | clients/python/clockchain_public/coordinate.py:53-78 | 2000-01-01 lies 43200 seconds before the origin, and the first day of 1 BCE where it should |
| `CoordinateProofs.CoordinateWrites` | clients/python/clockchain_public/coordinate.py:26-32 | a coordinate's 64 digits write the tick plus 2^255 |
| `CoordinateProofs.YearCoordIsCoordinate` | ops/corpus_audit.py:150-154 | the auditor's closed form is the number that 1 January's coordinate writes |

## Left out

- SHA-256 and Ed25519: abstract, as above.
- Network: a calendar reply is arbitrary bytes and a calendar is any function; HTTP clients, transports and timeouts are not modelled.
- Databases: PostgreSQL and SQLite are maps and sequences, and a locked transaction is one step; integer columns are unbounded except the block height of an anchor.
- v1 `Writer` and `Reader`: modelled on values (bytes appended, bytes left) and not as objects updated in place; the loops of `Set` are loops.
- `audit_path` and `subproof`: return their path instead of pushing to a vector.
- Events: of the event table the id, what an event supersedes and its canonical bytes are modelled; authors, signatures and record times are not, and of the canonical encodings only that of moments is written out.
- JSON in the seal log: a pair of functions of which only a round trip and the absence of newlines are required; the shape checks of `verify_signed` on a malformed document are one refusal.
- Error texts: refusals are told apart, their messages are not; all malformed timestamps are one error.
- Job reservations: identifiers and creation times of rows are not modelled; the clock is not negative.
- Budget: reading and validating the policy file is not modelled; `Decimal` is exact, so amounts of more than 22 digits, which the default context would round, are not covered.
- Coordinates: `year_tick` is unbounded where the code is 64-bit; conversions from date-time objects are not modelled.
- UTF-8: a well-formedness predicate on bytes; no normalisation.
- Merkle proofs: serialised forms other than path blobs are not modelled.
- Client decoders, classification, deduplication, viewers, deployment, backups, monitoring and model calls: not modelled; they would add per-field checks or orchestration only.
- The ledger projector and the filters: not modelled.

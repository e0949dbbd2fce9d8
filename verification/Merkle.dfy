/**
 The accumulator over event ids: leaf and node prefixes, the two implementations of the tree
 hash, path blobs, and what the proofs say about the events themselves.
 */
module Merkle {
  import opened Bytes
  import opened Tree
  import TreeProofs

  type EventId = Hash

  const LEAF_PREFIX: byte := 0
  const NODE_PREFIX: byte := 1

  function LeafPreimage(id: EventId): Bytes { [LEAF_PREFIX] + id }
  function NodePreimage(left: Hash, right: Hash): Bytes { [NODE_PREFIX] + left + right }
  function LeafHash(sha: Sha, id: EventId): Hash { sha(LeafPreimage(id)) }

  function Rfc6962(sha: Sha): Hasher<Hash> {
    Hasher(sha([]), (left: Hash, right: Hash) => sha(NodePreimage(left, right)))
  }

  function Leaves(sha: Sha, ids: seq<EventId>): (leaves: seq<Hash>)
    ensures |leaves| == |ids|
  {
    seq(|ids|, i requires 0 <= i < |ids| => LeafHash(sha, ids[i]))
  }

  function MerkleRoot(sha: Sha, ids: seq<EventId>): Hash {
    Mth(Rfc6962(sha), Leaves(sha, ids))
  }

  /** The second implementation, `merkle` of ops/corpus_audit.py, which hashes leaves as it goes. */
  function AuditMerkle(sha: Sha, ids: seq<EventId>): Hash
    decreases |ids|
  {
    if |ids| == 0 then sha([])
    else if |ids| == 1 then LeafHash(sha, ids[0])
    else
      var split := SplitPoint(|ids|);
      sha(NodePreimage(AuditMerkle(sha, ids[..split]), AuditMerkle(sha, ids[split..])))
  }

  lemma {:induction false} AuditMerkleAgrees(sha: Sha, ids: seq<EventId>)
    ensures AuditMerkle(sha, ids) == MerkleRoot(sha, ids)
    decreases |ids|
  {
    hide SplitPoint;
    if |ids| > 1 {
      var k, leaves := SplitPoint(|ids|), Leaves(sha, ids);
      AuditMerkleAgrees(sha, ids[..k]);
      AuditMerkleAgrees(sha, ids[k..]);
      assert Leaves(sha, ids[..k]) == leaves[..k];
      assert Leaves(sha, ids[k..]) == leaves[k..];
    }
  }

  lemma SplitUnique(n: nat, e: nat)
    requires n > 1 && Pow2(e) < n <= 2 * Pow2(e)
    ensures SplitPoint(n) == Pow2(e)
  {
    SplitIsLargestPowerBelow(n);
    var d: nat :| SplitPoint(n) == Pow2(d) < n;
    if d > e {
      Pow2Monotone(e + 1, d);
    } else {
      Pow2Monotone(d, e);
    }
  }

  lemma RootOfHalves(sha: Sha, ids: seq<EventId>, k: nat)
    requires |ids| > 1 && k == SplitPoint(|ids|)
    ensures MerkleRoot(sha, ids) == sha([1] + MerkleRoot(sha, ids[..k]) + MerkleRoot(sha, ids[k..]))
  {
    hide SplitPoint;
    var leaves := Leaves(sha, ids);
    assert Leaves(sha, ids[..k]) == leaves[..k] && Leaves(sha, ids[k..]) == leaves[k..];
    var l, r := MerkleRoot(sha, ids[..k]), MerkleRoot(sha, ids[k..]);
    assert Rfc6962(sha).node(l, r) == sha(NodePreimage(l, r));
    assert NodePreimage(l, r) == [1] + l + r;
  }

  /** What a root is, in bytes: the hash of nothing; of a zero byte and the event id; or of a one
      byte and the roots of the two parts, left before right, split at the power of two that is
      below the size and at least half of it. */
  lemma RootInBytes(sha: Sha, ids: seq<EventId>)
    ensures |ids| == 0 ==> MerkleRoot(sha, ids) == sha([])
    ensures |ids| == 1 ==> MerkleRoot(sha, ids) == sha([0] + ids[0])
    ensures |ids| > 1 ==> exists e: nat :: Pow2(e) < |ids| <= 2 * Pow2(e)
    ensures forall e: nat :: Pow2(e) < |ids| <= 2 * Pow2(e) ==>
              MerkleRoot(sha, ids) == sha([1] + MerkleRoot(sha, ids[..Pow2(e)]) + MerkleRoot(sha, ids[Pow2(e)..]))
  {
    hide SplitPoint;
    if |ids| > 1 {
      hide MerkleRoot;
      SplitIsLargestPowerBelow(|ids|);
      forall e: nat | Pow2(e) < |ids| <= 2 * Pow2(e)
        ensures MerkleRoot(sha, ids) == sha([1] + MerkleRoot(sha, ids[..Pow2(e)]) + MerkleRoot(sha, ids[Pow2(e)..]))
      {
        SplitUnique(|ids|, e);
        RootOfHalves(sha, ids, Pow2(e));
      }
    }
  }

  /** The smallest log with a node, and the smallest whose halves differ. */
  lemma SmallRoots(sha: Sha, a: EventId, b: EventId, c: EventId)
    ensures MerkleRoot(sha, [a, b]) == sha([1] + sha([0] + a) + sha([0] + b))
    ensures MerkleRoot(sha, [a, b, c]) == sha([1] + sha([1] + sha([0] + a) + sha([0] + b)) + sha([0] + c))
  {
    hide MerkleRoot;
    assert Pow2(0) == 1 && Pow2(1) == 2;
    RootInBytes(sha, [a]);
    RootInBytes(sha, [b]);
    RootInBytes(sha, [c]);
    RootInBytes(sha, [a, b]);
    RootInBytes(sha, [a, b, c]);
    assert [a, b][..1] == [a] && [a, b][1..] == [b];
    assert [a, b, c][..2] == [a, b] && [a, b, c][2..] == [c];
  }

  // ----- Collisions among preimages -----

  /** Two distinct members of `s` that hash alike. */
  ghost predicate Collides(sha: Sha, s: set<Bytes>) {
    exists x, y :: x in s && y in s && x != y && sha(x) == sha(y)
  }

  ghost function NodePreimages(pairs: set<(Hash, Hash)>): set<Bytes> {
    set p | p in pairs :: NodePreimage(p.0, p.1)
  }

  ghost function LeafPreimages(ids: seq<EventId>): set<Bytes> {
    set id | id in ids :: LeafPreimage(id)
  }

  lemma NodePreimageInjective(a: Hash, b: Hash, c: Hash, d: Hash)
    requires NodePreimage(a, b) == NodePreimage(c, d)
    ensures a == c && b == d
  {
    var x, y := NodePreimage(a, b), NodePreimage(c, d);
    assert a == x[1..33] && b == x[33..];
    assert c == y[1..33] && d == y[33..];
  }

  /** Pairs whose byte preimages do not collide do not collide as pairs. */
  lemma PairsFromBytes(sha: Sha, pairs: set<(Hash, Hash)>)
    requires !Collides(sha, NodePreimages(pairs))
    ensures NoCollision(Rfc6962(sha), pairs)
  {
    var h := Rfc6962(sha);
    forall x, y | x in pairs && y in pairs && h.node(x.0, x.1) == h.node(y.0, y.1)
      ensures x == y
    {
      assert NodePreimage(x.0, x.1) in NodePreimages(pairs);
      assert NodePreimage(y.0, y.1) in NodePreimages(pairs);
      NodePreimageInjective(x.0, x.1, y.0, y.1);
    }
  }

  lemma CollidesMonotone(sha: Sha, s: set<Bytes>, t: set<Bytes>)
    requires s <= t && !Collides(sha, t)
    ensures !Collides(sha, s)
  {
  }

  lemma LeafInjective(sha: Sha, s: set<Bytes>, a: EventId, b: EventId)
    requires !Collides(sha, s) && LeafPreimage(a) in s && LeafPreimage(b) in s
    requires LeafHash(sha, a) == LeafHash(sha, b)
    ensures a == b
  {
    assert a == LeafPreimage(a)[1..] && b == LeafPreimage(b)[1..];
  }

  // ----- What the proofs say about events -----

  ghost function InclusionPreimages(
    sha: Sha, ids: seq<EventId>, proof: InclusionProof<Hash>, event: EventId): set<Bytes>
    requires proof.leafIndex < proof.treeSize
  {
    var h, leaves := Rfc6962(sha), Leaves(sha, ids);
    LeafPreimages(ids + [event])
    + NodePreimages(TreePairs(h, leaves)
                    + ClimbPairs(h, proof.leafIndex, proof.treeSize - 1, LeafHash(sha, event), proof.path))
  }

  /** A proof accepted for an event against the root of a log of the proof's size shows that the
      log holds that event at that index, and is the proof the log's prover would give, unless
      two preimages hashed by the log or by the verifier collide. */
  lemma InclusionNamesTheEvent(sha: Sha, ids: seq<EventId>, proof: InclusionProof<Hash>, event: EventId)
    requires proof.treeSize == |ids|
    requires InclusionAccepts(Rfc6962(sha), proof, LeafHash(sha, event), MerkleRoot(sha, ids))
    ensures (ids[proof.leafIndex] == event
             && Ok(proof) == ProveInclusion(Rfc6962(sha), Leaves(sha, ids), proof.leafIndex))
         || Collides(sha, InclusionPreimages(sha, ids, proof, event))
  {
    hide ClimbPairs, TreePairs, Climb;
    var h, leaves, leaf := Rfc6962(sha), Leaves(sha, ids), LeafHash(sha, event);
    var s := InclusionPreimages(sha, ids, proof, event);
    if !Collides(sha, s) {
      var pairs := TreePairs(h, leaves) + ClimbPairs(h, proof.leafIndex, proof.treeSize - 1, leaf, proof.path);
      CollidesMonotone(sha, NodePreimages(pairs), s);
      PairsFromBytes(sha, pairs);
      TreeProofs.InclusionSound(h, leaves, proof, leaf);
      assert event in ids + [event] && ids[proof.leafIndex] in ids + [event];
      LeafInjective(sha, s, ids[proof.leafIndex], event);
    }
  }

  ghost function ConsistencyPreimages(sha: Sha, a: seq<EventId>, b: seq<EventId>, path: seq<Hash>): set<Bytes>
    requires 0 < |a| <= |b|
  {
    LeafPreimages(a + b)
    + NodePreimages(TreeProofs.ConsistencyPairs(Rfc6962(sha), Leaves(sha, a), Leaves(sha, b), path))
  }

  /** Non-removal: a path accepted between the roots of two logs shows that the later log starts
      with every event of the earlier one in place, unless two preimages hashed by the logs or by
      the verifier collide. */
  lemma ConsistencyMeansPrefix(sha: Sha, a: seq<EventId>, b: seq<EventId>, path: seq<Hash>)
    requires ConsistencyAccepts(Rfc6962(sha), ConsistencyProof(|a|, |b|, path), MerkleRoot(sha, a), MerkleRoot(sha, b))
    ensures a <= b || Collides(sha, ConsistencyPreimages(sha, a, b, path))
  {
    hide TreeProofs.ConsistencyPairs, WalkAccepts, SeededPath;
    var h, la, lb, s := Rfc6962(sha), Leaves(sha, a), Leaves(sha, b), ConsistencyPreimages(sha, a, b, path);
    if !Collides(sha, s) {
      var pairs := TreeProofs.ConsistencyPairs(h, la, lb, path);
      CollidesMonotone(sha, NodePreimages(pairs), s);
      PairsFromBytes(sha, pairs);
      TreeProofs.ConsistencySound(h, la, lb, path);
      forall i | 0 <= i < |a|
        ensures a[i] == b[i]
      {
        assert la[i] == lb[i];
        assert a[i] in a + b && b[i] in a + b;
        LeafInjective(sha, s, a[i], b[i]);
      }
    }
  }

  /** Everything hashed while computing the root of a log. */
  ghost function LogPreimages(sha: Sha, ids: seq<EventId>): set<Bytes>
    decreases |ids|
  {
    if |ids| == 0 then {[]}
    else if |ids| == 1 then {LeafPreimage(ids[0])}
    else
      var k := SplitPoint(|ids|);
      {NodePreimage(AuditMerkle(sha, ids[..k]), AuditMerkle(sha, ids[k..]))}
      + LogPreimages(sha, ids[..k]) + LogPreimages(sha, ids[k..])
  }

  lemma SameDigest(sha: Sha, s: set<Bytes>, x: Bytes, y: Bytes)
    requires !Collides(sha, s) && x in s && y in s && sha(x) == sha(y)
    ensures x == y
  {
  }

  /** What a log of two or more events hashes, one level down. */
  lemma TopOfLog(sha: Sha, ids: seq<EventId>, k: nat)
    requires |ids| > 1 && k == SplitPoint(|ids|)
    ensures 0 < k < |ids|
    ensures var top := NodePreimage(AuditMerkle(sha, ids[..k]), AuditMerkle(sha, ids[k..]));
            AuditMerkle(sha, ids) == sha(top) && top in LogPreimages(sha, ids)
    ensures LogPreimages(sha, ids[..k]) <= LogPreimages(sha, ids)
    ensures LogPreimages(sha, ids[k..]) <= LogPreimages(sha, ids)
  {
    hide SplitPoint;
  }

  ghost function TopPreimage(sha: Sha, ids: seq<EventId>): (p: Bytes)
    ensures p in LogPreimages(sha, ids) && sha(p) == AuditMerkle(sha, ids)
    ensures if |ids| == 0 then p == [] else |p| > 0 && p[0] == if |ids| == 1 then LEAF_PREFIX else NODE_PREFIX
  {
    if |ids| == 0 then []
    else if |ids| == 1 then LeafPreimage(ids[0])
    else var k := SplitPoint(|ids|); NodePreimage(AuditMerkle(sha, ids[..k]), AuditMerkle(sha, ids[k..]))
  }

  /** Empty, single-leaf and larger logs hash preimages that start differently. */
  lemma DifferentShapes(sha: Sha, s: set<Bytes>, a: seq<EventId>, b: seq<EventId>)
    requires AuditMerkle(sha, a) == AuditMerkle(sha, b)
    requires |a| < 2 || |b| < 2
    requires |a| != |b|
    requires LogPreimages(sha, a) <= s && LogPreimages(sha, b) <= s
    ensures Collides(sha, s)
  {
    var x, y := TopPreimage(sha, a), TopPreimage(sha, b);
    assert x in s && y in s && sha(x) == sha(y);
    assert x != y;
  }

  lemma {:induction false} SameRootSameLog(sha: Sha, s: set<Bytes>, a: seq<EventId>, b: seq<EventId>)
    requires AuditMerkle(sha, a) == AuditMerkle(sha, b)
    requires !Collides(sha, s) && LogPreimages(sha, a) <= s && LogPreimages(sha, b) <= s
    ensures a == b
    decreases |a|
  {
    hide SplitPoint;
    if |a| > 1 && |b| > 1 {
      hide AuditMerkle, LogPreimages, Collides, NodePreimage;
      var j, k := SplitPoint(|a|), SplitPoint(|b|);
      TopOfLog(sha, a, j);
      TopOfLog(sha, b, k);
      SameDigest(sha, s, NodePreimage(AuditMerkle(sha, a[..j]), AuditMerkle(sha, a[j..])),
                 NodePreimage(AuditMerkle(sha, b[..k]), AuditMerkle(sha, b[k..])));
      NodePreimageInjective(AuditMerkle(sha, a[..j]), AuditMerkle(sha, a[j..]),
                            AuditMerkle(sha, b[..k]), AuditMerkle(sha, b[k..]));
      SameRootSameLog(sha, s, a[..j], b[..k]);
      SameRootSameLog(sha, s, a[j..], b[k..]);
      assert a == a[..j] + a[j..] && b == b[..k] + b[k..];
    } else if |a| == 1 && |b| == 1 {
      LeafInjective(sha, s, a[0], b[0]);
    } else if |a| != 0 || |b| != 0 {
      DifferentShapes(sha, s, a, b);
    }
  }

  /** Root identity: a root names one log, whatever the two lengths, unless two preimages hashed
      for the two roots collide. */
  lemma RootIdentity(sha: Sha, a: seq<EventId>, b: seq<EventId>)
    requires MerkleRoot(sha, a) == MerkleRoot(sha, b)
    ensures a == b || Collides(sha, LogPreimages(sha, a) + LogPreimages(sha, b))
  {
    AuditMerkleAgrees(sha, a);
    AuditMerkleAgrees(sha, b);
    if !Collides(sha, LogPreimages(sha, a) + LogPreimages(sha, b)) {
      SameRootSameLog(sha, LogPreimages(sha, a) + LogPreimages(sha, b), a, b);
    }
  }

  // ----- Path blobs -----

  function Flatten(path: seq<Hash>): (bytes: Bytes)
    ensures |bytes| == 32 * |path|
  {
    if path == [] then [] else path[0] + Flatten(path[1..])
  }

  /** The loop that writes a path blob. */
  method WritePath(path: seq<Hash>) returns (out: Bytes)
    ensures out == Flatten(path)
  {
    out := [];
    assert path[0..] == path;
    for i := 0 to |path|
      invariant out + Flatten(path[i..]) == Flatten(path)
    {
      assert path[i..][1..] == path[i + 1..];
      out := out + path[i];
    }
  }

  function Chunks(bytes: Bytes): seq<Hash>
    requires |bytes| % 32 == 0
  {
    if bytes == [] then [] else [bytes[..32]] + Chunks(bytes[32..])
  }

  function Unflatten(bytes: Bytes): Result<seq<Hash>, ProofError> {
    if |bytes| % 32 != 0 then Err(MalformedPath(|bytes|)) else Ok(Chunks(bytes))
  }

  /** Hash `i` of a path stands at byte `32 * i` of its blob. */
  lemma {:induction false} FlattenAt(path: seq<Hash>, i: nat)
    requires i < |path|
    ensures Flatten(path)[32 * i..32 * i + 32] == path[i]
  {
    if i > 0 {
      FlattenAt(path[1..], i - 1);
      var rest := Flatten(path[1..]);
      assert Flatten(path)[32 * i..32 * i + 32] == rest[32 * (i - 1)..32 * (i - 1) + 32];
    }
  }

  /** A stored path reads back as it was written. */
  lemma {:induction false} UnflattenInverts(path: seq<Hash>)
    ensures Unflatten(Flatten(path)) == Ok(path)
  {
    if path != [] {
      var b := Flatten(path);
      assert b[..32] == path[0] && b[32..] == Flatten(path[1..]);
      UnflattenInverts(path[1..]);
      assert path == [path[0]] + path[1..];
    }
  }

  /** And only whole hashes read back: the blob is determined by the path. */
  lemma {:induction false} FlattenInverts(bytes: Bytes)
    ensures Unflatten(bytes).Ok? <==> |bytes| % 32 == 0
    ensures Unflatten(bytes).Ok? ==> Flatten(Unflatten(bytes).value) == bytes
    decreases |bytes|
  {
    if |bytes| % 32 == 0 && bytes != [] {
      FlattenInverts(bytes[32..]);
      var c := Chunks(bytes);
      assert c[0] == bytes[..32] && c[1..] == Chunks(bytes[32..]);
      assert bytes == bytes[..32] + bytes[32..];
    }
  }
}

/**
 The accumulator of crates/cc-anchor/src/merkle.rs: the tree hash, the audit paths and the
 consistency proofs of section 2.1 of RFC 6962, with the recursive provers and both verifiers.

 Nothing here looks inside a hash, so the module is generic in the type `T` of hashes and takes
 the node function as a parameter. Module Merkle instantiates it with prefixed SHA-256.
 */
module Tree {
  import opened Bytes

  /** The hash of the empty tree and the hash of an interior node. */
  datatype Hasher<!T> = Hasher(empty: T, node: (T, T) -> T)

  datatype ProofError =
    | IndexOutOfRange(index: nat, treeSize: nat)
    | OldSizeExceedsTree(oldSize: nat, size: nat)
    | EmptyOldTree
    | MalformedPath(length: nat)

  datatype InclusionProof<+T> = InclusionProof(leafIndex: nat, treeSize: nat, path: seq<T>)
  datatype ConsistencyProof<+T> = ConsistencyProof(oldSize: nat, newSize: nat, path: seq<T>)

  // ----- Powers of two and the split -----

  function Pow2(e: nat): (r: nat)
    ensures r > 0
  {
    if e == 0 then 1 else 2 * Pow2(e - 1)
  }

  /** Bits needed to write `x`; 64 minus this is `leading_zeros` of a 64-bit word. */
  function BitLength(x: nat): (b: nat)
    ensures b == 0 <==> x == 0
  {
    if x == 0 then 0 else 1 + BitLength(x / 2)
  }

  predicate IsPowerOfTwo(m: nat) {
    m == 1 || (m > 0 && m % 2 == 0 && IsPowerOfTwo(m / 2))
  }

  lemma {:induction false} PowersAreRecognised(e: nat)
    ensures IsPowerOfTwo(Pow2(e))
  {
    if e > 0 {
      PowersAreRecognised(e - 1);
      assert Pow2(e) / 2 == Pow2(e - 1);
    }
  }

  lemma {:induction false} RecognisedIsPower(m: nat) returns (e: nat)
    requires IsPowerOfTwo(m)
    ensures m == Pow2(e)
  {
    if m == 1 {
      e := 0;
    } else {
      var d := RecognisedIsPower(m / 2);
      e := d + 1;
    }
  }

  /** The test that decides how the consistency walk is seeded accepts exactly the powers of two. */
  lemma PowerOfTwoIff(m: nat)
    ensures IsPowerOfTwo(m) <==> exists e: nat :: m == Pow2(e)
  {
    if IsPowerOfTwo(m) {
      var e := RecognisedIsPower(m);
    }
    forall e: nat | m == Pow2(e)
      ensures IsPowerOfTwo(m)
    {
      PowersAreRecognised(e);
    }
  }

  lemma {:induction false} BitLengthBounds(x: nat)
    requires x > 0
    ensures Pow2(BitLength(x) - 1) <= x < Pow2(BitLength(x))
  {
    if x > 1 {
      BitLengthBounds(x / 2);
    } else {
      assert BitLength(1) == 1 + BitLength(0);
    }
  }

  function SplitPoint(n: nat): (k: nat)
    requires n > 1
    ensures 0 < k < n <= 2 * k
  {
    BitLengthBounds(n - 1);
    Pow2(BitLength(n - 1) - 1)
  }

  lemma {:induction false} Pow2Monotone(d: nat, e: nat)
    requires d <= e
    ensures Pow2(d) <= Pow2(e)
  {
    if d < e {
      Pow2Monotone(d, e - 1);
    }
  }

  /** The split is the largest power of two strictly below `n`. */
  lemma SplitIsLargestPowerBelow(n: nat)
    requires n > 1
    ensures exists e: nat :: SplitPoint(n) == Pow2(e) < n
    ensures forall e: nat :: Pow2(e) < n ==> Pow2(e) <= SplitPoint(n)
  {
    BitLengthBounds(n - 1);
    var b := BitLength(n - 1);
    forall e: nat | Pow2(e) < n
      ensures Pow2(e) <= SplitPoint(n)
    {
      if e >= b {
        Pow2Monotone(b, e);
      } else {
        Pow2Monotone(e, b - 1);
      }
    }
  }

  // ----- The tree hash -----

  function Mth<T>(h: Hasher<T>, leaves: seq<T>): T
    decreases |leaves|
  {
    if |leaves| == 0 then h.empty
    else if |leaves| == 1 then leaves[0]
    else
      var k := SplitPoint(|leaves|);
      h.node(Mth(h, leaves[..k]), Mth(h, leaves[k..]))
  }

  /** Every pair of children hashed while computing `Mth`. */
  ghost function TreePairs<T>(h: Hasher<T>, leaves: seq<T>): set<(T, T)>
    decreases |leaves|
  {
    if |leaves| < 2 then {}
    else
      var k := SplitPoint(|leaves|);
      {(Mth(h, leaves[..k]), Mth(h, leaves[k..]))} + TreePairs(h, leaves[..k]) + TreePairs(h, leaves[k..])
  }

  /** No two pairs of `s` hash to the same node. */
  ghost predicate NoCollision<T>(h: Hasher<T>, s: set<(T, T)>) {
    forall x, y :: x in s && y in s && h.node(x.0, x.1) == h.node(y.0, y.1) ==> x == y
  }

  // ----- The recursive provers -----

  function AuditPath<T>(h: Hasher<T>, leaves: seq<T>, m: nat): seq<T>
    requires m < |leaves|
    decreases |leaves|
  {
    if |leaves| <= 1 then []
    else
      var k := SplitPoint(|leaves|);
      if m < k then AuditPath(h, leaves[..k], m) + [Mth(h, leaves[k..])]
      else AuditPath(h, leaves[k..], m - k) + [Mth(h, leaves[..k])]
  }

  function ProveInclusion<T>(h: Hasher<T>, leaves: seq<T>, index: nat): Result<InclusionProof<T>, ProofError> {
    if index >= |leaves| then Err(IndexOutOfRange(index, |leaves|))
    else Ok(InclusionProof(index, |leaves|, AuditPath(h, leaves, index)))
  }

  function Subproof<T>(h: Hasher<T>, leaves: seq<T>, m: nat, whole: bool): seq<T>
    requires 0 < m <= |leaves|
    decreases |leaves|
  {
    if m == |leaves| then (if whole then [] else [Mth(h, leaves)])
    else
      var k := SplitPoint(|leaves|);
      if m <= k then Subproof(h, leaves[..k], m, whole) + [Mth(h, leaves[k..])]
      else Subproof(h, leaves[k..], m - k, false) + [Mth(h, leaves[..k])]
  }

  function ProveConsistency<T>(h: Hasher<T>, leaves: seq<T>, oldSize: nat): Result<ConsistencyProof<T>, ProofError> {
    if oldSize == 0 then Err(EmptyOldTree)
    else if oldSize > |leaves| then Err(OldSizeExceedsTree(oldSize, |leaves|))
    else Ok(ConsistencyProof(oldSize, |leaves|, Subproof(h, leaves, oldSize, true)))
  }

  // ----- The verifiers, one tree level at a time -----
  // `first` is the index, on its level, of the node the walk stands on, and `last` that of the
  // rightmost node. The loops of the source are proved equal to these in module Verifiers.

  /** How many siblings a node has on its own level: an even rightmost node has none. */
  function Siblings(first: nat, last: nat): nat {
    if first == last && first % 2 == 0 then 0 else 1
  }

  /** The parent of `r` and its sibling, or `r` itself when it is carried up. */
  function Lift<T>(h: Hasher<T>, first: nat, r: T, sibling: seq<T>): T {
    if sibling == [] then r
    else if first % 2 == 1 then h.node(sibling[0], r)
    else h.node(r, sibling[0])
  }

  /** As `Lift` in the old tree, which has nothing to the right of its last node. */
  function LiftOld<T>(h: Hasher<T>, first: nat, r: T, sibling: seq<T>): T {
    if sibling != [] && first % 2 == 1 then h.node(sibling[0], r) else r
  }

  /** The root the inclusion walk reaches, or None if the path has the wrong length. */
  function Climb<T>(h: Hasher<T>, first: nat, last: nat, r: T, path: seq<T>): Option<T>
    decreases last
  {
    var k := Siblings(first, last);
    if last == 0 then (if |path| == 0 then Some(r) else None)
    else if |path| < k then None
    else Climb(h, first / 2, last / 2, Lift(h, first, r, path[..k]), path[k..])
  }

  /** The same walk over the old tree of a consistency proof. */
  function ClimbOld<T>(h: Hasher<T>, first: nat, last: nat, r: T, path: seq<T>): Option<T>
    decreases last
  {
    var k := Siblings(first, last);
    if last == 0 then (if |path| == 0 then Some(r) else None)
    else if |path| < k then None
    else ClimbOld(h, first / 2, last / 2, LiftOld(h, first, r, path[..k]), path[k..])
  }

  /** Every pair of children hashed by `Climb`. */
  ghost function ClimbPairs<T>(h: Hasher<T>, first: nat, last: nat, r: T, path: seq<T>): set<(T, T)>
    decreases last
  {
    var k := Siblings(first, last);
    if last == 0 || |path| < k then {}
    else
      (if k == 0 then {} else if first % 2 == 1 then {(path[0], r)} else {(r, path[0])})
      + ClimbPairs(h, first / 2, last / 2, Lift(h, first, r, path[..k]), path[k..])
  }

  /** Every pair of children hashed by `ClimbOld`. */
  ghost function ClimbOldPairs<T>(h: Hasher<T>, first: nat, last: nat, r: T, path: seq<T>): set<(T, T)>
    decreases last
  {
    var k := Siblings(first, last);
    if last == 0 || |path| < k then {}
    else
      (if k == 1 && first % 2 == 1 then {(path[0], r)} else {})
      + ClimbOldPairs(h, first / 2, last / 2, LiftOld(h, first, r, path[..k]), path[k..])
  }

  /** Leave the levels on which the last old node is a right child. */
  function Strip(first: nat, last: nat): (nat, nat) {
    if first % 2 == 1 then Strip(first / 2, last / 2) else (first, last)
  }

  predicate InclusionAccepts<T(==)>(h: Hasher<T>, proof: InclusionProof<T>, leaf: T, root: T) {
    proof.leafIndex < proof.treeSize
    && Climb(h, proof.leafIndex, proof.treeSize - 1, leaf, proof.path) == Some(root)
  }

  /** The path with the old root put back in front when the prover left it out. */
  function SeededPath<T>(m: nat, path: seq<T>, oldRoot: T): seq<T> {
    if IsPowerOfTwo(m) then [oldRoot] + path else path
  }

  predicate WalkAccepts<T(==)>(h: Hasher<T>, m: nat, n: nat, nodes: seq<T>, oldRoot: T, newRoot: T)
    requires 0 < m < n
  {
    var (f, s) := Strip(m - 1, n - 1);
    |nodes| > 0
    && ClimbOld(h, f, s, nodes[0], nodes[1..]) == Some(oldRoot)
    && Climb(h, f, s, nodes[0], nodes[1..]) == Some(newRoot)
  }

  predicate ConsistencyAccepts<T(==)>(h: Hasher<T>, proof: ConsistencyProof<T>, oldRoot: T, newRoot: T) {
    var m, n := proof.oldSize, proof.newSize;
    if m > n || m == 0 then false
    else if m == n then proof.path == [] && oldRoot == newRoot
    else WalkAccepts(h, m, n, SeededPath(m, proof.path, oldRoot), oldRoot, newRoot)
  }
}

/** Soundness and completeness of the two proofs, for trees of every size. */
module TreeProofs {
  import opened Bytes
  import opened Tree
  import opened TreeLevels

  // ----- Inclusion -----

  /** Walking node `f`'s own audit path from any value gives the root with that value put in. */
  lemma {:induction false} ClimbRebuildsRoot<T>(h: Hasher<T>, level: seq<T>, f: nat, r: T)
    requires f < |level|
    ensures Climb(h, f, |level| - 1, r, AuditPath(h, level, f)) == Some(Mth(h, level[f := r]))
    decreases |level|
  {
    hide Up, SplitPoint;
    if |level| > 1 {
      hide Mth, AuditPath;
      var u, sib := Up(h, level), Sibling(level, f);
      UpShortensPath(h, level, f);
      UpUpdate(h, level, f, r);
      UpKeepsRoot(h, level[f := r]);
      ClimbRebuildsRoot(h, u, f / 2, Lift(h, f, r, sib));
    }
  }

  /** Inclusion completeness: the recursive prover satisfies the verifier for every tree. */
  lemma InclusionComplete<T>(h: Hasher<T>, leaves: seq<T>, index: nat)
    ensures ProveInclusion(h, leaves, index).Ok? <==> index < |leaves|
    ensures index < |leaves| ==>
              InclusionAccepts(h, ProveInclusion(h, leaves, index).value, leaves[index], Mth(h, leaves))
  {
    hide Mth, AuditPath, Climb;
    if index < |leaves| {
      ClimbRebuildsRoot(h, leaves, index, leaves[index]);
      assert leaves[index := leaves[index]] == leaves;
    }
  }

  /** A lifted value that is right on the level above was right, with its sibling, below. */
  lemma LiftSound<T>(h: Hasher<T>, s: set<(T, T)>, level: seq<T>, f: nat, r: T, sib: seq<T>)
    requires f < |level| && |sib| == Siblings(f, |level| - 1)
    requires Lift(h, f, r, sib) == Up(h, level)[f / 2]
    requires NoCollision(h, s) && TreePairs(h, level) <= s
    requires sib == [] || (if f % 2 == 1 then (sib[0], r) else (r, sib[0])) in s
    ensures r == level[f] && sib == Sibling(level, f)
  {
    hide TreePairs;
    if sib != [] {
      LevelPair(h, level, f / 2);
    }
  }

  /** A walk that succeeds had a path long enough for its first level. */
  lemma ClimbStep<T>(h: Hasher<T>, f: nat, last: nat, r: T, path: seq<T>)
    requires last > 0 && Climb(h, f, last, r, path).Some?
    ensures var k := Siblings(f, last);
            k <= 1 && k <= |path|
            && Climb(h, f, last, r, path) == Climb(h, f / 2, last / 2, Lift(h, f, r, path[..k]), path[k..])
            && ClimbPairs(h, f / 2, last / 2, Lift(h, f, r, path[..k]), path[k..]) <= ClimbPairs(h, f, last, r, path)
            && (k == 1 ==> (if f % 2 == 1 then (path[0], r) else (r, path[0])) in ClimbPairs(h, f, last, r, path))
  {
  }

  lemma ClimbSoundLeaf<T>(h: Hasher<T>, level: seq<T>, r: T, path: seq<T>)
    requires |level| == 1 && Climb(h, 0, 0, r, path) == Some(Mth(h, level))
    ensures r == level[0] && path == AuditPath(h, level, 0)
  {
  }

  /** If the walk is right from the level above on, it was right on this one. */
  lemma ClimbSoundLevel<T>(h: Hasher<T>, s: set<(T, T)>, level: seq<T>, f: nat, r: T, path: seq<T>, k: nat)
    requires 1 < |level| && f < |level| && k == Siblings(f, |level| - 1) <= |path|
    requires k == 1 ==> (if f % 2 == 1 then (path[0], r) else (r, path[0])) in s
    requires NoCollision(h, s) && TreePairs(h, level) <= s
    requires Lift(h, f, r, path[..k]) == Up(h, level)[f / 2] && path[k..] == AuditPath(h, Up(h, level), f / 2)
    ensures r == level[f] && path == AuditPath(h, level, f)
  {
    hide Up, SplitPoint, AuditPath, TreePairs, NoCollision, Lift;
    UpShortensPath(h, level, f);
    LiftSound(h, s, level, f, r, path[..k]);
    assert path == path[..k] + path[k..];
  }

  lemma {:induction false} ClimbSound<T>(h: Hasher<T>, s: set<(T, T)>, level: seq<T>, f: nat, r: T, path: seq<T>)
    requires f < |level|
    requires Climb(h, f, |level| - 1, r, path) == Some(Mth(h, level))
    requires NoCollision(h, s)
    requires TreePairs(h, level) <= s && ClimbPairs(h, f, |level| - 1, r, path) <= s
    ensures r == level[f] && path == AuditPath(h, level, f)
    decreases |level|
  {
    hide Up, Mth, AuditPath, TreePairs, NoCollision, Climb, ClimbPairs, Siblings, Lift;
    if |level| == 1 {
      ClimbSoundLeaf(h, level, r, path);
    } else {
      var u, k := Up(h, level), Siblings(f, |level| - 1);
      ClimbStep(h, f, |level| - 1, r, path);
      UpKeepsRoot(h, level);
      UpPairs(h, level);
      assert |u| - 1 == (|level| - 1) / 2;
      ClimbSound(h, s, u, f / 2, Lift(h, f, r, path[..k]), path[k..]);
      ClimbSoundLevel(h, s, level, f, r, path, k);
    }
  }

  /** Inclusion soundness: against the root of `leaves`, a proof naming that tree's size is
      accepted only for the leaf at its index and only with the path the prover builds, unless
      two pairs hashed by the tree and by the verifier collide. */
  lemma InclusionSound<T>(h: Hasher<T>, leaves: seq<T>, proof: InclusionProof<T>, leaf: T)
    requires proof.treeSize == |leaves|
    requires InclusionAccepts(h, proof, leaf, Mth(h, leaves))
    requires NoCollision(h, TreePairs(h, leaves)
                            + ClimbPairs(h, proof.leafIndex, proof.treeSize - 1, leaf, proof.path))
    ensures leaf == leaves[proof.leafIndex]
    ensures Ok(proof) == ProveInclusion(h, leaves, proof.leafIndex)
  {
    var s := TreePairs(h, leaves) + ClimbPairs(h, proof.leafIndex, proof.treeSize - 1, leaf, proof.path);
    ClimbSound(h, s, leaves, proof.leafIndex, leaf, proof.path);
  }

  /** How many siblings the path of `i` in a tree of `last + 1` leaves carries. */
  ghost function PathLength(i: nat, last: nat): nat
    decreases last
  {
    if last == 0 then 0 else Siblings(i, last) + PathLength(i / 2, last / 2)
  }

  /** Path length depends on index and size alone and is at most the ceiling of log2 of the size. */
  lemma {:induction false} AuditPathLength<T>(h: Hasher<T>, leaves: seq<T>, i: nat)
    requires i < |leaves|
    ensures |AuditPath(h, leaves, i)| == PathLength(i, |leaves| - 1) <= BitLength(|leaves| - 1)
    decreases |leaves|
  {
    hide Up, SplitPoint;
    if |leaves| > 1 {
      hide AuditPath;
      UpShortensPath(h, leaves, i);
      AuditPathLength(h, Up(h, leaves), i / 2);
      assert |Up(h, leaves)| - 1 == (|leaves| - 1) / 2;
    }
  }

  // ----- Consistency -----

  /** Folding only left siblings of node `f` gives the root of the first `f + 1` nodes. */
  lemma {:induction false} ClimbOldRebuildsPrefix<T>(h: Hasher<T>, level: seq<T>, f: nat, r: T)
    requires f < |level|
    ensures ClimbOld(h, f, |level| - 1, r, AuditPath(h, level, f)) == Some(Mth(h, level[..f] + [r]))
    decreases |level|
  {
    hide Up, SplitPoint;
    if |level| > 1 {
      hide Mth, AuditPath;
      UpShortensPath(h, level, f);
      UpPrefix(h, level, f, r);
      UpKeepsRoot(h, level[..f] + [r]);
      ClimbOldRebuildsPrefix(h, Up(h, level), f / 2, LiftOld(h, f, r, Sibling(level, f)));
    }
  }

  /** The last old node and its path on the level where that node stops being a right child:
      what the verifier seeds its walk with and what it then walks. */
  ghost function WholePath<T>(h: Hasher<T>, level: seq<T>, m: nat): (nodes: seq<T>)
    requires 0 < m <= |level|
    ensures |nodes| > 0
    decreases m
  {
    if m % 2 == 0 then WholePath(h, Up(h, level), m / 2)
    else [level[m - 1]] + AuditPath(h, level, m - 1)
  }

  /** The prover sends exactly that, minus the old root when the old tree is perfect. */
  lemma {:induction false} SubproofIsWholePath<T>(h: Hasher<T>, level: seq<T>, m: nat)
    requires 0 < m < |level|
    ensures SeededPath(m, Subproof(h, level, m, true), Mth(h, level[..m])) == WholePath(h, level, m)
    decreases m
  {
    hide Up, SplitPoint;
    if m % 2 == 0 {
      hide Subproof, Mth;
      UpKeepsEvenProof(h, level, m, true);
      UpSplit(h, level, m);
      UpKeepsRoot(h, level[..m]);
      SubproofIsWholePath(h, Up(h, level), m / 2);
    } else {
      hide Subproof, AuditPath;
      OddProofIsAuditPath(h, level, m, true);
    }
  }

  /** A step of `Strip` is a step up both trees. */
  lemma StripEven(m: nat, n: nat)
    requires 0 < m < n && m % 2 == 0
    ensures Strip(m - 1, n - 1) == Strip(m / 2 - 1, (n + 1) / 2 - 1)
    ensures 0 < m / 2 < (n + 1) / 2
  {
    assert (m - 1) / 2 == m / 2 - 1 && (n - 1) / 2 == (n + 1) / 2 - 1;
  }

  lemma {:induction false} WholePathAccepted<T>(h: Hasher<T>, level: seq<T>, m: nat)
    requires 0 < m < |level|
    ensures WalkAccepts(h, m, |level|, WholePath(h, level, m), Mth(h, level[..m]), Mth(h, level))
    decreases m
  {
    hide Up, Mth, AuditPath, Climb, ClimbOld;
    if m % 2 == 0 {
      hide Strip;
      UpSplit(h, level, m);
      UpKeepsRoot(h, level[..m]);
      UpKeepsRoot(h, level);
      StripEven(m, |level|);
      WholePathAccepted(h, Up(h, level), m / 2);
    } else {
      var x := level[m - 1];
      ClimbOldRebuildsPrefix(h, level, m - 1, x);
      ClimbRebuildsRoot(h, level, m - 1, x);
      assert level[..m - 1] + [x] == level[..m];
      assert level[m - 1 := x] == level;
    }
  }

  /** Consistency completeness: for every list and every old size it has a prefix for, the proof
      built by the recursive prover is accepted for the two roots. */
  lemma ConsistencyComplete<T>(h: Hasher<T>, leaves: seq<T>, m: nat)
    ensures ProveConsistency(h, leaves, m).Ok? <==> 1 <= m <= |leaves|
    ensures 1 <= m <= |leaves| ==>
              ConsistencyAccepts(h, ProveConsistency(h, leaves, m).value, Mth(h, leaves[..m]), Mth(h, leaves))
  {
    if 1 <= m < |leaves| {
      hide Mth, Subproof, WalkAccepts, SeededPath;
      SubproofIsWholePath(h, leaves, m);
      WholePathAccepted(h, leaves, m);
    } else if m == |leaves| {
      assert leaves[..m] == leaves;
    }
  }

  /** Trees of one size with one root have the same leaves. */
  lemma {:induction false} SameSizeSameRoot<T>(h: Hasher<T>, s: set<(T, T)>, a: seq<T>, b: seq<T>)
    requires |a| == |b| && Mth(h, a) == Mth(h, b)
    requires NoCollision(h, s) && TreePairs(h, a) <= s && TreePairs(h, b) <= s
    ensures a == b
    decreases |a|
  {
    hide SplitPoint;
    if |a| > 1 {
      var k := SplitPoint(|a|);
      assert (Mth(h, a[..k]), Mth(h, a[k..])) == (Mth(h, b[..k]), Mth(h, b[k..]));
      SameSizeSameRoot(h, s, a[..k], b[..k]);
      SameSizeSameRoot(h, s, a[k..], b[k..]);
      assert a == a[..k] + a[k..] && b == b[..k] + b[k..];
    }
  }

  /** Equal parents come from equal children. */
  lemma ParentInjective<T>(h: Hasher<T>, s: set<(T, T)>, a: seq<T>, b: seq<T>, j: nat)
    requires 2 * j + 1 < |a| && 2 * j + 1 < |b| && Up(h, a)[j] == Up(h, b)[j]
    requires NoCollision(h, s) && TreePairs(h, a) <= s && TreePairs(h, b) <= s
    ensures a[2 * j] == b[2 * j] && a[2 * j + 1] == b[2 * j + 1]
  {
    hide TreePairs;
    LevelPair(h, a, j);
    LevelPair(h, b, j);
  }

  lemma UpInjective<T>(h: Hasher<T>, s: set<(T, T)>, a: seq<T>, b: seq<T>)
    requires |a| <= |b| && |a| % 2 == 0
    requires Up(h, a) == Up(h, b)[..|a| / 2]
    requires NoCollision(h, s) && TreePairs(h, a) <= s && TreePairs(h, b) <= s
    ensures a == b[..|a|]
  {
    hide TreePairs, NoCollision, Up;
    forall i | 0 <= i < |a|
      ensures a[i] == b[i]
    {
      var j := i / 2;
      assert i == 2 * j || i == 2 * j + 1;
      assert Up(h, a)[j] == Up(h, b)[..|a| / 2][j] == Up(h, b)[j];
      ParentInjective(h, s, a, b, j);
    }
  }

  /** The last node of the old tree on one level. */
  lemma OldLastNode<T>(h: Hasher<T>, s: set<(T, T)>, a: seq<T>, level: seq<T>, f: nat, r: T)
    requires |a| == f + 1 <= |level| && Up(h, a)[f / 2] == LiftOld(h, f, r, Sibling(level, f))
    requires NoCollision(h, s) && TreePairs(h, a) <= s
    requires f % 2 == 1 ==> (level[f - 1], r) in s
    ensures a[f] == r && (f % 2 == 1 ==> a[f - 1] == level[f - 1])
  {
    hide TreePairs;
    if f % 2 == 1 {
      LevelPair(h, a, f / 2);
      assert Up(h, a)[f / 2] == h.node(a[f - 1], a[f]);
    }
  }

  /** One level of the old tree: if it is right above, it was right here. */
  lemma OldLevelSound<T>(h: Hasher<T>, s: set<(T, T)>, a: seq<T>, level: seq<T>, f: nat, r: T)
    requires |a| == f + 1 <= |level|
    requires Up(h, a) == Up(h, level)[..f / 2] + [LiftOld(h, f, r, Sibling(level, f))]
    requires NoCollision(h, s) && TreePairs(h, a) <= s && TreePairs(h, level) <= s
    requires f % 2 == 1 ==> (level[f - 1], r) in s
    ensures a == level[..f] + [r]
  {
    hide TreePairs, NoCollision, Up, LiftOld, Sibling;
    OldLastNode(h, s, a, level, f, r);
    forall i | 0 <= i < f
      ensures a[i] == level[i]
    {
      var j := i / 2;
      assert i == 2 * j || i == 2 * j + 1;
      if j < f / 2 {
        assert Up(h, a)[j] == Up(h, level)[j];
        ParentInjective(h, s, a, level, j);
      }
    }
  }

  lemma OldPairsStep<T>(h: Hasher<T>, level: seq<T>, f: nat, r: T)
    requires f < |level| && |level| > 1
    ensures var old_, up := ClimbOldPairs(h, f, |level| - 1, r, AuditPath(h, level, f)), Up(h, level);
            ClimbOldPairs(h, f / 2, |up| - 1, LiftOld(h, f, r, Sibling(level, f)), AuditPath(h, up, f / 2)) <= old_
            && (f % 2 == 1 ==> (level[f - 1], r) in old_)
  {
    hide AuditPath, SplitPoint;
    UpShortensPath(h, level, f);
    var k, path := Siblings(f, |level| - 1), AuditPath(h, level, f);
    assert path[..k] == Sibling(level, f) && path[k..] == AuditPath(h, Up(h, level), f / 2);
    assert |Up(h, level)| - 1 == (|level| - 1) / 2;
  }

  /** A list with the root that the old walk rebuilds is the prefix that walk stands for. */
  lemma {:induction false} OldSound<T>(h: Hasher<T>, s: set<(T, T)>, a: seq<T>, level: seq<T>, f: nat, r: T)
    requires |a| == f + 1 <= |level| && Mth(h, a) == Mth(h, level[..f] + [r])
    requires NoCollision(h, s) && TreePairs(h, a) <= s && TreePairs(h, level) <= s
    requires ClimbOldPairs(h, f, |level| - 1, r, AuditPath(h, level, f)) <= s
    ensures a == level[..f] + [r]
    decreases |level|
  {
    hide Up, SplitPoint, TreePairs, NoCollision, AuditPath, ClimbOldPairs;
    if |level| > 1 {
      hide Mth;
      UpKeepsRoot(h, a);
      UpKeepsRoot(h, level[..f] + [r]);
      UpPrefix(h, level, f, r);
      UpPairs(h, a);
      UpPairs(h, level);
      OldPairsStep(h, level, f, r);
      OldSound(h, s, Up(h, a), Up(h, level), f / 2, LiftOld(h, f, r, Sibling(level, f)));
      OldLevelSound(h, s, a, level, f, r);
    }
  }

  /** The pairs hashed by the walk of a consistency check, towards both roots. */
  ghost function WalkPairs<T>(h: Hasher<T>, m: nat, n: nat, nodes: seq<T>): set<(T, T)>
    requires 0 < m <= n
  {
    var (f, l) := Strip(m - 1, n - 1);
    if |nodes| == 0 then {}
    else ClimbPairs(h, f, l, nodes[0], nodes[1..]) + ClimbOldPairs(h, f, l, nodes[0], nodes[1..])
  }

  lemma {:induction false} WalkSound<T>(h: Hasher<T>, s: set<(T, T)>, a: seq<T>, b: seq<T>, nodes: seq<T>)
    requires 0 < |a| < |b| && WalkAccepts(h, |a|, |b|, nodes, Mth(h, a), Mth(h, b))
    requires WalkPairs(h, |a|, |b|, nodes) <= s && NoCollision(h, s)
    requires TreePairs(h, a) <= s && TreePairs(h, b) <= s
    ensures a == b[..|a|] && nodes == WholePath(h, b, |a|)
    decreases |a|
  {
    hide Up, Mth, TreePairs, NoCollision, Climb, ClimbOld, ClimbPairs, ClimbOldPairs, AuditPath;
    var m := |a|;
    if m % 2 == 0 {
      hide Strip;
      UpKeepsRoot(h, a);
      UpKeepsRoot(h, b);
      UpPairs(h, a);
      UpPairs(h, b);
      UpSplit(h, b, m);
      StripEven(m, |b|);
      WalkSound(h, s, Up(h, a), Up(h, b), nodes);
      UpInjective(h, s, a, b);
    } else {
      var x := nodes[0];
      ClimbSound(h, s, b, m - 1, x, nodes[1..]);
      ClimbOldRebuildsPrefix(h, b, m - 1, x);
      OldSound(h, s, a, b, m - 1, x);
      assert b[..m - 1] + [x] == b[..m];
      assert nodes == [x] + nodes[1..];
    }
  }

  /** The pairs hashed by both trees and by the walk between them, if there is one. */
  ghost function ConsistencyPairs<T>(h: Hasher<T>, a: seq<T>, b: seq<T>, path: seq<T>): set<(T, T)>
    requires 0 < |a| <= |b|
  {
    TreePairs(h, a) + TreePairs(h, b)
    + if |a| == |b| then {} else WalkPairs(h, |a|, |b|, SeededPath(|a|, path, Mth(h, a)))
  }

  /** Between trees of one size only the empty path is accepted, and only for equal roots. */
  lemma EqualSizesNeedNoPath<T>(h: Hasher<T>, n: nat, path: seq<T>, oldRoot: T, newRoot: T)
    ensures ConsistencyAccepts(h, ConsistencyProof(n, n, path), oldRoot, newRoot)
       <==> n > 0 && path == [] && oldRoot == newRoot
  {
  }

  /** No tree is consistent with the empty tree or with a larger one. */
  lemma ImpossibleSizes<T>(h: Hasher<T>, m: nat, n: nat, path: seq<T>, oldRoot: T, newRoot: T)
    requires m == 0 || m > n
    ensures !ConsistencyAccepts(h, ConsistencyProof(m, n, path), oldRoot, newRoot)
  {
  }

  lemma SeededInjective<T>(m: nat, p: seq<T>, q: seq<T>, root: T)
    requires SeededPath(m, p, root) == SeededPath(m, q, root)
    ensures p == q
  {
    if IsPowerOfTwo(m) {
      assert p == ([root] + p)[1..] && q == ([root] + q)[1..];
    }
  }

  /** Consistency soundness: whatever the path, if it is accepted for the roots of `a` and `b`
      then `a` is exactly the first `|a|` leaves of `b` and the path is the one the prover
      builds, unless two of the pairs named above collide. */
  lemma ConsistencySound<T>(h: Hasher<T>, a: seq<T>, b: seq<T>, path: seq<T>)
    requires ConsistencyAccepts(h, ConsistencyProof(|a|, |b|, path), Mth(h, a), Mth(h, b))
    requires NoCollision(h, ConsistencyPairs(h, a, b, path))
    ensures a <= b
    ensures Ok(ConsistencyProof(|a|, |b|, path)) == ProveConsistency(h, b, |a|)
  {
    hide TreePairs, WalkPairs, NoCollision, Mth;
    var s := ConsistencyPairs(h, a, b, path);
    if |a| == |b| {
      SameSizeSameRoot(h, s, a, b);
    } else {
      hide Subproof;
      WalkSound(h, s, a, b, SeededPath(|a|, path, Mth(h, a)));
      SubproofIsWholePath(h, b, |a|);
      SeededInjective(|a|, path, Subproof(h, b, |a|, true), Mth(h, a));
    }
  }
}

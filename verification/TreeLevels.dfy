/**
 The bridge between the recursive tree and the bit-walking verifiers.

 `Up` replaces a level of the tree by the level above it: neighbours are paired and an odd last
 node is carried. Taking one level off changes neither the root, nor (beyond its first sibling)
 an audit path, nor a consistency proof of an even size. The provers split at the top of the
 tree and the verifiers start at the bottom, so every theorem about them goes through here.
 */
module TreeLevels {
  import opened Tree

  ghost function Up<T>(h: Hasher<T>, level: seq<T>): (up: seq<T>)
    ensures |up| == (|level| + 1) / 2
  {
    seq((|level| + 1) / 2, j requires 0 <= j < (|level| + 1) / 2 =>
      if 2 * j + 1 < |level| then h.node(level[2 * j], level[2 * j + 1]) else level[2 * j])
  }

  lemma UpSplit<T>(h: Hasher<T>, level: seq<T>, k: nat)
    requires k <= |level| && k % 2 == 0
    ensures Up(h, level[..k]) == Up(h, level)[..k / 2]
    ensures Up(h, level[k..]) == Up(h, level)[k / 2..]
  {
    var r, u := Up(h, level[k..]), Up(h, level);
    forall j | 0 <= j < |r|
      ensures r[j] == u[k / 2 + j]
    {
      assert level[k..][2 * j] == level[2 * (k / 2 + j)];
    }
  }

  lemma SplitIsPower(n: nat)
    requires n > 1
    ensures BitLength(n - 1) > 0 && SplitPoint(n) == Pow2(BitLength(n - 1) - 1)
  {
  }

  /** Above two leaves the split is even, and halving the tree halves the split. */
  lemma SplitHalves(n: nat)
    requires n > 2
    ensures SplitPoint(n) % 2 == 0 && SplitPoint((n + 1) / 2) == SplitPoint(n) / 2
  {
    var b := BitLength(n - 1);
    assert ((n + 1) / 2 - 1) == (n - 1) / 2;
    assert BitLength((n - 1) / 2) == b - 1;
    hide SplitPoint, BitLength;
    SplitIsPower(n);
    SplitIsPower((n + 1) / 2);
    assert Pow2(b - 1) == 2 * Pow2(b - 2);
  }

  lemma UpOne<T>(h: Hasher<T>, level: seq<T>)
    requires |level| == 1
    ensures Up(h, level) == level
  {
  }

  /** The facts every proof below needs about the split of a level and of the one above. */
  lemma SplitLevel<T>(h: Hasher<T>, level: seq<T>, k: nat)
    requires |level| > 2 && k == SplitPoint(|level|)
    ensures k % 2 == 0 && 2 <= k < |level| && SplitPoint(|Up(h, level)|) == k / 2
    ensures Up(h, level)[..k / 2] == Up(h, level[..k])
    ensures Up(h, level)[k / 2..] == Up(h, level[k..])
  {
    hide SplitPoint, Up;
    SplitHalves(|level|);
    UpSplit(h, level, k);
  }

  lemma {:induction false} UpKeepsRoot<T>(h: Hasher<T>, level: seq<T>)
    requires |level| > 0
    ensures Mth(h, Up(h, level)) == Mth(h, level)
    decreases |level|
  {
    hide SplitPoint;
    if |level| == 1 {
      assert Up(h, level) == level;
    } else if |level| > 2 {
      var k := SplitPoint(|level|);
      SplitLevel(h, level, k);
      UpKeepsRoot(h, level[..k]);
      UpKeepsRoot(h, level[k..]);
    }
  }

  /** What a node is paired with on its own level: nothing if it is carried. */
  ghost function Sibling<T>(level: seq<T>, i: nat): (s: seq<T>)
    requires i < |level|
    ensures |s| == Siblings(i, |level| - 1)
  {
    if i % 2 == 1 then [level[i - 1]] else if i + 1 < |level| then [level[i + 1]] else []
  }

  lemma {:induction false} UpShortensPath<T>(h: Hasher<T>, level: seq<T>, i: nat)
    requires i < |level| && |level| > 1
    ensures AuditPath(h, level, i) == Sibling(level, i) + AuditPath(h, Up(h, level), i / 2)
    decreases |level|
  {
    hide SplitPoint, Up;
    var n, u := |level|, Up(h, level);
    if n > 2 {
      var k := SplitPoint(n);
      SplitLevel(h, level, k);
      UpKeepsRoot(h, level[..k]);
      UpKeepsRoot(h, level[k..]);
      if i < k {
        UpShortensPath(h, level[..k], i);
        assert Sibling(level[..k], i) == Sibling(level, i);
      } else {
        RightHalf(h, level, i, k);
      }
    }
  }

  /** The right half of `UpShortensPath`, where a half of one leaf has no level to take off. */
  lemma {:induction false} RightHalf<T>(h: Hasher<T>, level: seq<T>, i: nat, k: nat)
    requires |level| > 2 && k == SplitPoint(|level|) <= i < |level|
    ensures AuditPath(h, level, i) == Sibling(level, i) + AuditPath(h, Up(h, level), i / 2)
    decreases |level|, 0
  {
    hide SplitPoint, Up, Mth;
    var u := Up(h, level);
    SplitLevel(h, level, k);
    UpKeepsRoot(h, level[..k]);
    assert (i - k) / 2 == i / 2 - k / 2 && Sibling(level[k..], i - k) == Sibling(level, i);
    if |level| - k > 1 {
      UpShortensPath(h, level[k..], i - k);
    } else {
      UpOne(h, level[k..]);
    }
    assert AuditPath(h, u, i / 2) == AuditPath(h, u[k / 2..], i / 2 - k / 2) + [Mth(h, u[..k / 2])];
  }

  lemma {:induction false} UpKeepsEvenProof<T>(h: Hasher<T>, level: seq<T>, m: nat, whole: bool)
    requires 0 < m <= |level| && m % 2 == 0
    ensures Subproof(h, level, m, whole) == Subproof(h, Up(h, level), m / 2, whole)
    decreases |level|
  {
    hide SplitPoint, Up;
    UpKeepsRoot(h, level);
    if m < |level| {
      hide Mth;
      var k, u := SplitPoint(|level|), Up(h, level);
      SplitLevel(h, level, k);
      assert m / 2 < |u| && (m <= k <==> m / 2 <= k / 2);
      UpKeepsRoot(h, level[..k]);
      UpKeepsRoot(h, level[k..]);
      if m <= k {
        UpKeepsEvenProof(h, level[..k], m, whole);
        assert Subproof(h, u, m / 2, whole) == Subproof(h, u[..k / 2], m / 2, whole) + [Mth(h, u[k / 2..])];
      } else {
        UpKeepsEvenProof(h, level[k..], m - k, false);
        assert (m - k) / 2 == m / 2 - k / 2;
        assert Subproof(h, u, m / 2, whole) == Subproof(h, u[k / 2..], m / 2 - k / 2, false) + [Mth(h, u[..k / 2])];
      }
    }
  }

  /** For an odd old size the proof is the last old leaf and then that leaf's audit path. */
  lemma {:induction false} OddProofIsAuditPath<T>(h: Hasher<T>, level: seq<T>, m: nat, whole: bool)
    requires 0 < m <= |level| && m % 2 == 1
    requires m < |level| || m == 1
    ensures Subproof(h, level, m, whole)
         == (if whole && m == 1 then [] else [level[m - 1]]) + AuditPath(h, level, m - 1)
    decreases |level|
  {
    hide SplitPoint;
    if m < |level| {
      hide Mth;
      var k := SplitPoint(|level|);
      if |level| > 2 { SplitHalves(|level|); }
      if m <= k {
        OddProofIsAuditPath(h, level[..k], m, whole);
      } else {
        OddProofIsAuditPath(h, level[k..], m - k, false);
      }
    }
  }

  /** Everything hashed above a level is hashed by the tree. */
  lemma {:induction false} UpPairs<T>(h: Hasher<T>, level: seq<T>)
    ensures TreePairs(h, Up(h, level)) <= TreePairs(h, level)
    decreases |level|
  {
    hide SplitPoint, Up;
    if |level| > 2 {
      hide Mth;
      var k := SplitPoint(|level|);
      SplitLevel(h, level, k);
      UpKeepsRoot(h, level[..k]);
      UpKeepsRoot(h, level[k..]);
      UpPairs(h, level[..k]);
      UpPairs(h, level[k..]);
    }
  }

  /** So is the `j`-th pair of the level itself. */
  lemma {:induction false} LevelPair<T>(h: Hasher<T>, level: seq<T>, j: nat)
    requires 2 * j + 1 < |level|
    ensures (level[2 * j], level[2 * j + 1]) in TreePairs(h, level)
    decreases |level|
  {
    hide SplitPoint;
    if |level| > 2 {
      hide Mth;
      var k := SplitPoint(|level|);
      SplitHalves(|level|);
      if 2 * j < k {
        LevelPair(h, level[..k], j);
      } else {
        LevelPair(h, level[k..], j - k / 2);
      }
    }
  }

  /** Replacing a node replaces its parent. */
  lemma UpUpdate<T>(h: Hasher<T>, level: seq<T>, f: nat, r: T)
    requires f < |level|
    ensures Up(h, level[f := r]) == Up(h, level)[f / 2 := Lift(h, f, r, Sibling(level, f))]
  {
  }

  /** Cutting a level after node `f` cuts the level above after its parent in the old tree. */
  lemma UpPrefix<T>(h: Hasher<T>, level: seq<T>, f: nat, r: T)
    requires f < |level|
    ensures Up(h, level[..f] + [r]) == Up(h, level)[..f / 2] + [LiftOld(h, f, r, Sibling(level, f))]
  {
  }
}

/**
 The two `verify` loops of crates/cc-anchor/src/merkle.rs, proved equal to the level-by-level
 walks of module Tree. Sizes and indices are only ever decremented once from a positive value
 and halved, so no 64-bit overflow can occur and `nat` loses nothing.
 */
module Verifiers {
  import opened Bytes
  import opened Tree

  /** An even rightmost node moves up a level without using the path. */
  lemma Carry<T>(h: Hasher<T>, f: nat, r: T, o: T, path: seq<T>)
    requires f > 0 && f % 2 == 0
    ensures Climb(h, f, f, r, path) == Climb(h, f / 2, f / 2, r, path)
    ensures ClimbOld(h, f, f, o, path) == ClimbOld(h, f / 2, f / 2, o, path)
  {
    assert path[..0] == [] && path[0..] == path;
  }

  /** Any other node uses one element of the path. */
  lemma Take<T>(h: Hasher<T>, f: nat, l: nat, r: T, o: T, p: T, path: seq<T>)
    requires 0 < l && Siblings(f, l) == 1
    ensures Climb(h, f, l, r, [p] + path) == Climb(h, f / 2, l / 2, Lift(h, f, r, [p]), path)
    ensures ClimbOld(h, f, l, o, [p] + path) == ClimbOld(h, f / 2, l / 2, LiftOld(h, f, o, [p]), path)
  {
    var whole := [p] + path;
    assert whole[..1] == [p] && whole[1..] == path;
  }

  /** A walk that runs out of path below the root fails. */
  lemma {:induction false} TooShort<T>(h: Hasher<T>, f: nat, l: nat, r: T, o: T)
    requires f <= l && 0 < l
    ensures Climb(h, f, l, r, []) == None
    ensures ClimbOld(h, f, l, o, []) == None
    decreases l
  {
    if Siblings(f, l) == 0 {
      Carry(h, f, r, o, []);
      TooShort(h, f / 2, l / 2, r, o);
    }
  }

  /** At the root the path must be used up. */
  lemma AtRoot<T>(h: Hasher<T>, f: nat, r: T, o: T, path: seq<T>)
    ensures Climb(h, f, 0, r, path) == if path == [] then Some(r) else None
    ensures ClimbOld(h, f, 0, o, path) == if path == [] then Some(o) else None
  {
  }

  method VerifyInclusion<T(==)>(h: Hasher<T>, proof: InclusionProof<T>, leaf: T, root: T) returns (ok: bool)
    ensures ok <==> InclusionAccepts(h, proof, leaf, root)
  {
    hide Climb, ClimbOld;
    if proof.leafIndex >= proof.treeSize {
      return false;
    }
    var fnode: nat, snode: nat, r := proof.leafIndex, proof.treeSize - 1, leaf;
    ghost var goal := Climb(h, fnode, snode, r, proof.path);
    var i := 0;
    assert proof.path[0..] == proof.path;
    while i < |proof.path|
      invariant 0 <= i <= |proof.path| && fnode <= snode
      invariant Climb(h, fnode, snode, r, proof.path[i..]) == goal
    {
      var p := proof.path[i];
      ghost var rest := proof.path[i + 1..];
      assert proof.path[i..] == [p] + rest;
      if snode == 0 {
        AtRoot(h, fnode, r, r, [p] + rest);
        return false;
      }
      if fnode % 2 == 1 || fnode == snode {
        ghost var r0 := r;
        r := h.node(p, r);
        if fnode % 2 == 0 {
          while fnode != 0 && fnode % 2 == 0
            invariant 0 < fnode == snode
            invariant Climb(h, fnode, snode, r0, [p] + rest) == goal
          {
            Carry(h, fnode, r0, r0, [p] + rest);
            fnode, snode := fnode / 2, snode / 2;
          }
        }
        Take(h, fnode, snode, r0, r0, p, rest);
      } else {
        Take(h, fnode, snode, r, r, p, rest);
        r := h.node(r, p);
      }
      fnode, snode := fnode / 2, snode / 2;
      i := i + 1;
    }
    assert proof.path[i..] == [];
    if snode > 0 {
      TooShort(h, fnode, snode, r, r);
    } else {
      AtRoot(h, fnode, r, r, []);
    }
    assert goal == if snode == 0 then Some(r) else None;
    return snode == 0 && r == root;
  }

  method VerifyConsistency<T(==)>(h: Hasher<T>, proof: ConsistencyProof<T>, oldRoot: T, newRoot: T)
    returns (ok: bool)
    ensures ok <==> ConsistencyAccepts(h, proof, oldRoot, newRoot)
  {
    hide Climb, ClimbOld;
    if proof.oldSize > proof.newSize || proof.oldSize == 0 {
      return false;
    }
    if proof.oldSize == proof.newSize {
      return |proof.path| == 0 && oldRoot == newRoot;
    }
    var nodes := proof.path;
    if IsPowerOfTwo(proof.oldSize) {
      nodes := [oldRoot] + proof.path;
    }
    if |nodes| == 0 {
      return false;
    }
    var fnode: nat, snode: nat := proof.oldSize - 1, proof.newSize - 1;
    while fnode % 2 == 1
      invariant fnode < snode
      invariant Strip(fnode, snode) == Strip(proof.oldSize - 1, proof.newSize - 1)
      decreases fnode
    {
      fnode, snode := fnode / 2, snode / 2;
    }
    var fr, sr := nodes[0], nodes[0];
    ghost var goal := Climb(h, fnode, snode, sr, nodes[1..]);
    ghost var oldGoal := ClimbOld(h, fnode, snode, fr, nodes[1..]);
    assert ConsistencyAccepts(h, proof, oldRoot, newRoot) <==> oldGoal == Some(oldRoot) && goal == Some(newRoot);
    var i := 1;
    while i < |nodes|
      invariant 1 <= i <= |nodes| && fnode <= snode
      invariant Climb(h, fnode, snode, sr, nodes[i..]) == goal
      invariant ClimbOld(h, fnode, snode, fr, nodes[i..]) == oldGoal
    {
      var c := nodes[i];
      ghost var rest := nodes[i + 1..];
      assert nodes[i..] == [c] + rest;
      if snode == 0 {
        AtRoot(h, fnode, sr, fr, [c] + rest);
        return false;
      }
      if fnode % 2 == 1 || fnode == snode {
        ghost var fr0, sr0 := fr, sr;
        fr, sr := h.node(c, fr), h.node(c, sr);
        if fnode % 2 == 0 {
          while fnode != 0 && fnode % 2 == 0
            invariant 0 < fnode == snode
            invariant Climb(h, fnode, snode, sr0, [c] + rest) == goal
            invariant ClimbOld(h, fnode, snode, fr0, [c] + rest) == oldGoal
          {
            Carry(h, fnode, sr0, fr0, [c] + rest);
            fnode, snode := fnode / 2, snode / 2;
          }
        }
        Take(h, fnode, snode, sr0, fr0, c, rest);
      } else {
        Take(h, fnode, snode, sr, fr, c, rest);
        sr := h.node(sr, c);
      }
      fnode, snode := fnode / 2, snode / 2;
      i := i + 1;
    }
    assert nodes[i..] == [];
    if snode > 0 {
      TooShort(h, fnode, snode, sr, fr);
    } else {
      AtRoot(h, fnode, sr, fr, []);
    }
    return snode == 0 && fr == oldRoot && sr == newRoot;
  }
}

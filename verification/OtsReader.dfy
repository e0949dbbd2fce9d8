/** The cursor of crates/cc-anchor/src/ots.rs, moved in place, and the loops that drive it. */
module OtsReader {
  import opened Bytes
  import opened Tree
  import opened Varint
  import Ots

  /** What an item with siblings contributes. */
  ghost function Sibling(sha: Sha, b: Bytes, msg: Bytes): Result<(seq<Ots.Commitment>, Bytes), OtsError> {
    var (tag, b1) :- Ots.Byte(b);
    if tag == Ots.ATTESTATION_TAG then
      var (c, b2) :- Ots.ReadAttestation(b1, msg);
      Ok(([c], b2))
    else
      var (branch, b2) :- Ots.Apply(sha, b1, tag, msg);
      Ots.Walk(sha, b2, branch)
  }

  lemma SiblingShrinks(sha: Sha, b: Bytes, msg: Bytes)
    requires Sibling(sha, b, msg).Ok?
    ensures |Sibling(sha, b, msg).value.1| < |b|
  {
    if b[0] == Ots.ATTESTATION_TAG {
      Ots.VarbytesShrinks(b[1..][8..]);
    } else {
      Ots.WalkLeft(sha, b[1..], b[0], msg);
    }
  }

  /** One round of the walk. */
  ghost function Round(sha: Sha, b: Bytes, msg: Bytes): Result<(seq<Ots.Commitment>, Bytes), OtsError> {
    var (tag, b1) :- Ots.Byte(b);
    if tag == Ots.ATTESTATION_TAG then
      var (c, b2) :- Ots.ReadAttestation(b1, msg);
      Ok(([c], b2))
    else if tag == Ots.CONTINUATION_TAG then
      var (cs, b2) :- Sibling(sha, b1, msg);
      var (ds, b3) :- Ots.Walk(sha, b2, msg);
      Ok((cs + ds, b3))
    else
      var (next, b2) :- Ots.Apply(sha, b1, tag, msg);
      Ots.Walk(sha, b2, next)
  }

  lemma Unfold(sha: Sha, b: Bytes, msg: Bytes)
    ensures Ots.Walk(sha, b, msg) == Round(sha, b, msg)
  {
    hide Ots.Apply, Ots.ReadAttestation;
  }

  /** Walking on from here after collecting `out` gives `goal`. */
  ghost predicate Continues(
    here: Result<(seq<Ots.Commitment>, Bytes), OtsError>, out: seq<Ots.Commitment>,
    goal: Result<(seq<Ots.Commitment>, Bytes), OtsError>)
  {
    match here
    case Ok((cs, rest)) => goal == Ok((out + cs, rest))
    case Err(e) => goal == Err(e)
  }

  class Reader {
    const b: Bytes
    var pos: nat

    /** A slice is shorter than the address space. */
    ghost predicate Valid()
      reads this
    {
      pos <= |b| < U64
    }

    ghost function Rest(): Bytes
      requires Valid()
      reads this
    {
      b[pos..]
    }

    constructor (bytes: Bytes)
      requires |bytes| < U64
      ensures Valid() && b == bytes && Rest() == bytes
    {
      b := bytes;
      pos := 0;
    }

    method Take(n: nat) returns (r: Result<Bytes, OtsError>)
      requires Valid() && n < U64
      modifies this
      ensures Valid()
      ensures match Ots.Take(old(Rest()), n)
              case Ok((bytes, rest)) => r == Ok(bytes) && Rest() == rest
              case Err(e) => r == Err(e)
    {
      if pos + n >= U64 || pos + n > |b| {
        return Err(Malformed);
      }
      assert b[pos..][..n] == b[pos..pos + n] && b[pos..][n..] == b[pos + n..];
      r := Ok(b[pos..pos + n]);
      pos := pos + n;
    }

    method Byte() returns (r: Result<byte, OtsError>)
      requires Valid()
      modifies this
      ensures Valid()
      ensures match Ots.Byte(old(Rest()))
              case Ok((x, rest)) => r == Ok(x) && Rest() == rest
              case Err(e) => r == Err(e)
    {
      var bytes := Take(1);
      if bytes.Err? {
        return Err(bytes.error);
      }
      r := Ok(bytes.value[0]);
    }

    method ReadVaruint() returns (r: Result<nat, OtsError>)
      requires Valid()
      modifies this
      ensures Valid()
      ensures match Varuint(old(Rest()))
              case Ok((n, rest)) => r == Ok(n) && Rest() == rest
              case Err(e) => r == Err(e)
    {
      var value, shift := 0, 0;
      while true
        invariant Valid() && 0 <= value && 0 <= shift
        invariant VaruintFrom(Rest(), value, shift) == Varuint(old(Rest()))
        decreases |b| - pos
      {
        ghost var unread := Rest();
        var x := Byte();
        if x.Err? {
          return Err(x.error);
        }
        assert unread == [x.value] + Rest();
        if shift >= 64 {
          return Err(Malformed);
        }
        value := value + (x.value % 128 * Pow2(shift)) % U64;
        if x.value < 128 {
          return Ok(value);
        }
        shift := shift + 7;
      }
    }

    method ReadVarbytes() returns (r: Result<Bytes, OtsError>)
      requires Valid()
      modifies this
      ensures Valid()
      ensures match Ots.Varbytes(old(Rest()))
              case Ok((bytes, rest)) => r == Ok(bytes) && Rest() == rest
              case Err(e) => r == Err(e)
    {
      ghost var unread := Rest();
      var n := ReadVaruint();
      if n.Err? {
        return Err(n.error);
      }
      VaruintIff(unread, n.value, Rest());
      r := Take(n.value);
    }

    method ReadAttestation(msg: Bytes) returns (r: Result<Ots.Commitment, OtsError>)
      requires Valid()
      modifies this
      ensures Valid()
      ensures match Ots.ReadAttestation(old(Rest()), msg)
              case Ok((c, rest)) => r == Ok(c) && Rest() == rest
              case Err(e) => r == Err(e)
    {
      var tag := Take(8);
      if tag.Err? {
        return Err(tag.error);
      }
      var payload := ReadVarbytes();
      if payload.Err? {
        return Err(payload.error);
      }
      var attestation := Ots.Interpret(tag.value, payload.value);
      if attestation.Err? {
        return Err(attestation.error);
      }
      r := Ok(Ots.Commitment(attestation.value, msg));
    }

    method Apply(sha: Sha, tag: byte, msg: Bytes) returns (r: Result<Bytes, OtsError>)
      requires Valid()
      modifies this
      ensures Valid()
      ensures match Ots.Apply(sha, old(Rest()), tag, msg)
              case Ok((next, rest)) => r == Ok(next) && Rest() == rest
              case Err(e) => r == Err(e)
    {
      if tag == Ots.OP_APPEND || tag == Ots.OP_PREPEND {
        var arg := ReadVarbytes();
        if arg.Err? {
          return Err(arg.error);
        }
        r := Ok(if tag == Ots.OP_APPEND then msg + arg.value else arg.value + msg);
      } else if tag == Ots.OP_SHA256 {
        r := Ok(sha(msg));
      } else if tag == Ots.OP_REVERSE {
        r := Ok(Ots.Reversed(msg));
      } else if tag == Ots.OP_HEXLIFY {
        r := Ok(Ots.Hexlified(msg));
      } else {
        r := Err(UnsupportedOp(tag));
      }
    }

    /** The walk: siblings are pushed as they are met, branches recurse, and the last operation of
        a node continues in the loop. It ends because every round reads at least one byte. */
    method Walk(sha: Sha, start: Bytes) returns (r: Result<seq<Ots.Commitment>, OtsError>)
      requires Valid()
      modifies this
      ensures Valid()
      ensures match Ots.Walk(sha, old(Rest()), start)
              case Ok((cs, rest)) => r == Ok(cs) && Rest() == rest
              case Err(e) => r == Err(e)
      decreases |Rest()|, 1
    {
      hide Ots.Apply, Ots.ReadAttestation, Ots.Walk, Sibling;
      var msg, out := start, [];
      ghost var goal := Ots.Walk(sha, Rest(), start);
      assert goal.Ok? ==> [] + goal.value.0 == goal.value.0;
      while true
        invariant Valid() && |Rest()| <= |old(Rest())|
        invariant Continues(Ots.Walk(sha, Rest(), msg), out, goal)
        decreases |Rest()|
      {
        Unfold(sha, Rest(), msg);
        var tag := Byte();
        if tag.Err? {
          return Err(tag.error);
        }
        ghost var item := Rest();
        if tag.value == Ots.ATTESTATION_TAG {
          var c := ReadAttestation(msg);
          if c.Err? {
            return Err(c.error);
          }
          return Ok(out + [c.value]);
        } else if tag.value == Ots.CONTINUATION_TAG {
          var cs := WalkSibling(sha, msg);
          if cs.Err? {
            return Err(cs.error);
          }
          SiblingShrinks(sha, item, msg);
          ghost var more := Ots.Walk(sha, Rest(), msg);
          assert more.Ok? ==> out + (cs.value + more.value.0) == (out + cs.value) + more.value.0;
          out := out + cs.value;
        } else {
          var next := Apply(sha, tag.value, msg);
          if next.Err? {
            return Err(next.error);
          }
          Ots.WalkLeft(sha, item, tag.value, msg);
          msg := next.value;
        }
      }
    }

    /** One item that has siblings after it, read after its continuation tag. */
    method WalkSibling(sha: Sha, msg: Bytes) returns (r: Result<seq<Ots.Commitment>, OtsError>)
      requires Valid()
      modifies this
      ensures Valid()
      ensures match Sibling(sha, old(Rest()), msg)
              case Ok((cs, rest)) => r == Ok(cs) && Rest() == rest
              case Err(e) => r == Err(e)
      decreases |Rest()|, 2
    {
      hide Ots.Apply, Ots.ReadAttestation, Ots.Walk;
      var tag := Byte();
      if tag.Err? {
        return Err(tag.error);
      }
      ghost var item := Rest();
      if tag.value == Ots.ATTESTATION_TAG {
        var c := ReadAttestation(msg);
        if c.Err? {
          return Err(c.error);
        }
        r := Ok([c.value]);
      } else {
        var branch := Apply(sha, tag.value, msg);
        if branch.Err? {
          return Err(branch.error);
        }
        Ots.WalkLeft(sha, item, tag.value, msg);
        r := Walk(sha, branch.value);
      }
    }
  }
}

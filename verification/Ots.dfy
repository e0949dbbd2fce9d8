/**
 The OpenTimestamps operation stream of crates/cc-anchor/src/ots.rs: the walker that executes
 operations while it reads, the grammar it is meant to follow, and the `.ots` file around it.

 A reader is the bytes still unread. The messages inside `Malformed` are not kept, so the
 refusals "length overflow" and "truncated" of `Reader::take` are one.
 */
module Ots {
  import opened Bytes
  import opened Varint
  import opened Utf8

  const OP_APPEND: byte := 0xf0
  const OP_PREPEND: byte := 0xf1
  const OP_REVERSE: byte := 0xf2
  const OP_HEXLIFY: byte := 0xf3
  const OP_SHA256: byte := 0x08
  const ATTESTATION_TAG: byte := 0x00
  const CONTINUATION_TAG: byte := 0xff
  const PENDING_ATTESTATION: Bytes := [0x83, 0xdf, 0xe3, 0x0d, 0x2e, 0xf9, 0x0c, 0x8e]
  const BITCOIN_ATTESTATION: Bytes := [0x05, 0x88, 0x96, 0x0d, 0x73, 0xd7, 0x19, 0x01]

  datatype Attestation = Pending(uri: Bytes) | Bitcoin(height: nat) | Unknown(tag: Bytes, payload: Bytes)
  datatype Commitment = Commitment(attestation: Attestation, message: Bytes)

  // ----- Reading -----

  function Take(b: Bytes, n: nat): Result<(Bytes, Bytes), OtsError> {
    if n > |b| then Err(Malformed) else Ok((b[..n], b[n..]))
  }

  function Byte(b: Bytes): Result<(byte, Bytes), OtsError> {
    if |b| == 0 then Err(Malformed) else Ok((b[0], b[1..]))
  }

  function Varbytes(b: Bytes): Result<(Bytes, Bytes), OtsError> {
    var (n, rest) :- Varuint(b);
    Take(rest, n)
  }

  /** What an attestation's tag and payload say. */
  function Interpret(tag: Bytes, payload: Bytes): Result<Attestation, OtsError> {
    if tag == PENDING_ATTESTATION then
      var (uri, _) :- Varbytes(payload);
      if IsUtf8(uri) then Ok(Pending(uri)) else Err(Malformed)
    else if tag == BITCOIN_ATTESTATION then
      var (height, _) :- Varuint(payload);
      Ok(Bitcoin(height))
    else Ok(Unknown(tag, payload))
  }

  function ReadAttestation(b: Bytes, msg: Bytes): Result<(Commitment, Bytes), OtsError> {
    var (tag, b1) :- Take(b, 8);
    var (payload, b2) :- Varbytes(b1);
    var attestation :- Interpret(tag, payload);
    Ok((Commitment(attestation, msg), b2))
  }

  function Reversed(b: Bytes): Bytes { if b == [] then [] else Reversed(b[1..]) + [b[0]] }

  function HexDigit(n: nat): byte
    requires n < 16
  {
    if n < 10 then 48 + n else 87 + n
  }

  function Hexlified(b: Bytes): Bytes {
    if b == [] then [] else [HexDigit(b[0] / 16), HexDigit(b[0] % 16)] + Hexlified(b[1..])
  }

  /** Read the argument of operation `tag`, if it has one, and execute it on `msg`. */
  function Apply(sha: Sha, b: Bytes, tag: byte, msg: Bytes): Result<(Bytes, Bytes), OtsError> {
    if tag == OP_APPEND then
      var (arg, rest) :- Varbytes(b);
      Ok((msg + arg, rest))
    else if tag == OP_PREPEND then
      var (arg, rest) :- Varbytes(b);
      Ok((arg + msg, rest))
    else if tag == OP_SHA256 then Ok((sha(msg), b))
    else if tag == OP_REVERSE then Ok((Reversed(msg), b))
    else if tag == OP_HEXLIFY then Ok((Hexlified(msg), b))
    else Err(UnsupportedOp(tag))
  }

  /** Readers never move backwards. */
  lemma {:induction false} VaruintShrinks(b: Bytes, value: nat, shift: nat)
    ensures VaruintFrom(b, value, shift).Ok? ==> |VaruintFrom(b, value, shift).value.1| < |b|
    decreases |b|
  {
    if VaruintFrom(b, value, shift).Ok? {
      var v := ReadIsEncoding(b, value, shift);
    }
  }

  lemma VarbytesShrinks(b: Bytes)
    ensures Varbytes(b).Ok? ==> |Varbytes(b).value.1| < |b|
  {
    VaruintShrinks(b, 0, 0);
  }

  /** `walk`: the commitments collected and what is left of the stream. */
  function Walk(sha: Sha, b: Bytes, msg: Bytes): (r: Result<(seq<Commitment>, Bytes), OtsError>)
    ensures r.Ok? ==> |r.value.1| < |b|
    decreases |b|
  {
    var (tag, b1) :- Byte(b);
    if tag == ATTESTATION_TAG then
      var (c, b2) :- ReadAttestation(b1, msg);
      VarbytesShrinks(b1[8..]);
      Ok(([c], b2))
    else if tag == CONTINUATION_TAG then
      var (tag2, b2) :- Byte(b1);
      if tag2 == ATTESTATION_TAG then
        var (c, b3) :- ReadAttestation(b2, msg);
        VarbytesShrinks(b2[8..]);
        var (cs, b4) :- Walk(sha, b3, msg);
        Ok(([c] + cs, b4))
      else
        var (branch, b3) :- Apply(sha, b2, tag2, msg);
        VarbytesShrinks(b2);
        var (cs, b4) :- Walk(sha, b3, branch);
        var (ds, b5) :- Walk(sha, b4, msg);
        Ok((cs + ds, b5))
    else
      var (next, b2) :- Apply(sha, b1, tag, msg);
      VarbytesShrinks(b1);
      Walk(sha, b2, next)
  }

  // ----- The grammar -----

  /** A length-prefixed argument: the bytes that encode its length, and itself. */
  datatype Arg = Arg(length: Bytes, bytes: Bytes)

  datatype Operation = Append(arg: Arg) | Prepend(arg: Arg) | Sha256 | Reverse | Hexlify

  /** A timestamp: attestations and operations over one message, each operation with the
      timestamp of its result. The last item ends the node; the others have siblings after them. */
  datatype Stamp =
    | Attest(tag: Bytes, payload: Arg)
    | Last(op: Operation, next: Stamp)
    | AttestAnd(tag: Bytes, payload: Arg, rest: Stamp)
    | Fork(op: Operation, branch: Stamp, rest: Stamp)

  ghost predicate ArgOk(a: Arg) { Encodes(a.length, |a.bytes|) }

  ghost predicate OpOk(op: Operation) { (op.Append? || op.Prepend?) ==> ArgOk(op.arg) }

  ghost predicate AttOk(tag: Bytes, payload: Arg) {
    |tag| == 8 && ArgOk(payload) && Interpret(tag, payload.bytes).Ok?
  }

  ghost predicate StampOk(s: Stamp) {
    match s
    case Attest(tag, payload) => AttOk(tag, payload)
    case Last(op, next) => OpOk(op) && StampOk(next)
    case AttestAnd(tag, payload, rest) => AttOk(tag, payload) && StampOk(rest)
    case Fork(op, branch, rest) => OpOk(op) && StampOk(branch) && StampOk(rest)
  }

  ghost function ArgBytes(a: Arg): Bytes { a.length + a.bytes }

  ghost function OpTag(op: Operation): byte {
    match op
    case Append(_) => 0xf0
    case Prepend(_) => 0xf1
    case Sha256 => 0x08
    case Reverse => 0xf2
    case Hexlify => 0xf3
  }

  ghost function OpArg(op: Operation): Bytes {
    if op.Append? || op.Prepend? then ArgBytes(op.arg) else []
  }

  /** The serialization: `00` ends a node with an attestation, a bare operation ends it with the
      operation's subtree inline, and `ff` before either says that siblings follow. */
  ghost function Serialize(s: Stamp): Bytes {
    match s
    case Attest(tag, payload) => [0x00] + (tag + ArgBytes(payload))
    case Last(op, next) => [OpTag(op)] + (OpArg(op) + Serialize(next))
    case AttestAnd(tag, payload, rest) =>
      [0xff, 0x00] + ((tag + ArgBytes(payload)) + Serialize(rest))
    case Fork(op, branch, rest) =>
      [0xff, OpTag(op)] + (OpArg(op) + (Serialize(branch) + Serialize(rest)))
  }

  /** The lower-case hexadecimal digits in ASCII. */
  const HEX: Bytes := [48, 49, 50, 51, 52, 53, 54, 55, 56, 57, 97, 98, 99, 100, 101, 102]

  /** What an operation makes of a message, place by place. */
  ghost function Execute(sha: Sha, op: Operation, msg: Bytes): Bytes {
    match op
    case Append(arg) => msg + arg.bytes
    case Prepend(arg) => arg.bytes + msg
    case Sha256 => sha(msg)
    case Reverse => seq(|msg|, i requires 0 <= i < |msg| => msg[|msg| - 1 - i])
    case Hexlify =>
      seq(2 * |msg|, i requires 0 <= i < 2 * |msg| => HEX[if i % 2 == 0 then msg[i / 2] / 16 else msg[i / 2] % 16])
  }

  lemma {:induction false} ReversedAt(msg: Bytes, i: nat)
    requires i < |msg|
    ensures |Reversed(msg)| == |msg| && Reversed(msg)[i] == msg[|msg| - 1 - i]
  {
    if |msg| > 1 {
      ReversedAt(msg[1..], if i < |msg| - 1 then i else 0);
    }
  }

  lemma {:induction false} HexlifiedAt(msg: Bytes, i: nat)
    requires i < 2 * |msg|
    ensures |Hexlified(msg)| == 2 * |msg|
    ensures Hexlified(msg)[i] == HEX[if i % 2 == 0 then msg[i / 2] / 16 else msg[i / 2] % 16]
  {
    var tail := msg[1..];
    assert Hexlified(msg) == [HexDigit(msg[0] / 16), HexDigit(msg[0] % 16)] + Hexlified(tail);
    if i > 1 {
      HexlifiedAt(tail, i - 2);
      assert tail[(i - 2) / 2] == msg[i / 2];
    } else if tail != [] {
      HexlifiedAt(tail, 0);
    }
  }

  lemma EmptyMessage()
    ensures Reversed([]) == [] && Hexlified([]) == []
  {
  }

  /** Reversal and hexadecimal, computed from the front, are what they should be in every place. */
  lemma ExecutesInPlace(sha: Sha, msg: Bytes)
    ensures Reversed(msg) == Execute(sha, Reverse, msg) && Hexlified(msg) == Execute(sha, Hexlify, msg)
  {
    hide Reversed, Hexlified;
    if msg == [] {
      EmptyMessage();
    } else {
      ReversedAt(msg, 0);
      HexlifiedAt(msg, 0);
      forall i: nat | i < |msg| ensures Reversed(msg)[i] == msg[|msg| - 1 - i] { ReversedAt(msg, i); }
      forall i: nat | i < 2 * |msg|
        ensures Hexlified(msg)[i] == HEX[if i % 2 == 0 then msg[i / 2] / 16 else msg[i / 2] % 16]
      {
        HexlifiedAt(msg, i);
      }
    }
  }

  /** The attestations of a timestamp in reading order, each with the message that the operations
      of its branch make of `msg`. */
  ghost function Leaves(sha: Sha, s: Stamp, msg: Bytes): (cs: seq<Commitment>)
    requires StampOk(s)
    ensures |cs| > 0
  {
    match s
    case Attest(tag, payload) => [Commitment(Interpret(tag, payload.bytes).value, msg)]
    case Last(op, next) => Leaves(sha, next, Execute(sha, op, msg))
    case AttestAnd(tag, payload, rest) =>
      [Commitment(Interpret(tag, payload.bytes).value, msg)] + Leaves(sha, rest, msg)
    case Fork(op, branch, rest) =>
      Leaves(sha, branch, Execute(sha, op, msg)) + Leaves(sha, rest, msg)
  }

  // ----- The walker follows the grammar -----

  lemma VarbytesReads(a: Arg, rest: Bytes)
    requires ArgOk(a)
    ensures Varbytes(ArgBytes(a) + rest) == Ok((a.bytes, rest))
  {
    var b := ArgBytes(a) + rest;
    assert b == a.length + (a.bytes + rest);
    VaruintIff(b, |a.bytes|, a.bytes + rest);
    assert (a.bytes + rest)[..|a.bytes|] == a.bytes && (a.bytes + rest)[|a.bytes|..] == rest;
  }

  lemma VarbytesIsArg(b: Bytes) returns (a: Arg)
    requires Varbytes(b).Ok?
    ensures ArgOk(a) && a.bytes == Varbytes(b).value.0
    ensures b == ArgBytes(a) + Varbytes(b).value.1
  {
    var (n, rest) := Varuint(b).value;
    VaruintIff(b, n, rest);
    var v :| Encodes(v, n) && b == v + rest;
    a := Arg(v, rest[..n]);
    assert rest == rest[..n] + rest[n..];
  }

  lemma AttestationReads(tag: Bytes, payload: Arg, rest: Bytes, msg: Bytes)
    requires AttOk(tag, payload)
    ensures ReadAttestation((tag + ArgBytes(payload)) + rest, msg)
         == Ok((Commitment(Interpret(tag, payload.bytes).value, msg), rest))
  {
    var b := (tag + ArgBytes(payload)) + rest;
    assert b[..8] == tag && b[8..] == ArgBytes(payload) + rest;
    VarbytesReads(payload, rest);
  }

  lemma AttestationIsItem(b: Bytes, msg: Bytes) returns (tag: Bytes, payload: Arg)
    requires ReadAttestation(b, msg).Ok?
    ensures AttOk(tag, payload)
    ensures b == (tag + ArgBytes(payload)) + ReadAttestation(b, msg).value.1
    ensures ReadAttestation(b, msg).value.0 == Commitment(Interpret(tag, payload.bytes).value, msg)
  {
    tag := b[..8];
    payload := VarbytesIsArg(b[8..]);
    assert b == tag + b[8..];
  }

  lemma ApplyReads(sha: Sha, op: Operation, rest: Bytes, msg: Bytes)
    requires OpOk(op)
    ensures Apply(sha, OpArg(op) + rest, OpTag(op), msg) == Ok((Execute(sha, op, msg), rest))
  {
    if op.Append? || op.Prepend? {
      VarbytesReads(op.arg, rest);
    } else {
      ExecutesInPlace(sha, msg);
      assert OpArg(op) + rest == rest;
    }
  }

  lemma ApplyIsOperation(sha: Sha, b: Bytes, tag: byte, msg: Bytes) returns (op: Operation)
    requires Apply(sha, b, tag, msg).Ok?
    ensures OpOk(op) && OpTag(op) == tag
    ensures b == OpArg(op) + Apply(sha, b, tag, msg).value.1
    ensures Apply(sha, b, tag, msg).value.0 == Execute(sha, op, msg)
  {
    if tag == OP_APPEND || tag == OP_PREPEND {
      var a := VarbytesIsArg(b);
      op := if tag == OP_APPEND then Append(a) else Prepend(a);
    } else {
      ExecutesInPlace(sha, msg);
      op := if tag == OP_SHA256 then Sha256 else if tag == OP_REVERSE then Reverse else Hexlify;
    }
  }

  lemma WalkReadsAttest(sha: Sha, s: Stamp, rest: Bytes, msg: Bytes)
    requires StampOk(s) && s.Attest?
    ensures Walk(sha, Serialize(s) + rest, msg) == Ok((Leaves(sha, s, msg), rest))
  {
    hide ReadAttestation, Apply, AttOk, ArgBytes, Interpret;
    var b := Serialize(s) + rest;
    assert b[0] == ATTESTATION_TAG && b[1..] == (s.tag + ArgBytes(s.payload)) + rest;
    AttestationReads(s.tag, s.payload, rest, msg);
  }

  /** Every well-formed timestamp is walked to its own leaves, whatever follows it. */
  lemma {:induction false} WalkReads(sha: Sha, s: Stamp, rest: Bytes, msg: Bytes)
    requires StampOk(s)
    ensures Walk(sha, Serialize(s) + rest, msg) == Ok((Leaves(sha, s, msg), rest))
    decreases s, 1
  {
    match s
    case Attest(_, _) => WalkReadsAttest(sha, s, rest, msg);
    case Last(_, _) => WalkReadsLast(sha, s, rest, msg);
    case AttestAnd(_, _, _) => WalkReadsSibling(sha, s, rest, msg);
    case Fork(_, _, _) => WalkReadsFork(sha, s, rest, msg);
  }

  lemma {:induction false} WalkReadsLast(sha: Sha, s: Stamp, rest: Bytes, msg: Bytes)
    requires StampOk(s) && s.Last?
    ensures Walk(sha, Serialize(s) + rest, msg) == Ok((Leaves(sha, s, msg), rest))
    decreases s, 0
  {
    hide ReadAttestation, Apply, AttOk, OpArg, OpOk, Execute;
    var b := Serialize(s) + rest;
    assert b[0] == OpTag(s.op) && b[1..] == OpArg(s.op) + (Serialize(s.next) + rest);
    ApplyReads(sha, s.op, Serialize(s.next) + rest, msg);
    WalkReads(sha, s.next, rest, Execute(sha, s.op, msg));
  }

  lemma {:induction false} WalkReadsSibling(sha: Sha, s: Stamp, rest: Bytes, msg: Bytes)
    requires StampOk(s) && s.AttestAnd?
    ensures Walk(sha, Serialize(s) + rest, msg) == Ok((Leaves(sha, s, msg), rest))
    decreases s, 0
  {
    hide ReadAttestation, Apply, AttOk, ArgBytes, Interpret;
    var b, item := Serialize(s) + rest, s.tag + ArgBytes(s.payload);
    assert b[0] == CONTINUATION_TAG && b[1..][0] == ATTESTATION_TAG;
    assert b[1..][1..] == item + (Serialize(s.rest) + rest);
    AttestationReads(s.tag, s.payload, Serialize(s.rest) + rest, msg);
    WalkReads(sha, s.rest, rest, msg);
  }

  lemma {:induction false} WalkReadsFork(sha: Sha, s: Stamp, rest: Bytes, msg: Bytes)
    requires StampOk(s) && s.Fork?
    ensures Walk(sha, Serialize(s) + rest, msg) == Ok((Leaves(sha, s, msg), rest))
    decreases s, 0
  {
    hide ReadAttestation, Apply, AttOk, OpArg, OpOk, Execute;
    var b, op := Serialize(s) + rest, s.op;
    var tail := Serialize(s.rest) + rest;
    assert b[0] == CONTINUATION_TAG && b[1..][0] == OpTag(op);
    assert b[1..][1..] == OpArg(op) + (Serialize(s.branch) + tail);
    ApplyReads(sha, op, Serialize(s.branch) + tail, msg);
    WalkReads(sha, s.branch, tail, Execute(sha, op, msg));
    WalkReads(sha, s.rest, rest, msg);
  }

  lemma WalkLeft(sha: Sha, b: Bytes, tag: byte, msg: Bytes)
    requires Apply(sha, b, tag, msg).Ok?
    ensures |Apply(sha, b, tag, msg).value.1| <= |b|
  {
    VarbytesShrinks(b);
  }

  /** Every successful walk read a well-formed timestamp and returned its leaves. */
  lemma {:induction false} WalkIsStamp(sha: Sha, b: Bytes, msg: Bytes) returns (s: Stamp)
    requires Walk(sha, b, msg).Ok?
    ensures StampOk(s)
    ensures b == Serialize(s) + Walk(sha, b, msg).value.1
    ensures Walk(sha, b, msg).value.0 == Leaves(sha, s, msg)
    decreases |b|
  {
    hide ReadAttestation, Apply, AttOk, ArgBytes, Interpret, OpArg, OpOk, Execute;
    var b1 := b[1..];
    assert b == [b[0]] + b1;
    if b[0] == ATTESTATION_TAG {
      var tag, payload := AttestationIsItem(b1, msg);
      s := Attest(tag, payload);
    } else if b[0] == CONTINUATION_TAG {
      s := WalkIsItem(sha, b, msg);
    } else {
      var op := ApplyIsOperation(sha, b1, b[0], msg);
      var (next, b2) := Apply(sha, b1, b[0], msg).value;
      WalkLeft(sha, b1, b[0], msg);
      var sub := WalkIsStamp(sha, b2, next);
      s := Last(op, sub);
    }
  }

  /** The case of an item with siblings after it. */
  lemma {:induction false} WalkIsItem(sha: Sha, b: Bytes, msg: Bytes) returns (s: Stamp)
    requires Walk(sha, b, msg).Ok? && b[0] == CONTINUATION_TAG
    ensures StampOk(s)
    ensures b == Serialize(s) + Walk(sha, b, msg).value.1
    ensures Walk(sha, b, msg).value.0 == Leaves(sha, s, msg)
    decreases |b|, 0
  {
    hide ReadAttestation, Apply, AttOk, ArgBytes, Interpret, OpArg, OpOk, Execute;
    var b1 := b[1..];
    var b2 := b1[1..];
    assert b == [b[0], b1[0]] + b2;
    if b1[0] == ATTESTATION_TAG {
      var tag, payload := AttestationIsItem(b2, msg);
      var b3 := ReadAttestation(b2, msg).value.1;
      var more := WalkIsStamp(sha, b3, msg);
      s := AttestAnd(tag, payload, more);
    } else {
      var op := ApplyIsOperation(sha, b2, b1[0], msg);
      var (branch, b3) := Apply(sha, b2, b1[0], msg).value;
      WalkLeft(sha, b2, b1[0], msg);
      var sub := WalkIsStamp(sha, b3, branch);
      var b4 := Walk(sha, b3, branch).value.1;
      var more := WalkIsStamp(sha, b4, msg);
      s := Fork(op, sub, more);
    }
  }

  /** The walker refines its grammar: it succeeds with commitments `cs` and remainder `rest` if and
      only if the stream is a well-formed timestamp followed by `rest` whose leaves are `cs`. */
  lemma WalkIff(sha: Sha, b: Bytes, msg: Bytes, cs: seq<Commitment>, rest: Bytes)
    ensures Walk(sha, b, msg) == Ok((cs, rest))
       <==> exists s :: StampOk(s) && b == Serialize(s) + rest && cs == Leaves(sha, s, msg)
  {
    if Walk(sha, b, msg) == Ok((cs, rest)) {
      var s := WalkIsStamp(sha, b, msg);
    }
    forall s | StampOk(s) && b == Serialize(s) + rest && cs == Leaves(sha, s, msg)
      ensures Walk(sha, b, msg) == Ok((cs, rest))
    {
      WalkReads(sha, s, rest, msg);
    }
  }

  lemma {:induction false} SameLeafCount(sha: Sha, s: Stamp, m: Bytes, n: Bytes)
    requires StampOk(s)
    ensures |Leaves(sha, s, m)| == |Leaves(sha, s, n)|
    decreases s
  {
    match s
    case Attest(_, _) =>
    case Last(op, next) => SameLeafCount(sha, next, Execute(sha, op, m), Execute(sha, op, n));
    case AttestAnd(_, _, rest) => SameLeafCount(sha, rest, m, n);
    case Fork(op, branch, rest) =>
      SameLeafCount(sha, branch, Execute(sha, op, m), Execute(sha, op, n));
      SameLeafCount(sha, rest, m, n);
  }

  /** Whether a stream can be walked, and how far, does not depend on the message. */
  lemma WalkIgnoresMessage(sha: Sha, b: Bytes, m: Bytes, n: Bytes)
    requires Walk(sha, b, m).Ok?
    ensures Walk(sha, b, n).Ok? && Walk(sha, b, n).value.1 == Walk(sha, b, m).value.1
    ensures |Walk(sha, b, n).value.0| == |Walk(sha, b, m).value.0| > 0
  {
    var s := WalkIsStamp(sha, b, m);
    WalkReads(sha, s, Walk(sha, b, m).value.1, n);
    SameLeafCount(sha, s, m, n);
  }

  // ----- The file -----

  const HEADER_MAGIC: Bytes :=
    [0x00, 0x4f, 0x70, 0x65, 0x6e, 0x54, 0x69, 0x6d, 0x65, 0x73, 0x74, 0x61, 0x6d, 0x70, 0x73, 0x00,
     0x00, 0x50, 0x72, 0x6f, 0x6f, 0x66, 0x00, 0xbf, 0x89, 0xe2, 0xe8, 0x84, 0xe8, 0x92, 0x94]
  const MAJOR_VERSION := 1

  function Take32(b: Bytes): Result<(Hash, Bytes), OtsError> {
    if 32 > |b| then Err(Malformed) else Ok((b[..32], b[32..]))
  }

  /** The digest a file is about, and what follows it. */
  function ReadHeader(file: Bytes): Result<(Hash, Bytes), OtsError> {
    var (magic, b1) :- Take(file, |HEADER_MAGIC|);
    if magic != HEADER_MAGIC then Err(Malformed)
    else
      var (version, b2) :- Varuint(b1);
      if version != MAJOR_VERSION then Err(Malformed)
      else
        var (op, b3) :- Byte(b2);
        if op != OP_SHA256 then Err(Malformed) else Take32(b3)
  }

  function Digest(file: Bytes): Result<Hash, OtsError> {
    var (digest, _) :- ReadHeader(file);
    Ok(digest)
  }

  function CommitsTo(file: Bytes, digest: Hash): Result<(), OtsError> {
    var found :- Digest(file);
    if found == digest then Ok(()) else Err(WrongDigest)
  }

  function AttestationsIn(sha: Sha, timestamp: Bytes, from: Bytes): Result<seq<Commitment>, OtsError> {
    var (cs, rest) :- Walk(sha, timestamp, from);
    if rest == [] then Ok(cs) else Err(Malformed)
  }

  /** The offset at which `commitments` starts to walk, whatever the file's own header length. */
  const HEADER_LENGTH: nat := |HEADER_MAGIC| + |Minimal(MAJOR_VERSION)| + 1 + 32

  lemma HeaderFits(file: Bytes)
    requires ReadHeader(file).Ok?
    ensures HEADER_LENGTH == |HEADER_MAGIC| + 34 <= |file|
  {
    VaruintShrinks(file[|HEADER_MAGIC|..], 0, 0);
  }

  function Commitments(sha: Sha, file: Bytes): Result<seq<Commitment>, OtsError> {
    var digest :- Digest(file);
    HeaderFits(file);
    AttestationsIn(sha, file[HEADER_LENGTH..], digest)
  }

  function Assemble(digest: Hash, reply: Bytes): Bytes {
    HEADER_MAGIC + Minimal(MAJOR_VERSION) + [OP_SHA256] + digest + reply
  }

  function FromCalendarReply(sha: Sha, digest: Hash, reply: Bytes): Result<Bytes, OtsError> {
    var file := Assemble(digest, reply);
    var cs :- Commitments(sha, file);
    if cs == [] then Err(Malformed) else Ok(file)
  }

  lemma AssembledHeader(digest: Hash, reply: Bytes)
    ensures ReadHeader(Assemble(digest, reply)) == Ok((digest, reply))
    ensures HEADER_LENGTH <= |Assemble(digest, reply)| && Assemble(digest, reply)[HEADER_LENGTH..] == reply
  {
    var file := Assemble(digest, reply);
    var b1 := file[|HEADER_MAGIC|..];
    var b2 := [OP_SHA256] + digest + reply;
    assert file == HEADER_MAGIC + (Minimal(MAJOR_VERSION) + b2);
    assert b1 == Minimal(MAJOR_VERSION) + b2;
    VaruintInverts(MAJOR_VERSION, b2);
    assert b2[1..][..32] == digest && b2[1..][32..] == reply;
    assert Minimal(MAJOR_VERSION) == [1];
  }

  /** A file built from a calendar reply is accepted exactly when the reply is a timestamp and
      nothing else; it is about the submitted digest; its commitments are those of the reply
      read from that digest; and the "no attestation" refusal never fires. */
  lemma CalendarReply(sha: Sha, digest: Hash, reply: Bytes)
    ensures FromCalendarReply(sha, digest, reply).Ok? <==> AttestationsIn(sha, reply, digest).Ok?
    ensures FromCalendarReply(sha, digest, reply).Ok? ==>
              var file := FromCalendarReply(sha, digest, reply).value;
              CommitsTo(file, digest).Ok? && Commitments(sha, file) == AttestationsIn(sha, reply, digest)
              && |Commitments(sha, file).value| > 0
    ensures AttestationsIn(sha, reply, digest).Ok?
       <==> exists s :: StampOk(s) && reply == Serialize(s)
  {
    AssembledHeader(digest, reply);
    if AttestationsIn(sha, reply, digest).Ok? {
      var s := WalkIsStamp(sha, reply, digest);
      assert Serialize(s) + [] == Serialize(s);
    }
    forall s | StampOk(s) && reply == Serialize(s)
      ensures AttestationsIn(sha, reply, digest).Ok?
    {
      assert reply == Serialize(s) + [];
      WalkReads(sha, s, [], digest);
    }
  }

  /** `digest` reads a version of any length but `commitments` skips one byte of it, so for a file
      with a readable header the walk starts right after the digest if and only if the version is
      written as the single byte 1. */
  lemma CommitmentsOffsetIff(file: Bytes)
    requires ReadHeader(file).Ok?
    ensures HEADER_LENGTH <= |file|
    ensures file[HEADER_LENGTH..] == ReadHeader(file).value.1 <==> file[|HEADER_MAGIC|] == MAJOR_VERSION
  {
    HeaderFits(file);
    var b1 := file[|HEADER_MAGIC|..];
    var (version, b2) := Varuint(b1).value;
    var v := ReadIsEncoding(b1, 0, 0);
    assert |b2| == |b1| - |v|;
    var rest := ReadHeader(file).value.1;
    assert |rest| == |b2| - 33;
    if |v| == 1 {
      ReadsEncoding(v, b2, 0, 0);
      assert b1[0] == v[0] && v[1..] == [];
      assert rest == b1[34..] == file[HEADER_LENGTH..];
    } else {
      assert b1[0] == v[0] >= 128;
      assert |file[HEADER_LENGTH..]| != |rest|;
    }
  }

  /** A file on which the two disagree: version 1 written in two bytes. */
  lemma LongVersionExample(digest: Hash, reply: Bytes)
    ensures var file := HEADER_MAGIC + [0x81, 0x00, OP_SHA256] + digest + reply;
            Digest(file) == Ok(digest) && HEADER_LENGTH <= |file|
            && file[HEADER_LENGTH..] == [digest[31]] + reply
  {
    var file := HEADER_MAGIC + [0x81, 0x00, OP_SHA256] + digest + reply;
    var b2 := [OP_SHA256] + digest + reply;
    var b1 := file[|HEADER_MAGIC|..];
    assert b1 == [0x81, 0x00] + b2;
    var v: Bytes := [0x81, 0x00];
    assert v[1..] == [0x00] && v[1..][1..] == [];
    assert Meaning(v) == 1;
    assert Encodes(v, 1);
    VaruintIff(b1, 1, b2);
    assert b2[1..][..32] == digest && b2[1..][32..] == reply;
    HeaderFits(file);
  }

  /** And what that does: if the digest ends in the byte that means SHA-256, the file is accepted, it
      commits to the digest, and every commitment it yields is derived from the digest's hash. */
  lemma LongVersionMisleads(sha: Sha, digest: Hash, reply: Bytes)
    requires digest[31] == OP_SHA256
    ensures var file := HEADER_MAGIC + [0x81, 0x00, OP_SHA256] + digest + reply;
            CommitsTo(file, digest).Ok? && Commitments(sha, file) == AttestationsIn(sha, reply, sha(digest))
  {
    hide Digest;
    LongVersionExample(digest, reply);
    var rest := [digest[31]] + reply;
    assert rest[1..] == reply;
  }

  // ----- The two replies a calendar gives -----

  function Argument(bytes: Bytes): Bytes { Minimal(|bytes|) + bytes }

  /** A reply that a block of this height carries the commitment. */
  function BlockReply(height: nat): Bytes {
    [ATTESTATION_TAG] + (BITCOIN_ATTESTATION + Argument(Minimal(height)))
  }

  /** A reply that the calendar at `uri` still waits for a block. */
  function WaitReply(uri: Bytes): Bytes { [ATTESTATION_TAG] + (PENDING_ATTESTATION + Argument(Argument(uri))) }

  lemma OneAttestation(sha: Sha, tag: Bytes, payload: Bytes, msg: Bytes)
    requires |tag| == 8 && |payload| < U64 && Interpret(tag, payload).Ok?
    ensures AttestationsIn(sha, [ATTESTATION_TAG] + (tag + Argument(payload)), msg)
         == Ok([Commitment(Interpret(tag, payload).value, msg)])
  {
    hide Interpret, Walk, Minimal;
    var arg := Arg(Minimal(|payload|), payload);
    VaruintInverts(|payload|, []);
    var s := Attest(tag, arg);
    WalkReads(sha, s, [], msg);
    assert Serialize(s) + [] == [ATTESTATION_TAG] + (tag + Argument(payload));
  }

  /** Every height a calendar can write is attested by some reply. */
  lemma BlockReplyAttests(sha: Sha, height: nat, msg: Bytes)
    requires height < U64
    ensures AttestationsIn(sha, BlockReply(height), msg) == Ok([Commitment(Bitcoin(height), msg)])
  {
    hide Walk, AttestationsIn;
    VaruintInverts(height, []);
    assert Minimal(height) + [] == Minimal(height);
    OneAttestation(sha, BITCOIN_ATTESTATION, Minimal(height), msg);
  }

  lemma WaitReplyWaits(sha: Sha, uri: Bytes, msg: Bytes)
    requires |Argument(uri)| < U64 && IsUtf8(uri)
    ensures AttestationsIn(sha, WaitReply(uri), msg) == Ok([Commitment(Pending(uri), msg)])
  {
    hide Walk, AttestationsIn, Minimal, Varuint;
    VaruintInverts(|uri|, uri);
    assert uri[..|uri|] == uri;
    OneAttestation(sha, PENDING_ATTESTATION, Argument(uri), msg);
  }

  // ----- One stream, one tree -----

  lemma {:induction false} TerminatedPrefixFree(v: Bytes, x: Bytes, w: Bytes, y: Bytes)
    requires Terminated(v) && Terminated(w) && v + x == w + y
    ensures v == w && x == y
  {
    assert v[0] == (v + x)[0] && w[0] == (w + y)[0];
    assert (v + x)[1..] == v[1..] + x && (w + y)[1..] == w[1..] + y;
    if |v| > 1 && |w| > 1 {
      TerminatedPrefixFree(v[1..], x, w[1..], y);
      assert v == [v[0]] + v[1..] && w == [w[0]] + w[1..];
    } else {
      assert |v| == 1 && |w| == 1;
      assert v == [v[0]] && w == [w[0]] && v[1..] + x == x && w[1..] + y == y;
    }
  }

  lemma ArgUnique(a: Arg, r: Bytes, b: Arg, q: Bytes)
    requires ArgOk(a) && ArgOk(b) && ArgBytes(a) + r == ArgBytes(b) + q
    ensures a == b && r == q
  {
    hide Meaning, Terminated;
    var x, y := a.bytes + r, b.bytes + q;
    assert ArgBytes(a) + r == a.length + x && ArgBytes(b) + q == b.length + y;
    TerminatedPrefixFree(a.length, x, b.length, y);
    assert a.bytes == x[..|a.bytes|] && r == x[|a.bytes|..];
    assert b.bytes == y[..|b.bytes|] && q == y[|b.bytes|..];
  }

  lemma AttestationUnique(tag: Bytes, a: Arg, r: Bytes, tag': Bytes, b: Arg, q: Bytes)
    requires AttOk(tag, a) && AttOk(tag', b) && (tag + ArgBytes(a)) + r == (tag' + ArgBytes(b)) + q
    ensures tag == tag' && a == b && r == q
  {
    hide Interpret, ArgOk, ArgBytes;
    var x, y := (tag + ArgBytes(a)) + r, (tag' + ArgBytes(b)) + q;
    assert tag == x[..8] && tag' == y[..8];
    assert ArgBytes(a) + r == x[8..] && ArgBytes(b) + q == y[8..];
    ArgUnique(a, r, b, q);
  }

  lemma OperationUnique(op: Operation, r: Bytes, other: Operation, q: Bytes)
    requires OpOk(op) && OpOk(other) && OpTag(op) == OpTag(other) && OpArg(op) + r == OpArg(other) + q
    ensures op == other && r == q
  {
    hide ArgOk, ArgBytes;
    if op.Append? || op.Prepend? {
      ArgUnique(op.arg, r, other.arg, q);
    } else {
      assert [] + r == r && [] + q == q;
    }
  }

  /** What the first bytes of a serialization say: its kind, and what follows. */
  ghost function Tags(s: Stamp): Bytes {
    match s
    case Attest(_, _) => [0x00]
    case Last(op, _) => [OpTag(op)]
    case AttestAnd(_, _, _) => [0xff, 0x00]
    case Fork(op, _, _) => [0xff, OpTag(op)]
  }

  ghost function Body(s: Stamp): Bytes {
    match s
    case Attest(tag, payload) => tag + ArgBytes(payload)
    case Last(op, next) => OpArg(op) + Serialize(next)
    case AttestAnd(tag, payload, rest) => (tag + ArgBytes(payload)) + Serialize(rest)
    case Fork(op, branch, rest) => OpArg(op) + (Serialize(branch) + Serialize(rest))
  }

  lemma TagsThenBody(s: Stamp)
    ensures Serialize(s) == Tags(s) + Body(s)
    ensures |Tags(s)| == if Tags(s)[0] == 0xff then 2 else 1
  {
    hide ArgBytes, OpArg;
  }

  lemma SameTags(s: Stamp, r: Bytes, t: Stamp, q: Bytes)
    requires Serialize(s) + r == Serialize(t) + q
    ensures Tags(s) == Tags(t) && Body(s) + r == Body(t) + q
  {
    hide Serialize, Body, Tags;
    TagsThenBody(s);
    TagsThenBody(t);
    var x, y, n := Serialize(s) + r, Serialize(t) + q, |Tags(s)|;
    assert x[0] == Tags(s)[0] && y[0] == Tags(t)[0];
    assert Tags(s) == x[..n] && Tags(t) == y[..n];
    assert Body(s) + r == x[n..] && Body(t) + q == y[n..];
  }

  lemma SameKind(s: Stamp, t: Stamp)
    requires Tags(s) == Tags(t)
    ensures (s.Attest? <==> t.Attest?) && (s.Last? <==> t.Last?)
    ensures (s.AttestAnd? <==> t.AttestAnd?) && (s.Fork? <==> t.Fork?)
    ensures s.Last? || s.Fork? ==> OpTag(s.op) == OpTag(t.op)
  {
    assert Tags(s)[0] == Tags(t)[0];
    assert |Tags(s)| == 2 ==> Tags(s)[1] == Tags(t)[1];
  }

  lemma UniqueLast(s: Stamp, r: Bytes, t: Stamp, q: Bytes)
    requires StampOk(s) && StampOk(t) && s.Last? && t.Last? && OpTag(s.op) == OpTag(t.op)
    requires Body(s) + r == Body(t) + q
    ensures s.op == t.op && Serialize(s.next) + r == Serialize(t.next) + q
  {
    hide OpArg, Serialize, OpOk, OpTag;
    var x, y := Serialize(s.next) + r, Serialize(t.next) + q;
    assert Body(s) + r == OpArg(s.op) + x && Body(t) + q == OpArg(t.op) + y;
    OperationUnique(s.op, x, t.op, y);
  }

  lemma UniqueAttestAnd(s: Stamp, r: Bytes, t: Stamp, q: Bytes)
    requires StampOk(s) && StampOk(t) && s.AttestAnd? && t.AttestAnd? && Body(s) + r == Body(t) + q
    ensures s.tag == t.tag && s.payload == t.payload && Serialize(s.rest) + r == Serialize(t.rest) + q
  {
    hide ArgBytes, Serialize, AttOk;
    var x, y := Serialize(s.rest) + r, Serialize(t.rest) + q;
    var a, b := s.tag + ArgBytes(s.payload), t.tag + ArgBytes(t.payload);
    assert Body(s) + r == a + x && Body(t) + q == b + y;
    AttestationUnique(s.tag, s.payload, x, t.tag, t.payload, y);
  }

  lemma Regroup(a: Bytes, b: Bytes, c: Bytes, d: Bytes)
    ensures (a + (b + c)) + d == a + (b + (c + d))
  {
  }

  lemma UniqueFork(s: Stamp, r: Bytes, t: Stamp, q: Bytes)
    requires StampOk(s) && StampOk(t) && s.Fork? && t.Fork? && OpTag(s.op) == OpTag(t.op)
    requires Body(s) + r == Body(t) + q
    ensures s.op == t.op
    ensures Serialize(s.branch) + (Serialize(s.rest) + r) == Serialize(t.branch) + (Serialize(t.rest) + q)
  {
    hide OpArg, Serialize, OpOk, OpTag;
    Regroup(OpArg(s.op), Serialize(s.branch), Serialize(s.rest), r);
    Regroup(OpArg(t.op), Serialize(t.branch), Serialize(t.rest), q);
    var x := Serialize(s.branch) + (Serialize(s.rest) + r);
    var y := Serialize(t.branch) + (Serialize(t.rest) + q);
    OperationUnique(s.op, x, t.op, y);
  }

  /** The operation tree is unique: one stream is the serialization of one timestamp, followed by
      one remainder. */
  lemma {:induction false} SerializeUnique(s: Stamp, r: Bytes, t: Stamp, q: Bytes)
    requires StampOk(s) && StampOk(t) && Serialize(s) + r == Serialize(t) + q
    ensures s == t && r == q
    decreases s
  {
    hide ArgBytes, OpArg, Serialize, AttOk, OpOk, OpTag, Tags;
    SameTags(s, r, t, q);
    SameKind(s, t);
    match s
    case Attest(tag, payload) => AttestationUnique(tag, payload, r, t.tag, t.payload, q);
    case Last(_, next) =>
      hide Body;
      UniqueLast(s, r, t, q);
      SerializeUnique(next, r, t.next, q);
    case AttestAnd(_, _, rest) =>
      hide Body;
      UniqueAttestAnd(s, r, t, q);
      SerializeUnique(rest, r, t.rest, q);
    case Fork(_, branch, rest) =>
      hide Body;
      UniqueFork(s, r, t, q);
      SerializeUnique(branch, Serialize(rest) + r, t.branch, Serialize(t.rest) + q);
      SerializeUnique(rest, r, t.rest, q);
  }
}

/**
 The moments that the commitment layer signs about itself. A moment's id is the hash of its
 canonical bytes (crates/cc-core/src/lib.rs), and its body is the hash of what it records
 (crates/cc-anchor/src/store.rs), so an id is determined by everything the moment says.
 */
module Moments {
  import opened Bytes
  import opened Merkle
  import opened RootStream
  import opened Codec
  import Digits

  /** A coordinate as its 32 canonical bytes. */
  type Tick = Hash

  type Word = s: Bytes | |s| == 8 witness [0, 0, 0, 0, 0, 0, 0, 0]

  const NODE_ZERO: Bytes := [0, 0, 0, 0, 0, 0, 0, 0]

  /** A framed field longer than this is a panic. */
  const FRAME_LIMIT: nat := 0x1_0000_0000

  /** "cc.moment.v0", framed, then the canon and constants versions. */
  const MOMENT_HEAD: Bytes :=
    [0, 0, 0, 12, 0x63, 0x63, 0x2e, 0x6d, 0x6f, 0x6d, 0x65, 0x6e, 0x74, 0x2e, 0x76, 0x30, 0, 0, 0, 0]

  /** "cc.anchor.root.v0", framed. */
  const ROOT_HEAD: Bytes :=
    [0, 0, 0, 17, 0x63, 0x63, 0x2e, 0x61, 0x6e, 0x63, 0x68, 0x6f, 0x72, 0x2e, 0x72, 0x6f, 0x6f, 0x74, 0x2e, 0x76, 0x30]

  /** "cc.anchor.stamp.v0", framed. */
  const ANCHOR_HEAD: Bytes :=
    [0, 0, 0, 18, 0x63, 0x63, 0x2e, 0x61, 0x6e, 0x63, 0x68, 0x6f, 0x72, 0x2e, 0x73, 0x74, 0x61, 0x6d, 0x70, 0x2e,
     0x76, 0x30]

  function Framed(x: Bytes): Bytes { BigEndian(|x|, 4) + x }

  function Optional(x: Option<Bytes>): Bytes { if x.None? then [0] else [1] + x.value }

  // ----- What a moment is -----

  function MomentCanon(time: Tick, supersedes: Option<EventId>, subject: Word, body: Hash): Bytes {
    MOMENT_HEAD + time + Optional(supersedes) + subject + body
  }

  function MomentEvent(sha: Sha, time: Tick, supersedes: Option<EventId>, body: Hash): Event {
    var payload := MomentCanon(time, supersedes, NODE_ZERO, body);
    Event(sha(payload), supersedes, payload)
  }

  function RootBody(p: RootPublication): Bytes {
    ROOT_HEAD + BigEndian(p.height, 8) + BigEndian(p.treeSize, 8) + p.root + Optional(p.prevRoot)
  }

  /** What an anchor moment records. */
  datatype AnchorFacts = AnchorFacts(
    root: Hash, height: nat, status: AnchorStatus, blob: Hash, calendar: Bytes, blockHeight: Option<nat>,
    txid: Option<Bytes>)

  function HeightBytes(height: Option<nat>): Bytes {
    if height.None? then [0] else [1] + BigEndian(height.value, 8)
  }

  /** No transaction and an empty one are framed alike. */
  function TxidBytes(txid: Option<Bytes>): Bytes { if txid.None? then [] else txid.value }

  function AnchorBody(f: AnchorFacts): Bytes {
    ANCHOR_HEAD + f.root + BigEndian(f.height, 8) + [if f.status.Pending? then 0 else 1] + f.blob
    + Framed(f.calendar) + HeightBytes(f.blockHeight) + Framed(TxidBytes(f.txid))
  }

  function RootMoment(sha: Sha, p: RootPublication, now: Tick): Event { MomentEvent(sha, now, None, sha(RootBody(p))) }

  function AnchorMoment(sha: Sha, f: AnchorFacts, supersedes: Option<EventId>, now: Tick): Event {
    MomentEvent(sha, now, supersedes, sha(AnchorBody(f)))
  }

  // ----- One payload, one moment -----

  /** Where the fields of a moment stand in its canonical bytes. */
  lemma MomentCanonSplits(t: Tick, s: Option<EventId>, n: Word, b: Hash)
    ensures var x := MomentCanon(t, s, n, b);
            |x| == 92 + |Optional(s)| && t == x[20..52] && Optional(s) == x[52..|x| - 40]
            && n == x[|x| - 40..|x| - 32] && b == x[|x| - 32..]
  {
    hide Optional;
    var x, o := MomentCanon(t, s, n, b), Optional(s);
    var front := MOMENT_HEAD + t;
    assert |front| == 52 && t == front[20..52];
    assert x == front + o + n + b;
  }

  lemma OptionalInjective(s: Option<EventId>, t: Option<EventId>)
    requires Optional(s) == Optional(t)
    ensures s == t
  {
    assert s.Some? ==> s.value == Optional(s)[1..];
    assert t.Some? ==> t.value == Optional(t)[1..];
  }

  /** The canonical bytes of a moment determine everything it says. */
  lemma MomentCanonInjective(
    t: Tick, s: Option<EventId>, n: Word, b: Hash, t': Tick, s': Option<EventId>, n': Word, b': Hash)
    requires MomentCanon(t, s, n, b) == MomentCanon(t', s', n', b')
    ensures t == t' && s == s' && n == n' && b == b'
  {
    hide MomentCanon, Optional;
    MomentCanonSplits(t, s, n, b);
    MomentCanonSplits(t', s', n', b');
    OptionalInjective(s, s');
  }

  /** A stored event whose id is the hash of its payload and whose supersedes column, if its
      payload is a moment, is the one the payload names: what a signed event always is. */
  ghost predicate Authentic(sha: Sha, e: Event) {
    e.id == sha(e.payload)
    && forall t, s, n, b :: e.payload == MomentCanon(t, s, n, b) ==> e.supersedes == s
  }

  lemma MomentIsAuthentic(sha: Sha, time: Tick, supersedes: Option<EventId>, body: Hash)
    ensures Authentic(sha, MomentEvent(sha, time, supersedes, body))
  {
    hide MomentCanon;
    forall t, s, n, b | MomentCanon(time, supersedes, NODE_ZERO, body) == MomentCanon(t, s, n, b)
      ensures s == supersedes
    {
      MomentCanonInjective(time, supersedes, NODE_ZERO, body, t, s, n, b);
    }
  }

  // ----- One body, one record -----

  lemma NumberInjective(m: nat, n: nat, width: nat)
    requires m < Digits.Span(Digits.Octets, width) && n < Digits.Span(Digits.Octets, width)
    requires BigEndian(m, width) == BigEndian(n, width)
    ensures m == n
  {
    Digits.ValueOfWrite(Digits.Octets, m, width);
    Digits.ValueOfWrite(Digits.Octets, n, width);
  }

  lemma U64Injective(m: nat, n: nat)
    requires m < U64 && n < U64 && BigEndian(m, 8) == BigEndian(n, 8)
    ensures m == n
  {
    hide BigEndian;
    SpanOf8();
    NumberInjective(m, n, 8);
  }

  lemma FramedSplits(x: Bytes, r: Bytes, y: Bytes, s: Bytes)
    requires |x| < FRAME_LIMIT && |y| < FRAME_LIMIT && Framed(x) + r == Framed(y) + s
    ensures x == y && r == s
  {
    hide BigEndian;
    var a, b := Framed(x) + r, Framed(y) + s;
    assert BigEndian(|x|, 4) == a[..4] && BigEndian(|y|, 4) == b[..4];
    Spans();
    NumberInjective(|x|, |y|, 4);
    assert x == a[4..4 + |x|] && y == b[4..4 + |y|];
    assert r == a[4 + |x|..] && s == b[4 + |y|..];
  }

  /** A root moment's body determines what it records. */
  lemma RootBodyIff(p: RootPublication, q: RootPublication)
    requires p.height < U64 && q.height < U64 && p.treeSize < U64 && q.treeSize < U64
    ensures RootBody(p) == RootBody(q)
       <==> p.height == q.height && p.treeSize == q.treeSize && p.root == q.root && p.prevRoot == q.prevRoot
  {
    hide BigEndian;
    var x, y := RootBody(p), RootBody(q);
    if x == y {
      assert BigEndian(p.height, 8) == x[21..29] && BigEndian(q.height, 8) == y[21..29];
      assert BigEndian(p.treeSize, 8) == x[29..37] && BigEndian(q.treeSize, 8) == y[29..37];
      U64Injective(p.height, q.height);
      U64Injective(p.treeSize, q.treeSize);
      assert p.root == x[37..69] && q.root == y[37..69];
      assert Optional(p.prevRoot) == x[69..] && Optional(q.prevRoot) == y[69..];
      assert p.prevRoot.Some? ==> p.prevRoot.value == x[69..][1..];
      assert q.prevRoot.Some? ==> q.prevRoot.value == y[69..][1..];
    }
  }

  ghost predicate FactsFit(f: AnchorFacts) {
    f.height < U64 && (f.blockHeight.Some? ==> f.blockHeight.value < U64)
    && |f.calendar| < FRAME_LIMIT && |TxidBytes(f.txid)| < FRAME_LIMIT
  }

  /** What follows the proof's address in an anchor body. */
  function AnchorTail(f: AnchorFacts): Bytes {
    Framed(f.calendar) + (HeightBytes(f.blockHeight) + Framed(TxidBytes(f.txid)))
  }

  lemma AnchorBodySplits(f: AnchorFacts)
    ensures var x := AnchorBody(f);
            |x| >= 95 && f.root == x[22..54] && BigEndian(f.height, 8) == x[54..62]
            && x[62] == (if f.status.Pending? then 0 else 1) && f.blob == x[63..95] && AnchorTail(f) == x[95..]
  {
    hide BigEndian, Framed, HeightBytes, TxidBytes;
    var x := AnchorBody(f);
    var front := ANCHOR_HEAD + f.root + BigEndian(f.height, 8) + [if f.status.Pending? then 0 else 1] + f.blob;
    assert x == front + AnchorTail(f);
    assert f.root == front[22..54] && BigEndian(f.height, 8) == front[54..62] && f.blob == front[63..95];
  }

  lemma AnchorTailInjective(f: AnchorFacts, g: AnchorFacts)
    requires FactsFit(f) && FactsFit(g) && AnchorTail(f) == AnchorTail(g)
    ensures f.calendar == g.calendar && f.blockHeight == g.blockHeight && TxidBytes(f.txid) == TxidBytes(g.txid)
  {
    hide BigEndian, Framed, TxidBytes;
    var a, b := HeightBytes(f.blockHeight), HeightBytes(g.blockHeight);
    var t, u := Framed(TxidBytes(f.txid)), Framed(TxidBytes(g.txid));
    FramedSplits(f.calendar, a + t, g.calendar, b + u);
    assert (a + t)[0] == a[0] && (b + u)[0] == b[0];
    assert |a| == |b|;
    assert a == (a + t)[..|a|] && b == (b + u)[..|b|];
    assert t == (a + t)[|a|..] && u == (b + u)[|b|..];
    if f.blockHeight.Some? {
      assert BigEndian(f.blockHeight.value, 8) == a[1..] && BigEndian(g.blockHeight.value, 8) == b[1..];
      U64Injective(f.blockHeight.value, g.blockHeight.value);
    }
    assert t + [] == t && u + [] == u;
    FramedSplits(TxidBytes(f.txid), [], TxidBytes(g.txid), []);
  }

  /** An anchor moment's body determines what it records, except that it does not tell an absent
      transaction from an empty one. */
  lemma AnchorBodyIff(f: AnchorFacts, g: AnchorFacts)
    requires FactsFit(f) && FactsFit(g)
    ensures AnchorBody(f) == AnchorBody(g)
       <==> f.(txid := None) == g.(txid := None) && TxidBytes(f.txid) == TxidBytes(g.txid)
  {
    if AnchorBody(f) == AnchorBody(g) {
      hide BigEndian, Framed, TxidBytes, HeightBytes, AnchorBody, AnchorTail;
      AnchorBodySplits(f);
      AnchorBodySplits(g);
      U64Injective(f.height, g.height);
      AnchorTailInjective(f, g);
    }
  }

  /** A root moment and an anchor moment never hash the same body. */
  lemma RootIsNotAnchor(p: RootPublication, f: AnchorFacts)
    ensures RootBody(p) != AnchorBody(f)
  {
    hide BigEndian, Framed, HeightBytes;
    assert RootBody(p)[3] == 17 && AnchorBody(f)[3] == 18;
  }
}

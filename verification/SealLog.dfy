/**
 The operator's hash-chained log of node seals (ops/seal_v1.py).

 JSON is a parameter: a pair of functions of which only what the log relies on is required,
 namely that a canonical line reads back as its entry and contains no newline. A document that
 is not shaped as the program demands is one opaque value.
 */
module SealLog {
  import opened Bytes
  import opened Utf8
  import opened Codec
  import Digits

  const NEWLINE: byte := 10
  const GENESIS_PREV: Hash := ZERO32
  const MAX_BUILD := 64

  type u64 = n: nat | n < 0x1_0000_0000_0000_0000

  /** Printable ASCII, at most 64 bytes. */
  predicate IsBuild(s: Bytes) {
    1 <= |s| <= MAX_BUILD && IsUtf8(s) && forall i :: 0 <= i < |s| ==> 33 <= s[i] <= 126
  }

  const SAMPLE_BUILD: Bytes := [120]

  type Build = s: Bytes | IsBuild(s) witness SAMPLE_BUILD

  datatype Seal = Seal(
    instance: Hash, nodeKey: Hash, foldVersion: u16, foldManifest: Hash, filterVersion: Hash,
    corpusDigest: Hash, commitment: Hash, candidates: u64, build: Build, sealedAtUs: u64)

  datatype Doc = Malformed(raw: Bytes) | Doc(seal: Seal, signature: Bytes, nodeKey: Hash)

  datatype Entry = Entry(prev: Bytes, doc: Doc, fetchedAt: Bytes)

  datatype Expected = Expected(instance: Hash, foldVersion: u16, foldManifest: Hash, filterVersion: Hash)

  datatype SealError =
    SealInvalid | NodeKeyMismatch | IdentityDrift | LogBroken | TimeRegression | CountDecrease | CommitmentChanged

  type Verifier = (Hash, Bytes, Bytes) -> bool

  datatype Json = Json(encode: Entry -> Bytes, decode: Bytes -> Option<Entry>)

  predicate OneLine(b: Bytes) { forall i :: 0 <= i < |b| ==> b[i] != NEWLINE }

  ghost predicate JsonOk(json: Json) {
    forall e :: json.decode(json.encode(e)) == Some(e) && OneLine(json.encode(e))
  }

  // ----- The seal record -----

  function GetU64(b: Bytes): Result<(u64, Bytes), WireError> {
    var (n, rest) :- NumberGet(b, 8);
    SpanOf8();
    Digits.WriteOfValue(Digits.Octets, b[..8]);
    Ok((n, rest))
  }

  function U64Wire(): Codec<u64> { Codec((n: u64) => Ok(BigEndian(n, 8)), (b: Bytes) => GetU64(b)) }

  lemma U64Lawful()
    ensures Lawful(U64Wire())
  {
    SpanOf8();
    forall n: u64, rest: Bytes ensures GetU64(BigEndian(n, 8) + rest) == Ok((n, rest)) { NumberInverts(n, 8, rest); }
    forall b: Bytes | GetU64(b).Ok? ensures Rewrites(U64Wire(), b) { NumberCanonical(b, 8); }
  }

  type SealFields = (Hash, (Hash, (u16, (Hash, (Hash, (Hash, (Hash, (u64, (Text, u64)))))))))

  function CountsWire(): Codec<(u64, (Text, u64))> { Both(U64Wire(), Both(TextWire(), U64Wire())) }

  function DigestsWire(): Codec<(Hash, (Hash, (Hash, (u64, (Text, u64)))))> {
    Both(HashWire(), Both(HashWire(), Both(HashWire(), CountsWire())))
  }

  function SealWire(): Codec<SealFields> {
    Both(HashWire(), Both(HashWire(), Both(U16(), Both(HashWire(), DigestsWire()))))
  }

  lemma SealWireLawful()
    ensures Lawful(SealWire())
  {
    hide Lawful, Both;
    HashLawful();
    TextLawful();
    NumbersLawful();
    U64Lawful();
    BothLawful(TextWire(), U64Wire());
    BothLawful(U64Wire(), Both(TextWire(), U64Wire()));
    BothLawful(HashWire(), CountsWire());
    BothLawful(HashWire(), Both(HashWire(), CountsWire()));
    BothLawful(HashWire(), Both(HashWire(), Both(HashWire(), CountsWire())));
    BothLawful(HashWire(), DigestsWire());
    BothLawful(U16(), Both(HashWire(), DigestsWire()));
    BothLawful(HashWire(), Both(U16(), Both(HashWire(), DigestsWire())));
    BothLawful(HashWire(), Both(HashWire(), Both(U16(), Both(HashWire(), DigestsWire()))));
  }

  function SealFieldsOf(s: Seal): SealFields {
    (s.instance, (s.nodeKey, (s.foldVersion, (s.foldManifest, (s.filterVersion,
      (s.corpusDigest, (s.commitment, (s.candidates, (s.build, s.sealedAtUs)))))))))
  }

  /** "cc.seal.v1" with its length in front. */
  const DOMAIN_FRAME: Bytes := [0, 0, 0, 10, 0x63, 0x63, 0x2e, 0x73, 0x65, 0x61, 0x6c, 0x2e, 0x76, 0x31]

  lemma SealFits(s: Seal)
    ensures SealWire().put(SealFieldsOf(s)).Ok?
  {
    assert PutText(s.build).Ok?;
    assert Both(TextWire(), U64Wire()).put((s.build, s.sealedAtUs)).Ok?;
  }

  /** The canonical bytes a seal signature covers. */
  function EncodeSeal(s: Seal): Bytes {
    SealFits(s);
    DOMAIN_FRAME + SealWire().put(SealFieldsOf(s)).value
  }

  /** The signed bytes determine the seal. */
  lemma EncodeSealInjective(s: Seal, t: Seal)
    requires EncodeSeal(s) == EncodeSeal(t)
    ensures s == t
  {
    hide SealWire;
    SealWireLawful();
    SealFits(s);
    SealFits(t);
    var n := |DOMAIN_FRAME|;
    var p, q := SealWire().put(SealFieldsOf(s)).value, SealWire().put(SealFieldsOf(t)).value;
    assert p == EncodeSeal(s)[n..] && q == EncodeSeal(t)[n..];
    assert SealWire().get(p + []) == Ok((SealFieldsOf(s), []));
    assert SealWire().get(q + []) == Ok((SealFieldsOf(t), []));
  }

  function VerifySigned(verifies: Verifier, doc: Doc, key: Hash): Result<Seal, SealError> {
    if doc.Malformed? then Err(SealInvalid)
    else if doc.nodeKey != key || doc.seal.nodeKey != key then Err(NodeKeyMismatch)
    else if |doc.signature| != 64 then Err(SealInvalid)
    else if !verifies(key, EncodeSeal(doc.seal), doc.signature) then Err(SealInvalid)
    else Ok(doc.seal)
  }

  function RequireIdentity(seal: Seal, expected: Expected): Result<Seal, SealError> {
    if seal.instance != expected.instance || seal.foldVersion != expected.foldVersion
       || seal.foldManifest != expected.foldManifest || seal.filterVersion != expected.filterVersion
    then Err(IdentityDrift) else Ok(seal)
  }

  function RequireSuccession(previous: Seal, seal: Seal): Result<Seal, SealError> {
    var changed := (if seal.corpusDigest != previous.corpusDigest then 1 else 0)
                   + (if seal.commitment != previous.commitment then 1 else 0);
    if seal.sealedAtUs <= previous.sealedAtUs then Err(TimeRegression)
    else if seal.candidates < previous.candidates then Err(CountDecrease)
    else if seal.candidates == previous.candidates && changed > 0 then Err(CommitmentChanged)
    else if seal.candidates > previous.candidates && changed != 2 then Err(CommitmentChanged)
    else Ok(seal)
  }

  /** A log line's own checks: key, signature and identity. */
  function CheckDoc(verifies: Verifier, doc: Doc, key: Hash, expected: Expected): Result<Seal, SealError> {
    var seal :- VerifySigned(verifies, doc, key);
    RequireIdentity(seal, expected)
  }

  // ----- The file -----

  function FirstNewline(data: Bytes): (i: nat)
    ensures i <= |data| && OneLine(data[..i])
    ensures i < |data| ==> data[i] == NEWLINE
  {
    if data == [] || data[0] == NEWLINE then 0
    else
      var i := FirstNewline(data[1..]);
      assert data[..i + 1] == [data[0]] + data[1..][..i];
      i + 1
  }

  /** The lines of a file that is empty or ends with a newline. */
  function Lines(data: Bytes): seq<Bytes>
    decreases |data|
  {
    if data == [] then []
    else
      var i := FirstNewline(data);
      if i == |data| then [data] else [data[..i]] + Lines(data[i + 1..])
  }

  /** A line must be a canonical entry that names the digest of the line before it. */
  function ReadLine(json: Json, line: Bytes, prev: Hash): Result<Entry, SealError> {
    match json.decode(line)
    case None => Err(LogBroken)
    case Some(e) => if e.prev != prev || json.encode(e) != line then Err(LogBroken) else Ok(e)
  }

  function ReadLines(sha: Sha, json: Json, lines: seq<Bytes>, prev: Hash): Result<seq<Entry>, SealError> {
    if lines == [] then Ok([])
    else
      var entry :- ReadLine(json, lines[0], prev);
      var rest :- ReadLines(sha, json, lines[1..], sha(lines[0]));
      Ok([entry] + rest)
  }

  function ReadLog(sha: Sha, json: Json, data: Bytes): Result<seq<Entry>, SealError> {
    if data != [] && data[|data| - 1] != NEWLINE then Err(LogBroken)
    else ReadLines(sha, json, Lines(data), GENESIS_PREV)
  }

  /** The reading loop, carrying the digest of the previous line. */
  method ReadLogLoop(sha: Sha, json: Json, data: Bytes) returns (r: Result<seq<Entry>, SealError>)
    ensures r == ReadLog(sha, json, data)
  {
    if |data| > 0 && data[|data| - 1] != NEWLINE {
      return Err(LogBroken);
    }
    var lines, entries, prev := Lines(data), [], GENESIS_PREV;
    ghost var goal := ReadLines(sha, json, lines, GENESIS_PREV);
    assert goal.Ok? ==> [] + goal.value == goal.value;
    assert lines[0..] == lines;
    for i := 0 to |lines|
      invariant var more := ReadLines(sha, json, lines[i..], prev);
                if more.Ok? then goal == Ok(entries + more.value) else goal == Err(more.error)
    {
      var line := lines[i];
      assert lines[i..][1..] == lines[i + 1..];
      var entry := ReadLine(json, line, prev);
      if entry.Err? {
        return Err(entry.error);
      }
      ghost var more := ReadLines(sha, json, lines[i + 1..], sha(line));
      assert more.Ok? ==> entries + ([entry.value] + more.value) == (entries + [entry.value]) + more.value;
      entries := entries + [entry.value];
      prev := sha(line);
    }
    assert entries + [] == entries;
    r := Ok(entries);
  }

  function VerifyEntries(
    verifies: Verifier, key: Hash, expected: Expected, entries: seq<Entry>, previous: Option<Seal>)
    : Result<Option<Seal>, SealError>
  {
    if entries == [] then Ok(previous)
    else
      var seal :- CheckDoc(verifies, entries[0].doc, key, expected);
      if previous.Some? && RequireSuccession(previous.value, seal).Err?
      then Err(RequireSuccession(previous.value, seal).error)
      else VerifyEntries(verifies, key, expected, entries[1..], Some(seal))
  }

  datatype Report = Report(entries: nat, headDigest: Option<Hash>, head: Option<Seal>)

  function VerifyLog(sha: Sha, json: Json, verifies: Verifier, data: Bytes, expected: Expected, key: Hash)
    : Result<Report, SealError>
  {
    var entries :- ReadLog(sha, json, data);
    var head :- VerifyEntries(verifies, key, expected, entries, None);
    Ok(Report(|entries|,
              if entries == [] then None else Some(sha(json.encode(entries[|entries| - 1]))), head))
  }

  /** The verifying loop, carrying the previous seal. */
  method VerifyLogLoop(sha: Sha, json: Json, verifies: Verifier, data: Bytes, expected: Expected, key: Hash)
    returns (r: Result<Report, SealError>)
    ensures r == VerifyLog(sha, json, verifies, data, expected, key)
  {
    hide CheckDoc, RequireSuccession, ReadLog;
    var entries :- ReadLogLoop(sha, json, data);
    var previous: Option<Seal> := None;
    ghost var goal := VerifyEntries(verifies, key, expected, entries, None);
    assert entries[0..] == entries;
    for i := 0 to |entries|
      invariant VerifyEntries(verifies, key, expected, entries[i..], previous) == goal
    {
      assert entries[i..][1..] == entries[i + 1..];
      var seal :- CheckDoc(verifies, entries[i].doc, key, expected);
      if previous.Some? {
        var _ :- RequireSuccession(previous.value, seal);
      }
      previous := Some(seal);
    }
    var head := if |entries| == 0 then None else Some(sha(json.encode(entries[|entries| - 1])));
    r := Ok(Report(|entries|, head, previous));
  }

  function HeadDigest(sha: Sha, json: Json, entries: seq<Entry>): Hash {
    if entries == [] then GENESIS_PREV else sha(json.encode(entries[|entries| - 1]))
  }

  /** Only the head is verified again, and only its signature. */
  function CheckHead(verifies: Verifier, key: Hash, entries: seq<Entry>, seal: Seal): Result<Seal, SealError> {
    if entries == [] then Ok(seal)
    else
      var previous :- VerifySigned(verifies, entries[|entries| - 1].doc, key);
      RequireSuccession(previous, seal)
  }

  function AppendLine(data: Bytes, line: Bytes): Bytes { data + line + [NEWLINE] }

  /** `record`: check the fetched document, check it against the head only, and append. */
  function Record(
    sha: Sha, json: Json, verifies: Verifier, data: Bytes, expected: Expected, key: Hash, doc: Doc, now: Bytes)
    : (Bytes, Result<nat, SealError>)
  {
    var checked := CheckDoc(verifies, doc, key, expected);
    if checked.Err? then (data, Err(checked.error))
    else
      var read := ReadLog(sha, json, data);
      if read.Err? then (data, Err(read.error))
      else
        var head := CheckHead(verifies, key, read.value, checked.value);
        if head.Err? then (data, Err(head.error))
        else
          (AppendLine(data, json.encode(Entry(HeadDigest(sha, json, read.value), doc, now))), Ok(|read.value| + 1))
  }

  /** The log file, extended in place. */
  class LogFile {
    var data: Bytes

    constructor ()
      ensures data == []
    {
      data := [];
    }

    method RecordSeal(
      sha: Sha, json: Json, verifies: Verifier, expected: Expected, key: Hash, doc: Doc, now: Bytes)
      returns (r: Result<nat, SealError>)
      modifies this
      ensures (data, r) == Record(sha, json, verifies, old(data), expected, key, doc, now)
    {
      var checked := CheckDoc(verifies, doc, key, expected);
      if checked.Err? {
        return Err(checked.error);
      }
      var read := ReadLogLoop(sha, json, data);
      if read.Err? {
        return Err(read.error);
      }
      var entries, prev := read.value, GENESIS_PREV;
      if |entries| > 0 {
        var head := entries[|entries| - 1];
        var previous := VerifySigned(verifies, head.doc, key);
        if previous.Err? {
          return Err(previous.error);
        }
        var succession := RequireSuccession(previous.value, checked.value);
        if succession.Err? {
          return Err(succession.error);
        }
        prev := sha(json.encode(head));
      }
      data := data + json.encode(Entry(prev, doc, now)) + [NEWLINE];
      r := Ok(|entries| + 1);
    }
  }
}

/** What a seal log means, over every sequence of recordings. */
module SealLogRuns {
  import opened Bytes
  import opened SealLog

  // ----- Files and entries -----

  ghost function Line(json: Json, e: Entry): Bytes { json.encode(e) }

  /** The file that holds exactly these entries. */
  ghost function FileOf(json: Json, entries: seq<Entry>): Bytes {
    if entries == [] then []
    else FileOf(json, entries[..|entries| - 1]) + Line(json, entries[|entries| - 1]) + [10]
  }

  /** Entry `i` names the digest of the line before it. */
  ghost predicate Links(sha: Sha, json: Json, entries: seq<Entry>, prev: Hash, i: nat)
    requires i < |entries|
  {
    entries[i].prev == if i == 0 then prev else sha(Line(json, entries[i - 1]))
  }

  ghost predicate Chained(sha: Sha, json: Json, entries: seq<Entry>, prev: Hash) {
    forall i: nat :: i < |entries| ==> Links(sha, json, entries, prev, i)
  }

  /** A seal may follow another if its clock is later and either nothing was added to the corpus and
      nothing changed, or something was added and both the digest and the commitment changed. */
  ghost predicate Succeeds(p: Seal, s: Seal) {
    p.sealedAtUs < s.sealedAtUs
    && ((s.candidates == p.candidates && s.corpusDigest == p.corpusDigest && s.commitment == p.commitment)
        || (s.candidates > p.candidates && s.corpusDigest != p.corpusDigest && s.commitment != p.commitment))
  }

  lemma SuccessionIff(p: Seal, s: Seal)
    ensures RequireSuccession(p, s) == Ok(s) <==> Succeeds(p, s)
    ensures RequireSuccession(p, s).Ok? <==> Succeeds(p, s)
  {
  }

  /** Entry `i` is in succession with the one before it. */
  ghost predicate Follows(entries: seq<Entry>, i: nat)
    requires 0 < i < |entries|
  {
    entries[i].doc.Doc? && entries[i - 1].doc.Doc? && Succeeds(entries[i - 1].doc.seal, entries[i].doc.seal)
  }

  /** A document that names the key and is signed by it over the seal's canonical bytes. */
  ghost predicate SignedBy(verifies: Verifier, doc: Doc, key: Hash) {
    doc.Doc? && doc.nodeKey == key && doc.seal.nodeKey == key
    && |doc.signature| == 64 && verifies(key, EncodeSeal(doc.seal), doc.signature)
  }

  /** A signed document about the expected identity. */
  ghost predicate Authentic(verifies: Verifier, doc: Doc, key: Hash, expected: Expected) {
    SignedBy(verifies, doc, key)
    && doc.seal.instance == expected.instance && doc.seal.foldVersion == expected.foldVersion
    && doc.seal.foldManifest == expected.foldManifest && doc.seal.filterVersion == expected.filterVersion
  }

  lemma CheckDocIff(verifies: Verifier, doc: Doc, key: Hash, expected: Expected)
    ensures CheckDoc(verifies, doc, key, expected).Ok? <==> Authentic(verifies, doc, key, expected)
    ensures VerifySigned(verifies, doc, key).Ok? <==> SignedBy(verifies, doc, key)
    ensures SignedBy(verifies, doc, key) ==> VerifySigned(verifies, doc, key) == Ok(doc.seal)
    ensures Authentic(verifies, doc, key, expected) ==>
              doc.Doc? && CheckDoc(verifies, doc, key, expected) == Ok(doc.seal)
  {
    hide EncodeSeal;
  }

  /** Every seal is signed under the key and names the expected identity, and each follows the
      one before it. */
  ghost predicate Succession(verifies: Verifier, key: Hash, expected: Expected, entries: seq<Entry>) {
    (forall i :: 0 <= i < |entries| ==> Authentic(verifies, entries[i].doc, key, expected))
    && forall i :: 0 < i < |entries| ==> Follows(entries, i)
  }

  // ----- Lines -----

  lemma {:induction false} FirstNewlineIs(line: Bytes, rest: Bytes)
    requires OneLine(line)
    ensures FirstNewline(line + [NEWLINE] + rest) == |line|
  {
    if line == [] {
      assert (line + [NEWLINE] + rest)[0] == NEWLINE;
    } else {
      assert (line + [NEWLINE] + rest)[1..] == line[1..] + [NEWLINE] + rest;
      FirstNewlineIs(line[1..], rest);
    }
  }

  lemma LinesCons(line: Bytes, rest: Bytes)
    requires OneLine(line)
    ensures Lines(line + [NEWLINE] + rest) == [line] + Lines(rest)
  {
    var data := line + [NEWLINE] + rest;
    FirstNewlineIs(line, rest);
    assert data[..|line|] == line && data[|line| + 1..] == rest;
  }

  ghost predicate Ended(data: Bytes) { |data| == 0 || data[|data| - 1] == NEWLINE }

  /** The first line of a nonempty file and what follows it. */
  lemma FirstLine(data: Bytes) returns (head: Bytes, tail: Bytes)
    requires Ended(data) && |data| > 0
    ensures data == head + [NEWLINE] + tail && OneLine(head) && Ended(tail)
    ensures Lines(data) == [head] + Lines(tail)
  {
    var i := FirstNewline(data);
    assert data[..|data|] == data;
    assert i < |data|;
    head, tail := data[..i], data[i + 1..];
  }

  lemma NoLines()
    ensures Lines([]) == []
  {
  }

  lemma Regroup(data: Bytes, head: Bytes, tail: Bytes, line: Bytes)
    requires data == head + [NEWLINE] + tail
    ensures data + line + [NEWLINE] == head + [NEWLINE] + (tail + line + [NEWLINE])
  {
    assert head + [NEWLINE] + tail + line == head + [NEWLINE] + (tail + line);
  }

  lemma {:induction false} LinesSnoc(data: Bytes, line: Bytes)
    requires Ended(data) && OneLine(line)
    ensures Lines(data + line + [NEWLINE]) == Lines(data) + [line]
    decreases |data|
  {
    hide Lines, OneLine;
    if |data| == 0 {
      LinesCons(line, []);
      assert data + line + [NEWLINE] == line + [NEWLINE] + [];
      assert Lines([]) == [] by { NoLines(); }
      assert data == [];
    } else {
      var head, tail := FirstLine(data);
      hide Ended;
      LinesSnoc(tail, line);
      var more := tail + line + [NEWLINE];
      LinesCons(head, more);
      Regroup(data, head, tail, line);
      assert [head] + (Lines(tail) + [line]) == ([head] + Lines(tail)) + [line];
    }
  }

  ghost function LinesOf(json: Json, entries: seq<Entry>): (lines: seq<Bytes>)
    ensures |lines| == |entries|
  {
    seq(|entries|, i requires 0 <= i < |entries| => Line(json, entries[i]))
  }

  lemma {:induction false} LinesOfFile(json: Json, entries: seq<Entry>)
    requires JsonOk(json)
    ensures Lines(FileOf(json, entries)) == LinesOf(json, entries) && Ended(FileOf(json, entries))
  {
    if entries != [] {
      var k := |entries| - 1;
      LinesOfFile(json, entries[..k]);
      LinesSnoc(FileOf(json, entries[..k]), Line(json, entries[k]));
      assert LinesOf(json, entries) == LinesOf(json, entries[..k]) + [Line(json, entries[k])];
    }
  }

  /** A file's lines determine it. */
  lemma {:induction false} LinesDetermine(a: Bytes, b: Bytes)
    requires Ended(a) && Ended(b) && Lines(a) == Lines(b)
    ensures a == b
    decreases |a|
  {
    if |a| > 0 && |b| > 0 {
      hide Lines, OneLine, Ended;
      var p, q := FirstLine(a);
      var r, s := FirstLine(b);
      assert Lines(a)[0] == p && Lines(b)[0] == r;
      assert Lines(a)[1..] == Lines(q) && Lines(b)[1..] == Lines(s);
      LinesDetermine(q, s);
    }
  }

  // ----- Reading -----

  lemma ChainedTail(sha: Sha, json: Json, entries: seq<Entry>, prev: Hash)
    requires entries != []
    ensures Chained(sha, json, entries, prev)
       <==> entries[0].prev == prev && Chained(sha, json, entries[1..], sha(Line(json, entries[0])))
  {
    var tail, digest := entries[1..], sha(Line(json, entries[0]));
    assert Links(sha, json, entries, prev, 0) <==> entries[0].prev == prev;
    forall i: nat | i < |tail|
      ensures Links(sha, json, tail, digest, i) <==> Links(sha, json, entries, prev, i + 1)
    {
    }
    if entries[0].prev == prev && Chained(sha, json, tail, digest) {
      forall i: nat | i < |entries|
        ensures Links(sha, json, entries, prev, i)
      {
        if i > 0 { assert Links(sha, json, tail, digest, i - 1); }
      }
    }
  }

  lemma ReadLineIff(json: Json, line: Bytes, prev: Hash, e: Entry)
    requires JsonOk(json)
    ensures ReadLine(json, line, prev) == Ok(e) <==> line == Line(json, e) && e.prev == prev
  {
    assert json.decode(json.encode(e)) == Some(e);
  }

  lemma {:induction false} ReadLinesIff(sha: Sha, json: Json, lines: seq<Bytes>, prev: Hash, entries: seq<Entry>)
    requires JsonOk(json)
    ensures ReadLines(sha, json, lines, prev) == Ok(entries)
       <==> lines == LinesOf(json, entries) && Chained(sha, json, entries, prev)
    decreases |lines|
  {
    if |lines| == 0 {
      if |entries| == 0 { assert LinesOf(json, entries) == lines; }
    } else if |entries| > 0 {
      hide ReadLine, JsonOk, Chained;
      var e, tail := entries[0], entries[1..];
      assert entries == [e] + tail;
      assert LinesOf(json, entries) == [Line(json, e)] + LinesOf(json, tail);
      ReadLineIff(json, lines[0], prev, e);
      ChainedTail(sha, json, entries, prev);
      ReadLinesIff(sha, json, lines[1..], sha(lines[0]), tail);
      var rest := ReadLines(sha, json, lines[1..], sha(lines[0]));
      assert lines == [lines[0]] + lines[1..];
      if ReadLine(json, lines[0], prev).Ok? && rest.Ok? {
        var x := ReadLine(json, lines[0], prev).value;
        assert ([x] + rest.value)[0] == x && ([x] + rest.value)[1..] == rest.value;
      }
    }
  }

  /** `read_log` accepts a file with given entries if and only if the file is their canonical
      lines and they are chained from the genesis value. */
  lemma ReadLogIff(sha: Sha, json: Json, data: Bytes, entries: seq<Entry>)
    requires JsonOk(json)
    ensures ReadLog(sha, json, data) == Ok(entries)
       <==> data == FileOf(json, entries) && Chained(sha, json, entries, GENESIS_PREV)
  {
    LinesOfFile(json, entries);
    ReadLinesIff(sha, json, Lines(data), GENESIS_PREV, entries);
    if ReadLog(sha, json, data) == Ok(entries) {
      LinesDetermine(data, FileOf(json, entries));
    }
  }

  lemma SuccessionTail(verifies: Verifier, key: Hash, expected: Expected, entries: seq<Entry>)
    requires |entries| > 0
    ensures Succession(verifies, key, expected, entries)
       <==> Authentic(verifies, entries[0].doc, key, expected)
            && Succession(verifies, key, expected, entries[1..])
            && (|entries| > 1 ==> Follows(entries, 1))
  {
    hide Authentic, Succeeds;
    var tail := entries[1..];
    forall i: nat | 0 < i < |tail|
      ensures Follows(tail, i) <==> Follows(entries, i + 1)
    {
    }
    if Authentic(verifies, entries[0].doc, key, expected) && Succession(verifies, key, expected, tail)
       && (|entries| > 1 ==> Follows(entries, 1)) {
      forall i: nat | i < |entries|
        ensures Authentic(verifies, entries[i].doc, key, expected)
      {
        if i > 0 { assert entries[i] == tail[i - 1]; }
      }
      forall i: nat | 0 < i < |entries|
        ensures Follows(entries, i)
      {
        if i > 1 { assert Follows(tail, i - 1); }
      }
    }
  }

  lemma {:induction false} VerifyEntriesIff(
    verifies: Verifier, key: Hash, expected: Expected, entries: seq<Entry>, previous: Option<Seal>)
    ensures VerifyEntries(verifies, key, expected, entries, previous).Ok?
       <==> Succession(verifies, key, expected, entries)
            && (previous.Some? && |entries| > 0 ==>
                  entries[0].doc.Doc? && Succeeds(previous.value, entries[0].doc.seal))
    ensures VerifyEntries(verifies, key, expected, entries, previous).Ok? ==>
              if |entries| == 0 then VerifyEntries(verifies, key, expected, entries, previous) == Ok(previous)
              else entries[|entries| - 1].doc.Doc?
                   && VerifyEntries(verifies, key, expected, entries, previous)
                   == Ok(Some(entries[|entries| - 1].doc.seal))
  {
    if |entries| > 0 {
      hide CheckDoc, RequireSuccession, Succession, Succeeds;
      var doc := entries[0].doc;
      SuccessionTail(verifies, key, expected, entries);
      CheckDocIff(verifies, doc, key, expected);
      if CheckDoc(verifies, doc, key, expected).Ok? {
        if previous.Some? { SuccessionIff(previous.value, doc.seal); }
        VerifyEntriesIff(verifies, key, expected, entries[1..], Some(doc.seal));
      }
    }
  }

  /** What full verification reports of a log: how many entries, the digest of the last line, and
      the last seal. */
  ghost function ReportOf(sha: Sha, json: Json, entries: seq<Entry>): Report
    requires |entries| > 0 ==> entries[|entries| - 1].doc.Doc?
  {
    if |entries| == 0 then Report(0, None, None)
    else
      var last := entries[|entries| - 1];
      Report(|entries|, Some(sha(Line(json, last))), Some(last.doc.seal))
  }

  /** `verify_log` accepts exactly the files of chained entries in verified succession, and reports
      their number, the last line's digest and the last seal. */
  lemma VerifyLogIff(sha: Sha, json: Json, verifies: Verifier, data: Bytes, expected: Expected, key: Hash)
    requires JsonOk(json)
    ensures VerifyLog(sha, json, verifies, data, expected, key).Ok?
       <==> exists entries :: data == FileOf(json, entries) && Chained(sha, json, entries, GENESIS_PREV)
                              && Succession(verifies, key, expected, entries)
    ensures forall entries :: data == FileOf(json, entries) && Chained(sha, json, entries, GENESIS_PREV)
                              && Succession(verifies, key, expected, entries) ==>
              VerifyLog(sha, json, verifies, data, expected, key) == Ok(ReportOf(sha, json, entries))
  {
    hide ReadLog, VerifyEntries, EncodeSeal, Succeeds;
    var read := ReadLog(sha, json, data);
    if read.Ok? {
      ReadLogIff(sha, json, data, read.value);
      VerifyEntriesIff(verifies, key, expected, read.value, None);
    }
    forall entries | data == FileOf(json, entries) && Chained(sha, json, entries, GENESIS_PREV)
                     && Succession(verifies, key, expected, entries)
      ensures VerifyLog(sha, json, verifies, data, expected, key) == Ok(ReportOf(sha, json, entries))
    {
      ReadLogIff(sha, json, data, entries);
      VerifyEntriesIff(verifies, key, expected, entries, None);
    }
  }

  // ----- Whole runs -----

  datatype Attempt = Attempt(doc: Doc, now: Bytes)

  ghost function Run(
    sha: Sha, json: Json, verifies: Verifier, expected: Expected, key: Hash, attempts: seq<Attempt>): Bytes
  {
    if attempts == [] then []
    else
      var k := |attempts| - 1;
      var data := Run(sha, json, verifies, expected, key, attempts[..k]);
      Record(sha, json, verifies, data, expected, key, attempts[k].doc, attempts[k].now).0
  }

  lemma ChainedSnoc(sha: Sha, json: Json, entries: seq<Entry>, e: Entry)
    requires Chained(sha, json, entries, GENESIS_PREV)
    requires e.prev == if |entries| == 0 then GENESIS_PREV else sha(Line(json, entries[|entries| - 1]))
    ensures Chained(sha, json, entries + [e], GENESIS_PREV)
  {
    var more := entries + [e];
    forall i: nat | i < |more|
      ensures Links(sha, json, more, GENESIS_PREV, i)
    {
      if i < |entries| { assert Links(sha, json, entries, GENESIS_PREV, i); }
    }
  }

  lemma SuccessionSnoc(verifies: Verifier, key: Hash, expected: Expected, entries: seq<Entry>, e: Entry)
    requires Succession(verifies, key, expected, entries) && Authentic(verifies, e.doc, key, expected)
    requires |entries| > 0 ==> Succeeds(entries[|entries| - 1].doc.seal, e.doc.seal)
    ensures Succession(verifies, key, expected, entries + [e])
  {
    hide EncodeSeal, Succeeds;
    var more := entries + [e];
    forall i: nat | 0 < i < |more|
      ensures Follows(more, i)
    {
      if i < |entries| { assert Follows(entries, i); }
    }
  }

  /** What the head of a log allows next: anything signed if there is none, and otherwise what may
      follow it. Only the head's signature is looked at. */
  ghost predicate HeadAllows(verifies: Verifier, key: Hash, entries: seq<Entry>, seal: Seal) {
    |entries| > 0 ==>
      var head := entries[|entries| - 1].doc;
      SignedBy(verifies, head, key) && Succeeds(head.seal, seal)
  }

  /** The entry of a document recorded after these. */
  ghost function NextEntry(sha: Sha, json: Json, entries: seq<Entry>, doc: Doc, now: Bytes): Entry {
    Entry(if |entries| == 0 then GENESIS_PREV else sha(Line(json, entries[|entries| - 1])), doc, now)
  }

  lemma FileSnoc(json: Json, entries: seq<Entry>, e: Entry)
    ensures FileOf(json, entries + [e]) == FileOf(json, entries) + Line(json, e) + [NEWLINE]
  {
    var n, more := |entries|, entries + [e];
    assert more[..n] == entries && more[n] == e;
  }

  lemma HeadIff(verifies: Verifier, key: Hash, entries: seq<Entry>, seal: Seal)
    ensures CheckHead(verifies, key, entries, seal).Ok? <==> HeadAllows(verifies, key, entries, seal)
  {
    hide VerifySigned, SignedBy, RequireSuccession, Succeeds;
    if |entries| > 0 {
      var head := entries[|entries| - 1].doc;
      CheckDocIff(verifies, head, key, Expected(key, 0, key, key));
      if VerifySigned(verifies, head, key).Ok? {
        SuccessionIff(VerifySigned(verifies, head, key).value, seal);
      }
    }
  }

  /** Recording on a file that reads as `entries` appends the document's line exactly when the
      document is authentic and the head allows it. */
  lemma RecordOnLog(
    sha: Sha, json: Json, verifies: Verifier, expected: Expected, key: Hash, entries: seq<Entry>, doc: Doc, now: Bytes)
    requires JsonOk(json) && Chained(sha, json, entries, GENESIS_PREV)
    ensures var data := FileOf(json, entries);
            var (after, r) := Record(sha, json, verifies, data, expected, key, doc, now);
            if Authentic(verifies, doc, key, expected) && HeadAllows(verifies, key, entries, doc.seal)
            then r == Ok(|entries| + 1) && after == FileOf(json, entries + [NextEntry(sha, json, entries, doc, now)])
            else r.Err? && after == data
  {
    hide CheckDoc, CheckHead, Authentic, HeadAllows, ReadLog, Chained, JsonOk, FileOf;
    ReadLogIff(sha, json, FileOf(json, entries), entries);
    CheckDocIff(verifies, doc, key, expected);
    if CheckDoc(verifies, doc, key, expected).Ok? {
      HeadIff(verifies, key, entries, doc.seal);
    }
    FileSnoc(json, entries, NextEntry(sha, json, entries, doc, now));
  }

  /** `record` for any file and document: it appends one line if and only if the document is
      authentic, the file is a chained log and its head allows the seal; otherwise it changes
      nothing and fails. */
  lemma RecordIff(
    sha: Sha, json: Json, verifies: Verifier, data: Bytes, expected: Expected, key: Hash, doc: Doc, now: Bytes)
    requires JsonOk(json)
    ensures var (after, r) := Record(sha, json, verifies, data, expected, key, doc, now);
            (r.Ok? <==> Authentic(verifies, doc, key, expected)
                        && exists entries :: data == FileOf(json, entries)
                                             && Chained(sha, json, entries, GENESIS_PREV)
                                             && HeadAllows(verifies, key, entries, doc.seal))
            && (r.Err? ==> after == data)
  {
    hide CheckDoc, CheckHead, Authentic, HeadAllows, ReadLog, Chained, JsonOk, FileOf;
    CheckDocIff(verifies, doc, key, expected);
    var read := ReadLog(sha, json, data);
    if read.Ok? {
      ReadLogIff(sha, json, data, read.value);
      if CheckDoc(verifies, doc, key, expected).Ok? {
        HeadIff(verifies, key, read.value, doc.seal);
      }
    }
    forall entries | data == FileOf(json, entries) && Chained(sha, json, entries, GENESIS_PREV)
      ensures read == Ok(entries)
    {
      ReadLogIff(sha, json, data, entries);
    }
  }

  lemma AppendEntry(
    sha: Sha, json: Json, verifies: Verifier, expected: Expected, key: Hash, entries: seq<Entry>, doc: Doc, now: Bytes)
    returns (more: seq<Entry>)
    requires JsonOk(json) && Chained(sha, json, entries, GENESIS_PREV) && Succession(verifies, key, expected, entries)
    ensures Chained(sha, json, more, GENESIS_PREV) && Succession(verifies, key, expected, more)
    ensures Record(sha, json, verifies, FileOf(json, entries), expected, key, doc, now).0 == FileOf(json, more)
  {
    hide Record, Authentic, Chained, Succession, JsonOk, SignedBy, Succeeds;
    more := entries;
    RecordOnLog(sha, json, verifies, expected, key, entries, doc, now);
    CheckDocIff(verifies, doc, key, expected);
    if Authentic(verifies, doc, key, expected) && HeadAllows(verifies, key, entries, doc.seal) {
      var e := NextEntry(sha, json, entries, doc, now);
      more := entries + [e];
      ChainedSnoc(sha, json, entries, e);
      SuccessionSnoc(verifies, key, expected, entries, e);
    }
  }

  lemma EmptyIsVerified(sha: Sha, json: Json, verifies: Verifier, expected: Expected, key: Hash)
    ensures Chained(sha, json, [], GENESIS_PREV) && Succession(verifies, key, expected, [])
  {
  }

  lemma {:induction false} RunIsVerified(
    sha: Sha, json: Json, verifies: Verifier, expected: Expected, key: Hash, attempts: seq<Attempt>)
    returns (entries: seq<Entry>)
    requires JsonOk(json)
    ensures Run(sha, json, verifies, expected, key, attempts) == FileOf(json, entries)
    ensures Chained(sha, json, entries, GENESIS_PREV) && Succession(verifies, key, expected, entries)
  {
    hide Record, Chained, Succession;
    if attempts == [] {
      entries := [];
      EmptyIsVerified(sha, json, verifies, expected, key);
    } else {
      var k := |attempts| - 1;
      var before := RunIsVerified(sha, json, verifies, expected, key, attempts[..k]);
      entries := AppendEntry(sha, json, verifies, expected, key, before, attempts[k].doc, attempts[k].now);
    }
  }

  /** Whole runs: a log built from nothing by any attempts, accepted or refused, passes full
      verification, although each attempt checks only the head's signature and succession. */
  lemma RunVerifies(
    sha: Sha, json: Json, verifies: Verifier, expected: Expected, key: Hash, attempts: seq<Attempt>)
    requires JsonOk(json)
    ensures VerifyLog(sha, json, verifies, Run(sha, json, verifies, expected, key, attempts), expected, key).Ok?
  {
    var entries := RunIsVerified(sha, json, verifies, expected, key, attempts);
    VerifyLogIff(sha, json, verifies, Run(sha, json, verifies, expected, key, attempts), expected, key);
  }

  // ----- What a verified log says -----

  /** Between any two entries of a verified log the clock advances and the count does not fall, and
      equal counts mean the same corpus digest and commitment. */
  lemma {:induction false} EntriesOrdered(
    verifies: Verifier, key: Hash, expected: Expected, entries: seq<Entry>, i: nat, j: nat)
    requires Succession(verifies, key, expected, entries) && i < j < |entries|
    ensures entries[i].doc.Doc? && entries[j].doc.Doc?
    ensures var a, b := entries[i].doc.seal, entries[j].doc.seal;
            a.sealedAtUs < b.sealedAtUs && a.candidates <= b.candidates
            && (a.candidates == b.candidates ==> a.corpusDigest == b.corpusDigest && a.commitment == b.commitment)
    decreases j - i
  {
    hide EncodeSeal;
    assert Follows(entries, j);
    if i < j - 1 {
      EntriesOrdered(verifies, key, expected, entries, i, j - 1);
    }
  }

  /** Between neighbours the corpus digest and the commitment change together, and exactly when
      the count grows. */
  lemma NeighboursChangeTogether(verifies: Verifier, key: Hash, expected: Expected, entries: seq<Entry>, i: nat)
    requires Succession(verifies, key, expected, entries) && 0 < i < |entries|
    ensures entries[i - 1].doc.Doc? && entries[i].doc.Doc?
    ensures var a, b := entries[i - 1].doc.seal, entries[i].doc.seal;
            (a.candidates < b.candidates <==> a.corpusDigest != b.corpusDigest)
            && (a.candidates < b.candidates <==> a.commitment != b.commitment)
  {
    hide EncodeSeal;
    assert Follows(entries, i);
  }

  /** Whatever file full verification accepts, every entry read from it is signed under the key, over
      its own canonical bytes, and names the expected identity. */
  lemma AcceptedEntriesAreSigned(
    sha: Sha, json: Json, verifies: Verifier, data: Bytes, expected: Expected, key: Hash, entries: seq<Entry>, i: nat)
    requires VerifyLog(sha, json, verifies, data, expected, key).Ok?
    requires ReadLog(sha, json, data) == Ok(entries) && i < |entries|
    ensures var doc := entries[i].doc;
            doc.Doc? && |doc.signature| == 64 && verifies(key, EncodeSeal(doc.seal), doc.signature)
            && doc.nodeKey == doc.seal.nodeKey == key
            && var s := doc.seal; Expected(s.instance, s.foldVersion, s.foldManifest, s.filterVersion) == expected
  {
    hide EncodeSeal, Succeeds, ReadLog;
    VerifyEntriesIff(verifies, key, expected, entries, None);
    hide VerifyEntries;
    assert Authentic(verifies, entries[i].doc, key, expected);
  }

  // ----- Heads -----

  ghost predicate LinesCollide(sha: Sha, json: Json, a: seq<Entry>, b: seq<Entry>) {
    exists i, j :: 0 <= i < |a| && 0 <= j < |b| && Line(json, a[i]) != Line(json, b[j])
                   && sha(Line(json, a[i])) == sha(Line(json, b[j]))
  }

  /** Some line hashes to the value that stands for "no line before". */
  ghost predicate HitsGenesis(sha: Sha, json: Json, a: seq<Entry>) {
    exists i :: 0 <= i < |a| && sha(Line(json, a[i])) == GENESIS_PREV
  }

  lemma LineInjective(json: Json, a: Entry, b: Entry)
    requires JsonOk(json) && Line(json, a) == Line(json, b)
    ensures a == b
  {
    assert json.decode(json.encode(a)) == Some(a) && json.decode(json.encode(b)) == Some(b);
  }

  lemma {:induction false} SameHeadSameTail(sha: Sha, json: Json, a: seq<Entry>, b: seq<Entry>, n: nat)
    requires JsonOk(json) && Chained(sha, json, a, GENESIS_PREV) && Chained(sha, json, b, GENESIS_PREV)
    requires 0 < n <= |a| && n <= |b| && sha(Line(json, a[|a| - 1])) == sha(Line(json, b[|b| - 1]))
    requires !LinesCollide(sha, json, a, b)
    ensures a[|a| - n..] == b[|b| - n..]
  {
    hide JsonOk;
    var i, j := |a| - n, |b| - n;
    if n > 1 {
      SameHeadSameTail(sha, json, a, b, n - 1);
      assert a[i + 1] == a[|a| - (n - 1)..][0] == b[|b| - (n - 1)..][0] == b[j + 1];
      assert Links(sha, json, a, GENESIS_PREV, i + 1) && Links(sha, json, b, GENESIS_PREV, j + 1);
    }
    assert Line(json, a[i]) == Line(json, b[j]);
    LineInjective(json, a[i], b[j]);
    assert a[i..] == [a[i]] + a[i + 1..] && b[j..] == [b[j]] + b[j + 1..];
  }

  /** One head, one history: two logs accepted by `read_log` whose last lines have one digest are
      the same file, or two of their lines collide, or a line hashes to the genesis value. */
  lemma SameHeadSameLog(sha: Sha, json: Json, a: seq<Entry>, b: seq<Entry>)
    requires JsonOk(json) && Chained(sha, json, a, GENESIS_PREV) && Chained(sha, json, b, GENESIS_PREV)
    requires 0 < |a| <= |b| && sha(Line(json, a[|a| - 1])) == sha(Line(json, b[|b| - 1]))
    ensures a == b || LinesCollide(sha, json, a, b) || HitsGenesis(sha, json, b)
  {
    hide JsonOk, LinesCollide;
    if !LinesCollide(sha, json, a, b) {
      SameHeadSameTail(sha, json, a, b, |a|);
      var j := |b| - |a|;
      assert a[0..] == a;
      if j > 0 {
        assert a[0] == b[j..][0] == b[j];
        assert Links(sha, json, a, GENESIS_PREV, 0) && Links(sha, json, b, GENESIS_PREV, j);
        assert sha(Line(json, b[j - 1])) == GENESIS_PREV;
      }
    }
  }

  lemma ChainedPrefix(sha: Sha, json: Json, entries: seq<Entry>, n: nat)
    requires Chained(sha, json, entries, GENESIS_PREV) && n <= |entries|
    ensures Chained(sha, json, entries[..n], GENESIS_PREV)
  {
    forall i: nat | i < n
      ensures Links(sha, json, entries[..n], GENESIS_PREV, i)
    {
      assert Links(sha, json, entries, GENESIS_PREV, i);
    }
  }

  lemma FirstNamesGenesis(sha: Sha, json: Json, log: seq<Entry>)
    requires |log| > 0 && Chained(sha, json, log, GENESIS_PREV)
    ensures log[0].prev == GENESIS_PREV
  {
    assert Links(sha, json, log, GENESIS_PREV, 0);
  }

  lemma ForkAddsNoCollision(sha: Sha, json: Json, log: seq<Entry>, j: nat)
    requires j < |log| && LinesCollide(sha, json, [log[0]], log[..j + 1] + [log[0]])
    ensures LinesCollide(sha, json, log, log)
  {
    var short, long := [log[0]], log[..j + 1] + [log[0]];
    var i, k :| 0 <= i < |short| && 0 <= k < |long| && Line(json, short[i]) != Line(json, long[k])
                && sha(Line(json, short[i])) == sha(Line(json, long[k]));
    assert short[i] == log[0] && long[k] == log[if k <= j then k else 0];
  }

  lemma EmptyChained(sha: Sha, json: Json)
    ensures Chained(sha, json, [], GENESIS_PREV)
  {
  }

  /** The last case is real, whatever the log: as soon as one line of a log hashes to the genesis
      value, two different files that `read_log` accepts end in one line, and no two of their
      lines collide unless two lines of the log did. */
  lemma GenesisDigestForks(sha: Sha, json: Json, log: seq<Entry>, j: nat) returns (short: seq<Entry>, long: seq<Entry>)
    requires JsonOk(json) && Chained(sha, json, log, GENESIS_PREV)
    requires j < |log| && sha(Line(json, log[j])) == GENESIS_PREV
    ensures ReadLog(sha, json, FileOf(json, short)) == Ok(short) && ReadLog(sha, json, FileOf(json, long)) == Ok(long)
    ensures 0 < |short| < |long| && short[|short| - 1] == long[|long| - 1]
    ensures FileOf(json, short) != FileOf(json, long)
    ensures LinesCollide(sha, json, short, long) ==> LinesCollide(sha, json, log, log)
  {
    hide JsonOk, ReadLog, LinesCollide, Chained, Line, FileOf;
    var first := log[0];
    FirstNamesGenesis(sha, json, log);
    short, long := [first], log[..j + 1] + [first];
    EmptyChained(sha, json);
    ChainedSnoc(sha, json, [], first);
    assert [] + [first] == short;
    ChainedPrefix(sha, json, log, j + 1);
    ChainedSnoc(sha, json, log[..j + 1], first);
    ReadLogIff(sha, json, FileOf(json, short), short);
    ReadLogIff(sha, json, FileOf(json, long), long);
    if LinesCollide(sha, json, short, long) {
      ForkAddsNoCollision(sha, json, log, j);
    }
  }

  /** A torn append, which leaves part of a line without its newline, is refused by every later
      attempt and left as it is. */
  lemma TornAppendRefused(
    sha: Sha, json: Json, verifies: Verifier, expected: Expected, key: Hash,
    data: Bytes, line: Bytes, n: nat, doc: Doc, now: Bytes)
    requires OneLine(line) && 0 < n <= |line|
    ensures var torn := data + line[..n];
            var (after, r) := Record(sha, json, verifies, torn, expected, key, doc, now);
            after == torn && r.Err? && VerifyLog(sha, json, verifies, torn, expected, key).Err?
  {
    var torn := data + line[..n];
    assert torn[|torn| - 1] == line[n - 1];
  }
}

/** The `.ots` file and its attestations as literal bytes, and what the calendars' claims say. */
module OtsLayout {
  import opened Bytes
  import opened Varint
  import opened Utf8
  import opened Ots

  // ----- Attestations -----

  /** Bytes that start with the length of `x` and `x` itself. */
  ghost predicate Prefixed(b: Bytes, x: Bytes) {
    exists length: Bytes, rest: Bytes :: Encodes(length, |x|) && b == length + x + rest
  }

  /** What eight bytes of tag and a payload claim: a calendar's promise with its address, a block
      with its height, or something unknown, which is kept as it is. Bytes after the address or the
      height are ignored. */
  ghost predicate Claims(tag: Bytes, payload: Bytes, a: Attestation) {
    if tag == [0x83, 0xdf, 0xe3, 0x0d, 0x2e, 0xf9, 0x0c, 0x8e] then
      a.Pending? && IsUtf8(a.uri) && Prefixed(payload, a.uri)
    else if tag == [0x05, 0x88, 0x96, 0x0d, 0x73, 0xd7, 0x19, 0x01] then
      a.Bitcoin? && exists height: Bytes, rest: Bytes :: Encodes(height, a.height) && payload == height + rest
    else a == Unknown(tag, payload)
  }

  lemma VarbytesIff(b: Bytes, x: Bytes)
    ensures Varbytes(b).Ok? && Varbytes(b).value.0 == x <==> Prefixed(b, x)
  {
    hide Varbytes, Encodes;
    if Varbytes(b).Ok? && Varbytes(b).value.0 == x {
      var a := VarbytesIsArg(b);
      assert Encodes(a.length, |x|) && b == a.length + x + Varbytes(b).value.1;
    }
    if Prefixed(b, x) {
      var length: Bytes, rest: Bytes :| Encodes(length, |x|) && b == length + x + rest;
      VarbytesReads(Arg(length, x), rest);
    }
  }

  lemma HeightIff(b: Bytes, height: nat)
    ensures Varuint(b).Ok? && Varuint(b).value.0 == height
       <==> exists v: Bytes, rest: Bytes :: Encodes(v, height) && b == v + rest
  {
    hide Varuint, Encodes;
    if Varuint(b).Ok? {
      VaruintIff(b, Varuint(b).value.0, Varuint(b).value.1);
    }
    forall v: Bytes, rest: Bytes | Encodes(v, height) && b == v + rest
      ensures Varuint(b) == Ok((height, rest))
    {
      VaruintIff(b, height, rest);
    }
  }

  /** An attestation is read as exactly what it claims; one with an unknown tag is never refused. */
  lemma InterpretIff(tag: Bytes, payload: Bytes, a: Attestation)
    ensures Interpret(tag, payload) == Ok(a) <==> Claims(tag, payload, a)
  {
    hide Varbytes, Varuint, IsUtf8, Encodes, Prefixed;
    if a.Pending? {
      VarbytesIff(payload, a.uri);
    } else if a.Bitcoin? {
      HeightIff(payload, a.height);
    }
  }

  // ----- The file -----

  /** The 31 bytes every file starts with. */
  ghost function Magic(): Bytes {
    [0x00, 0x4f, 0x70, 0x65, 0x6e, 0x54, 0x69, 0x6d, 0x65, 0x73, 0x74, 0x61, 0x6d, 0x70, 0x73, 0x00,
     0x00, 0x50, 0x72, 0x6f, 0x6f, 0x66, 0x00, 0xbf, 0x89, 0xe2, 0xe8, 0x84, 0xe8, 0x92, 0x94]
  }

  /** A file is about a digest if and only if it is the magic, an encoding of version 1, the byte
      of SHA-256 and the digest, with anything after it. */
  lemma CommitsToIff(file: Bytes, digest: Hash)
    ensures CommitsTo(file, digest).Ok?
       <==> exists version: Bytes, rest: Bytes ::
              Encodes(version, 1) && file == Magic() + (version + ([0x08] + (digest + rest)))
  {
    hide Varuint, Encodes;
    if CommitsTo(file, digest).Ok? {
      var b1 := file[31..];
      var (n, b2) := Varuint(b1).value;
      VaruintIff(b1, 1, b2);
      var version: Bytes :| Encodes(version, 1) && b1 == version + b2;
      var rest := b2[1..][32..];
      assert b2 == [0x08] + (digest + rest);
      assert file == Magic() + (version + ([0x08] + (digest + rest)));
    }
    forall version: Bytes, rest: Bytes
      | Encodes(version, 1) && file == Magic() + (version + ([0x08] + (digest + rest)))
      ensures CommitsTo(file, digest).Ok?
    {
      var b2 := [0x08] + (digest + rest);
      assert file[..31] == Magic() && file[31..] == version + b2;
      VaruintIff(version + b2, 1, b2);
      assert b2[1..] == digest + rest && (digest + rest)[..32] == digest;
    }
  }

  /** The file that is stored for a calendar's reply, and where its timestamp is read. */
  lemma AssembleLayout(digest: Hash, reply: Bytes)
    ensures Assemble(digest, reply) == Magic() + [0x01, 0x08] + digest + reply
    ensures HEADER_LENGTH == 65
  {
    assert Minimal(1) == [1];
  }
}

/** Messages and keys on octets and through armor: framing, filtering, the grammars and, for keys, the signature codec
    composed (`src/composed/shared.rs`). */
module ComposedRoundTrip {
  import opened Bytes
  import opened SignatureTypes
  import opened SignatureSer
  import opened SignatureDe
  import opened SignatureRoundTrip
  import opened PacketParser
  import opened PacketStream
  import opened PacketOctets
  import opened ArmorFooter
  import opened Dearmor
  import M = Messages
  import K = SignedKeys
  import KR = SignedKeyRoundTrip
  import KP = SignedKeyParser

  // ---- Messages

  const MESSAGE_MARKER: M.Packet -> bool := (p: M.Packet) => p.Marker?

  /** A message whose packets are parsed back from their bodies comes back from its octets, and leaves what the rest of
      the stream yields, if all its signed layers are one-pass. */
  lemma MessageFromOctets(bp: BodyParser<M.Packet>, w: Printer<M.Packet>, m: M.Message, rest: bytes)
    requires M.OnePassed(m) && AllInverse(bp, w, M.Print(m))
    ensures M.Next(Filtered(Run(bp, Octets(w, M.Print(m)) + rest), MESSAGE_MARKER))
         == (M.Found(m), Filtered(Run(bp, rest), MESSAGE_MARKER))
  {
    var ps := M.Print(m);
    M.PrintHasNoMarker(m);
    forall k | 0 <= k < |ps| ensures !MESSAGE_MARKER(ps[k]) {
      assert !ps[k].IsIgnored();
    }
    PrintedAreReceived(bp, w, MESSAGE_MARKER, ps, rest);
    M.PrintParses(m, Filtered(Run(bp, rest), MESSAGE_MARKER));
  }

  /** `from_armor_many_buf`: a block of another type is refused before its body is read. */
  datatype Import<+T> = Refused | Imported(outcome: T)

  /** `matches_block_type` of messages */
  predicate IsMessageBlock(t: BlockType) { t.Message? || t.MultiPartMessage? || t.File? }

  /** `matches_block_type` of public and secret keys */
  predicate IsKeyBlock(t: BlockType, secret: bool) { t.File? || if secret then t.PrivateKey? else t.PublicKey? }

  /** The message in armor, read back in pieces of any sizes that ask for more than there is: framed, filtered and
      parsed, it is the same message, if and only if the block has one of the types for messages. */
  method ArmoredMessage(bp: BodyParser<M.Packet>, w: Printer<M.Packet>, m: M.Message, pieces: seq<bytes>, typ: BlockType,
                        crc: bytes -> nat, includeChecksum: bool, rest: bytes, sizes: seq<nat>)
    returns (r: Import<M.Outcome>)
    requires M.OnePassed(m) && AllInverse(bp, w, M.Print(m))
    requires var octets := Octets(w, M.Print(m));
             Concat(pieces) == Base64.Encode(octets) && crc(octets) < 0x100_0000 && Total(sizes) > |octets|
    ensures r == if typ.Message? || typ.MultiPartMessage? || typ.File? then Imported(M.Found(m)) else Refused
  {
    if !IsMessageBlock(typ) {
      return Refused;
    }
    var octets := Octets(w, M.Print(m));
    var data, _ := WriteAndRead(octets, pieces, typ, crc, includeChecksum, rest, sizes);
    assert data == octets;
    AppendNothing(octets);
    MessageFromOctets(bp, w, m, []);
    var parser := new PacketParser(data, bp);
    var items := Drain(parser);
    var packets := new M.Packets(Filtered(items, MESSAGE_MARKER));
    var outcome := packets.Parse();
    return Imported(outcome);
  }

  // ---- Keys

  /** The body parser with signatures parsed by the signature codec; `ignorable` says which invalid ones are ignored. */
  function WithSignatures(other: BodyParser<K.Packet>, ignorable: bytes -> bool): BodyParser<K.Packet> {
    (v: Version, tag: byte, body: bytes) => ParseKeyBody(other, ignorable, v, tag, body)
  }

  function ParseKeyBody(other: BodyParser<K.Packet>, ignorable: bytes -> bool, v: Version, tag: byte, body: bytes)
    : BodyResult<K.Packet>
  {
    if tag != 2 then other(v, tag, body)
    else match ParseSignature(v, body)
      case Parsed(s, _) => BodyOk(K.SignaturePacket(s))
      case Incomplete => BodyIncomplete
      case Error => BodyInvalid(ignorable(body))
  }

  /** The printer with signatures written by the signature codec */
  function SignatureRecord(p: K.Packet, other: K.Packet -> Record): Record {
    if p.SignaturePacket? && SignatureBytes(p.signature).Some?
    then Record(p.signature.packetVersion, 2, SignatureBytes(p.signature).value)
    else other(p)
  }

  function PrintSignatures(other: K.Packet -> Record): Printer<K.Packet> {
    Printer((p: K.Packet) => SignatureRecord(p, other))
  }

  /** Signatures are well formed and not too long; other packets are written under other tags and parsed back. */
  ghost predicate Codable(bp: BodyParser<K.Packet>, other: K.Packet -> Record, p: K.Packet) {
    if p.SignaturePacket? then
      && WfSignature(p.signature) && SignatureBytes(p.signature).Some?
      && |SignatureBytes(p.signature).value| < 0x1_0000_0000
    else other(p).tag != 2 && Writable(other(p)) && bp(other(p).version, other(p).tag, other(p).body) == BodyOk(p)
  }

  lemma CodableIsInverse(bp: BodyParser<K.Packet>, ignorable: bytes -> bool, other: K.Packet -> Record, p: K.Packet)
    requires Codable(bp, other, p)
    ensures Inverse(WithSignatures(bp, ignorable), PrintSignatures(other), p)
  {
    if p.SignaturePacket? {
      var b := SignatureBytes(p.signature).value;
      SignatureParses(p.signature, []);
      AppendNothing(b);
    }
  }

  const KEY_MARKER: K.Packet -> bool := (p: K.Packet) => p.Other? && p.tag == 10

  ghost predicate CodableKey(bp: BodyParser<K.Packet>, other: K.Packet -> Record, k: K.Key) {
    forall i :: 0 <= i < |K.Print(k)| ==> Codable(bp, other, K.Print(k)[i])
  }

  lemma ListHasNoMarker(bs: seq<K.Signed>, n: K.Section)
    requires KR.AllInSection(bs, n)
    ensures forall i :: 0 <= i < |K.PrintSigned(bs)| ==> !K.PrintSigned(bs)[i].Other?
  {
    if bs != [] {
      ListHasNoMarker(bs[1..], n);
    }
  }

  lemma KeyHasNoMarker(k: K.Key, secret: bool)
    requires K.Wf(k, secret)
    ensures forall i :: 0 <= i < |K.Print(k)| ==> !K.Print(k)[i].Other?
  {
    KR.WfInSection(k.users, K.UserRole, [], K.UserRole, K.Users);
    KR.WfInSection(k.attributes, K.AttributeRole, [], K.UserRole, K.Users);
    KR.WfInSection(k.publicSubkeys, K.PublicRole, [], K.UserRole, K.Subkeys(true));
    KR.WfInSection(k.secretSubkeys, K.SecretRole, [], K.UserRole, K.Subkeys(true));
    assert k.users + [] == k.users && k.attributes + [] == k.attributes;
    assert k.publicSubkeys + [] == k.publicSubkeys && k.secretSubkeys + [] == k.secretSubkeys;
    ListHasNoMarker(k.users, K.Users);
    ListHasNoMarker(k.attributes, K.Users);
    ListHasNoMarker(k.publicSubkeys, K.Subkeys(true));
    ListHasNoMarker(k.secretSubkeys, K.Subkeys(true));
  }

  /** A key with well-formed signatures, whose other packets are parsed back from their bodies, comes back from its
      octets, and leaves what the rest of the stream yields, if that does not continue the key. */
  lemma KeyFromOctets(bp: BodyParser<K.Packet>, ignorable: bytes -> bool, other: K.Packet -> Record, k: K.Key,
                      secret: bool, rest: bytes)
    requires K.Wf(k, secret) && CodableKey(bp, other, k)
    requires !K.Continues(k, secret, Filtered(Run(WithSignatures(bp, ignorable), rest), KEY_MARKER))
    ensures var full, w := WithSignatures(bp, ignorable), PrintSignatures(other);
            K.Next(Filtered(Run(full, Octets(w, K.Print(k)) + rest), KEY_MARKER), secret)
            == (K.Found(k), Filtered(Run(full, rest), KEY_MARKER))
  {
    var full, w, ps := WithSignatures(bp, ignorable), PrintSignatures(other), K.Print(k);
    forall i | 0 <= i < |ps| ensures Inverse(full, w, ps[i]) {
      assert Codable(bp, other, ps[i]);
      CodableIsInverse(bp, ignorable, other, ps[i]);
    }
    KeyHasNoMarker(k, secret);
    PrintedAreReceived(full, w, KEY_MARKER, ps, rest);
    KR.KeyParses(k, secret, Filtered(Run(full, rest), KEY_MARKER));
  }

  /** The key in armor, read back in pieces of any sizes that ask for more than there is, is the same key, if and only
      if the block has one of the types for it. */
  method ArmoredKey(bp: BodyParser<K.Packet>, ignorable: bytes -> bool, other: K.Packet -> Record, k: K.Key, secret: bool,
                    pieces: seq<bytes>, typ: BlockType, crc: bytes -> nat, includeChecksum: bool, rest: bytes,
                    sizes: seq<nat>)
    returns (r: Import<K.Outcome>)
    requires K.Wf(k, secret) && CodableKey(bp, other, k)
    requires var octets := Octets(PrintSignatures(other), K.Print(k));
             Concat(pieces) == Base64.Encode(octets) && crc(octets) < 0x100_0000 && Total(sizes) > |octets|
    ensures r == if typ.File? || (secret && typ.PrivateKey?) || (!secret && typ.PublicKey?) then Imported(K.Found(k))
                 else Refused
  {
    if !IsKeyBlock(typ, secret) {
      return Refused;
    }
    var full := WithSignatures(bp, ignorable);
    var octets := Octets(PrintSignatures(other), K.Print(k));
    var data, _ := WriteAndRead(octets, pieces, typ, crc, includeChecksum, rest, sizes);
    assert data == octets;
    AppendNothing(octets);
    KeyFromOctets(bp, ignorable, other, k, secret, []);
    var parser := new PacketParser(data, full);
    var items := Drain(parser);
    var keys := new KP.KeyParser(Filtered(items, KEY_MARKER), secret);
    var outcome := keys.Next();
    return Imported(outcome);
  }
}

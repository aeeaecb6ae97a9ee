/** Reading back what was written: signature packets with embedded signatures nested to any depth. */
module SignatureRoundTrip {
  import opened Bytes
  import opened Utf8
  import opened Mpi
  import opened PacketLength
  import opened SignatureTypes
  import opened SignatureSer
  import opened SignatureDe

  /** What the fields of a subpacket must satisfy; each clause names something the source writes but reads back
      differently, or not at all. */
  ghost predicate WfData(d: SubpacketData)
    decreases d, 0
  {
    match d
    case EmbeddedSignature(inner) => inner.packetVersion == New && WfSignature(inner)
    case PreferredKeyServer(server) => Ascii(server)
    case RevocationKey(_, alg, fingerprint) => CanonicalAlgorithm(alg) && |fingerprint| == 20
    case SignatureTarget(alg, _, _) => CanonicalAlgorithm(alg)
    case Experimental(n, _) => CanonicalType(ExperimentalT(n))
    case OtherData(n, _) => CanonicalType(OtherT(n))
    case _ => true
  }

  ghost predicate WfArea(sps: seq<Subpacket>)
    decreases sps, 0
  {
    sps == [] || (WfSubpacket(sps[0]) && WfArea(sps[1..]))
  }

  ghost predicate WfSubpacket(sp: Subpacket)
    decreases sp, 0
  {
    WfData(sp.data)
  }

  /** The 16-bit octet count of an area must not be truncated. */
  ghost predicate FitsArea(sps: seq<Subpacket>) {
    AreaBytes(sps).Some? && |AreaBytes(sps).value| < 0x1_0000
  }

  ghost predicate WfSignature(s: Signature)
    decreases s, 0
  {
    var c := s.config;
    && CanonicalAlgorithm(c.pubAlg)
    && |s.mpis| == (match c.pubAlg case DSA | ECDSA | EdDSA => 2 case RSA | RSASign | Private(_) => 1 case _ => 0)
    && (forall k :: 0 <= k < |s.mpis| ==> Canonical(s.mpis[k]))
    && match c.version
       case V2 | V3 => c.created.Some? && c.issuer.Some? && c.hashed == [] && c.unhashed == []
       case V4 | V5 =>
         && c.created.None? && c.issuer.None?
         && FitsArea(c.hashed) && WfArea(c.hashed)
         && FitsArea(c.unhashed) && WfArea(c.unhashed)
       case OtherVersion(_) => false
  }

  lemma NotationParses(readable: bool, name: bytes, content: bytes)
    requires |name| < 0x1_0000 && |content| < 0x1_0000
    ensures ParseNotation(BodyBytes(Notation(readable, name, content)).value)
            == Some(Notation(readable, name, content))
  {
    NotationOctetsParse(readable, name, content);
  }

  lemma NotationOctetsParse(readable: bool, name: bytes, content: bytes)
    requires |name| < 0x1_0000 && |content| < 0x1_0000
    ensures ParseNotation([if readable then 0x80 else 0, 0, 0, 0] + Be16(|name|) + Be16(|content|) + name + content)
            == Some(Notation(readable, name, content))
  {
    var first: byte := if readable then 0x80 else 0;
    var head := [first, 0, 0, 0] + Be16(|name|) + Be16(|content|);
    Regroup(head, name, content);
    NotationHead(first, |name|, |content|, name + content);
    NotationTail(head, name, content);
    Be16Inverse(|name|);
    Be16Inverse(|content|);
  }

  lemma NotationHead(first: byte, n: nat, c: nat, x: bytes)
    ensures var i := [first, 0, 0, 0] + Be16(n) + Be16(c) + x;
            i[0] == first && i[1] == i[2] == i[3] == 0 && i[4..6] == Be16(n) && i[6..8] == Be16(c)
  {
  }

  lemma NotationTail(head: bytes, name: bytes, content: bytes)
    requires |head| == 8
    ensures var i := head + (name + content);
            i[8..8 + |name|] == name && i[8 + |name|..8 + |name| + |content|] == content
  {
  }

  lemma SecondsParse(t: u32)
    ensures Seconds(Be32(t)) == Some(t)
  {
    Be32Inverse(t);
    assert Be32(t)[..4] == Be32(t);
  }

  lemma TimeParses(d: SubpacketData)
    requires d.SignatureCreationTime? || d.SignatureExpirationTime? || d.KeyExpirationTime?
    ensures BodyBytes(d).Some? && ParseData(DataType(d), BodyBytes(d).value) == Some(d)
  {
    SecondsParse(if d.SignatureCreationTime? then d.time else d.duration);
  }

  predicate Composite(d: SubpacketData) {
    d.Issuer? || d.Notation? || d.RevocationKey? || d.SignatureTarget? || d.RevocationReason?
    || d.IssuerFingerprint?
  }

  lemma {:induction false} CompositeParses(d: SubpacketData)
    requires Composite(d) && WfData(d) && BodyBytes(d).Some? && |BodyBytes(d).value| < 0x1_0000
    ensures ParseData(DataType(d), BodyBytes(d).value) == Some(d)
  {
    if d.Issuer? {
      assert d.id[..8] == d.id;
    } else if d.Notation? {
      NotationParses(d.readable, d.name, d.content);
    } else if d.RevocationKey? || d.SignatureTarget? {
      BehindTwoParses(d);
    } else {
      BehindOne(d);
    }
  }

  lemma BehindTwoParses(d: SubpacketData)
    requires WfData(d) && (d.RevocationKey? || d.SignatureTarget?)
    ensures BodyBytes(d).Some? && ParseData(DataType(d), BodyBytes(d).value) == Some(d)
  {
    if d.RevocationKey? {
      RevocationKeyParses(d.class_, d.keyAlg, d.fingerprint);
    } else {
      BehindTwo([AlgorithmCode(d.targetAlg), d.hashCode], d.hash);
    }
  }

  lemma RevocationKeyParses(c: RevocationKeyClass, alg: PublicKeyAlgorithm, fingerprint: bytes)
    requires CanonicalAlgorithm(alg) && |fingerprint| == 20
    ensures ParseRevocationKey([ClassCode(c), AlgorithmCode(alg)] + fingerprint)
         == Some(RevocationKey(c, alg, fingerprint))
  {
    BehindTwo([ClassCode(c), AlgorithmCode(alg)], fingerprint);
  }

  lemma BehindOne(d: SubpacketData)
    requires d.RevocationReason? || d.IssuerFingerprint?
    ensures BodyBytes(d).Some? && ParseData(DataType(d), BodyBytes(d).value) == Some(d)
  {
    if d.RevocationReason? {
      Split([d.reasonCode], d.reason);
    } else {
      Split([d.keyVersion], d.fingerprint);
    }
  }

  lemma BehindTwo(two: bytes, x: bytes)
    requires |two| == 2
    ensures (two + x)[2..] == x && (two + x)[2..2 + |x|] == x && (two + x)[0] == two[0] && (two + x)[1] == two[1]
  {
  }

  lemma EmbeddedData(body: bytes)
    ensures ParseData(EmbeddedSignatureT, body) == ParseEmbedded(body)
  {
  }

  lemma {:induction false} EmbeddedParses(d: SubpacketData)
    requires d.EmbeddedSignature? && WfData(d) && BodyBytes(d).Some?
    ensures ParseData(DataType(d), BodyBytes(d).value) == Some(d)
    decreases d, 0
  {
    SignatureParses(d.inner, []);
    AppendNothing(SignatureBytes(d.inner).value);
    EmbeddedData(SignatureBytes(d.inner).value);
  }

  lemma RawDataParses(d: SubpacketData)
    requires WfData(d) && !d.EmbeddedSignature? && !Composite(d)
    requires !d.SignatureCreationTime? && !d.SignatureExpirationTime? && !d.KeyExpirationTime?
    ensures BodyBytes(d).Some? && ParseData(DataType(d), BodyBytes(d).value) == Some(d)
  {
  }

  /** A subpacket body is read back as the data it was written from. */
  lemma {:induction false} DataParses(d: SubpacketData)
    requires WfData(d) && BodyBytes(d).Some? && |BodyBytes(d).value| < 0x1_0000
    ensures ParseData(DataType(d), BodyBytes(d).value) == Some(d)
    decreases d, 1
  {
    if d.EmbeddedSignature? {
      EmbeddedParses(d);
    } else if d.SignatureCreationTime? || d.SignatureExpirationTime? || d.KeyExpirationTime? {
      TimeParses(d);
    } else if Composite(d) {
      CompositeParses(d);
    } else {
      RawDataParses(d);
    }
  }

  /** A type with a name of its own */
  predicate IsNamed(t: SubpacketType) { !t.ExperimentalT? && !t.OtherT? }

  lemma NamedTypeIsCanonical(t: SubpacketType)
    requires IsNamed(t)
    ensures CanonicalType(t)
  {
  }

  lemma DataTypeIsCanonical(d: SubpacketData)
    requires WfData(d)
    ensures CanonicalType(DataType(d))
  {
    if !d.Experimental? && !d.OtherData? {
      NamedData(d);
      NamedTypeIsCanonical(DataType(d));
    }
  }

  lemma NamedData(d: SubpacketData)
    requires !d.Experimental? && !d.OtherData?
    ensures IsNamed(DataType(d))
  {
  }

  lemma FrameParses(code: byte, body: bytes, rest: bytes)
    requires |body| < 0x1_0000
    ensures ParseFrame(FrameBytes(|body|, code, body) + rest) == Some((code, body, rest))
  {
    var tail := [code] + body + rest;
    Regroup(WriteLength(1 + |body|), [code] + body, rest);
    LengthParses(1 + |body|, tail);
    assert tail[1..1 + |body|] == body && tail[1 + |body|..] == rest;
  }

  lemma {:induction false} SubpacketParses(sp: Subpacket, rest: bytes)
    requires WfSubpacket(sp) && SubpacketBytes(sp).Some? && |SubpacketBytes(sp).value| < 0x1_0000
    ensures ParseSubpacket(SubpacketBytes(sp).value + rest) == Some((sp, rest))
    decreases sp, 0
  {
    var typ := DataType(sp.data);
    BodyLenIsExact(sp.data);
    FrameParses(SubpacketTypeCode(typ, sp.critical), BodyBytes(sp.data).value, rest);
    DataTypeIsCanonical(sp.data);
    SubpacketTypeRoundTrip(typ);
    assert SubpacketTypeFrom(SubpacketTypeCode(typ, sp.critical)) == (typ, sp.critical);
    DataParses(sp.data);
  }

  lemma {:induction false} AreaParses(sps: seq<Subpacket>)
    requires WfArea(sps) && FitsArea(sps)
    ensures ParseArea(AreaBytes(sps).value) == sps
    decreases sps, 0
  {
    if sps != [] {
      var rest := AreaBytes(sps[1..]).value;
      SubpacketParses(sps[0], rest);
      AreaParses(sps[1..]);
    }
  }

  lemma {:induction false} MpisParse(ms: seq<bytes>, rest: bytes)
    requires forall k :: 0 <= k < |ms| ==> Canonical(ms[k])
    ensures ParseMpis(|ms|, MpisBytes(ms) + rest) == Parsed(ms, rest)
  {
    if ms == [] {
      assert MpisBytes(ms) + rest == rest;
    } else {
      var others := MpisBytes(ms[1..]);
      Regroup(MpiBytes(ms[0]), others, rest);
      MpiParses(ms[0], others + rest);
      MpisParse(ms[1..], rest);
      assert [ms[0]] + ms[1..] == ms;
    }
  }

  lemma TypeParses(t: SignatureType, rest: bytes)
    ensures ParseType([TypeCode(t)] + rest) == Parsed(t, rest)
  {
    assert ([TypeCode(t)] + rest)[1..] == rest;
    assert TypeFrom(TypeCode(t)) == Some(t);
  }

  lemma AlgorithmsParse(c: SignatureConfig, rest: bytes)
    requires CanonicalAlgorithm(c.pubAlg)
    ensures ParseAlgorithms(AlgorithmOctets(c) + rest) == Parsed((c.pubAlg, c.hashAlg), rest)
  {
    assert (AlgorithmOctets(c) + rest)[1..][1..] == rest;
  }

  lemma CountedParses(a: bytes, rest: bytes)
    requires |a| < 0x1_0000
    ensures ParseCounted(Counted(a) + rest) == Parsed(a, rest)
  {
    Regroup(Be16(|a|), a, rest);
    U16Append(|a|, a + rest);
    TakeAppend(a, rest);
  }

  lemma TailParses(s: Signature, rest: bytes)
    requires |s.mpis| == MpiCount(s.config.pubAlg)
    requires forall k :: 0 <= k < |s.mpis| ==> Canonical(s.mpis[k])
    ensures ParseTail(s.config.pubAlg, TailBytes(s) + rest) == Parsed((s.signedHashValue, s.mpis), rest)
  {
    Regroup(s.signedHashValue, MpisBytes(s.mpis), rest);
    TakeAppend(s.signedHashValue, MpisBytes(s.mpis) + rest);
    MpisParse(s.mpis, rest);
  }

  /** DSA, ECDSA and EdDSA signatures have two values. */
  lemma TwoValues(n: byte, left: octets2, r: bytes, s: bytes, rest: bytes)
    requires n in {17, 19, 22} && Canonical(r) && Canonical(s)
    ensures ParseTail(AlgorithmFrom(n), left + (MpiBytes(r) + (MpiBytes(s) + rest))) == Parsed((left, [r, s]), rest)
  {
    TakeAppend(left, MpiBytes(r) + (MpiBytes(s) + rest));
    TwoMpis(r, s);
    MpisParse([r, s], rest);
    Regroup(MpiBytes(r), MpiBytes(s), rest);
  }

  /** RSA signatures and those of the private algorithms have one. */
  lemma OneValue(n: byte, left: octets2, m: bytes, rest: bytes)
    requires (n in {1, 3} || 100 <= n <= 110) && Canonical(m)
    ensures ParseTail(AlgorithmFrom(n), left + (MpiBytes(m) + rest)) == Parsed((left, [m]), rest)
  {
    TakeAppend(left, MpiBytes(m) + rest);
    OneMpi(m);
    MpisParse([m], rest);
  }

  /** All others are left unread. */
  lemma NoValues(n: byte, left: octets2, rest: bytes)
    requires n !in {1, 3, 17, 19, 22} && !(100 <= n <= 110)
    ensures ParseTail(AlgorithmFrom(n), left + rest) == Parsed((left, []), rest)
  {
    TakeAppend(left, rest);
  }

  lemma V3FrontParses(typ: SignatureType, created: u32, issuer: keyid, rest: bytes)
    ensures ParseV3Front(V3Front(typ, created, issuer) + rest) == Parsed((typ, created, issuer), rest)
  {
    var i2 := Be32(created) + (issuer + rest);
    var i1 := [TypeCode(typ)] + i2;
    V3FrontRegroup([TypeCode(typ)], Be32(created), issuer, rest);
    Split([5], i1);
    TypeParses(typ, i2);
    U32Append(created, issuer + rest);
    ModSmall(created, 0x1_0000_0000);
    TakeAppend(issuer, rest);
  }

  lemma V3FrontRegroup(t: bytes, c: bytes, i: bytes, rest: bytes)
    ensures [5] + (t + (c + i)) + rest == [5] + (t + (c + (i + rest)))
  {
  }

  lemma V3Parses(s: Signature, rest: bytes)
    requires CanonicalAlgorithm(s.config.pubAlg) && |s.mpis| == MpiCount(s.config.pubAlg)
    requires forall k :: 0 <= k < |s.mpis| ==> Canonical(s.mpis[k])
    requires s.config.created.Some? && s.config.issuer.Some?
    requires s.config.hashed == [] && s.config.unhashed == []
    ensures ParseV3(s.packetVersion, s.config.version, V3Body(s) + rest) == Parsed(s, rest)
  {
    var c := s.config;
    var front := V3Front(c.typ, c.created.value, c.issuer.value);
    var i2 := TailBytes(s) + rest;
    var i1 := AlgorithmOctets(c) + i2;
    Regroup(front + AlgorithmOctets(c), TailBytes(s), rest);
    Regroup(front, AlgorithmOctets(c), i2);
    V3FrontParses(c.typ, c.created.value, c.issuer.value, i1);
    AlgorithmsParse(c, i2);
    TailParses(s, rest);
  }

  lemma V4Parses(s: Signature, hashed: bytes, unhashed: bytes, rest: bytes)
    requires CanonicalAlgorithm(s.config.pubAlg) && |s.mpis| == MpiCount(s.config.pubAlg)
    requires forall k :: 0 <= k < |s.mpis| ==> Canonical(s.mpis[k])
    requires s.config.created.None? && s.config.issuer.None?
    requires |hashed| < 0x1_0000 && ParseArea(hashed) == s.config.hashed
    requires |unhashed| < 0x1_0000 && ParseArea(unhashed) == s.config.unhashed
    ensures ParseV4(s.packetVersion, s.config.version, V4Body(s, hashed, unhashed) + rest) == Parsed(s, rest)
  {
    var c := s.config;
    var i4 := TailBytes(s) + rest;
    var i3 := Counted(unhashed) + i4;
    var i2 := Counted(hashed) + i3;
    var i1 := AlgorithmOctets(c) + i2;
    Regroup5([TypeCode(c.typ)], AlgorithmOctets(c), Counted(hashed), Counted(unhashed), TailBytes(s), rest);
    TypeParses(c.typ, i1);
    AlgorithmsParse(c, i2);
    CountedParses(hashed, i3);
    CountedParses(unhashed, i4);
    TailParses(s, rest);
  }

  /** Every well-formed signature is read back, whatever follows it. */
  lemma {:induction false} SignatureParses(s: Signature, rest: bytes)
    requires WfSignature(s)
    ensures SignatureBytes(s).Some?
    ensures ParseSignature(s.packetVersion, SignatureBytes(s).value + rest) == Parsed(s, rest)
    decreases s, 0
  {
    var c := s.config;
    if c.version.V2? || c.version.V3? {
      V3Parses(s, rest);
      VersionOctet(c.version, V3Body(s), rest);
    } else {
      AreaParses(c.hashed);
      AreaParses(c.unhashed);
      var hashed, unhashed := AreaBytes(c.hashed).value, AreaBytes(c.unhashed).value;
      V4Parses(s, hashed, unhashed, rest);
      VersionOctet(c.version, V4Body(s, hashed, unhashed), rest);
    }
  }

  lemma VersionOctet(v: SignatureVersion, body: bytes, rest: bytes)
    requires !v.OtherVersion?
    ensures var i := [VersionCode(v)] + body + rest;
            U8(i) == Parsed(VersionCode(v), body + rest) && VersionFrom(VersionCode(v)) == v
  {
    Regroup([VersionCode(v)], body, rest);
    assert ([VersionCode(v)] + (body + rest))[1..] == body + rest;
  }
}

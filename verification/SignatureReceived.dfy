/** Printing what was parsed, compared with the octets that were received: verification hashes the hashed subpackets
    printed again, not as they were received. */
module SignatureReceived {
  import opened Bytes
  import opened Utf8
  import opened Mpi
  import opened PacketLength
  import opened SignatureTypes
  import opened SignatureSer
  import opened SignatureDe
  import opened SignatureRoundTrip
  import opened SignatureReparse
  import opened SignatureExact
  import opened SignatureHash

  // ---- Canonical octets

  /** The bit count is that of the octets behind it. */
  predicate CanonicalMpi(i: bytes) {
    && |i| >= 2
    && var bits := FromBe16(i[..2]) as int;
       var n := (bits + 7) / 8;
       |i| >= 2 + n && bits == BitSize(i[2..2 + n])
  }

  predicate CanonicalMpis(count: nat, i: bytes) {
    count == 0 || (ParseMpi(i).Parsed? && CanonicalMpi(i) && CanonicalMpis(count - 1, ParseMpi(i).rest))
  }

  /** No surplus octets, flags that are 0 or 1, key servers in ASCII, canonical embedded signatures */
  predicate CanonicalBody(typ: SubpacketType, body: bytes)
    decreases |body|, 4
  {
    match typ
    case SignatureCreationTimeT => |body| == 4
    case SignatureExpirationTimeT => |body| == 4
    case KeyExpirationTimeT => |body| == 4
    case ExportableCertificationT => |body| == 1 && body[0] <= 1
    case RevocableT => |body| == 1 && body[0] <= 1
    case PrimaryUserIdT => |body| == 1 && body[0] <= 1
    case TrustSignatureT => |body| == 2
    case IssuerT => |body| == 8
    case RevocationKeyT => |body| == 22
    case NotationT => CanonicalNotation(body)
    case PreferredKeyServerT => Ascii(body)
    case EmbeddedSignatureT => CanonicalSignature(body)
    case _ => true
  }

  predicate CanonicalNotation(body: bytes) {
    && |body| >= 8 && (body[0] == 0 || body[0] == 0x80)
    && |body| == 8 + FromBe16(body[4..6]) as int + FromBe16(body[6..8]) as int
  }

  /** The shortest length, then a canonical body */
  predicate CanonicalFrame(h: bytes)
    decreases |h|, 5
  {
    && ParseFrame(h).Some?
    && var (code, body, rest) := ParseFrame(h).value;
       var typ := SubpacketTypeFrom(code).0;
       h == FrameBytes(|body|, code, body) + rest && ParseData(typ, body).Some? && CanonicalBody(typ, body)
  }

  /** Canonical frames one after the other, and nothing left over */
  predicate CanonicalArea(h: bytes)
    decreases |h|, 6
  {
    h == [] || (CanonicalFrame(h) && CanonicalArea(ParseFrame(h).value.2))
  }

  /** Canonical areas and MPIs, whatever follows them */
  predicate CanonicalParts(i: bytes)
    decreases |i|, 2
  {
    && i != []
    && if VersionFrom(i[0]).V2? || VersionFrom(i[0]).V3? then CanonicalV3(i[1..]) else CanonicalV4(i[1..])
  }

  predicate CanonicalV3(i: bytes) {
    var front := ParseV3Front(i);
    front.Parsed? &&
    var algorithms := ParseAlgorithms(front.rest);
    algorithms.Parsed? &&
    var left := Take(2, algorithms.rest);
    left.Parsed? && CanonicalMpis(MpiCount(algorithms.value.0), left.rest)
  }

  predicate CanonicalV4(i: bytes)
    decreases |i|, 1
  {
    var typ := ParseType(i);
    typ.Parsed? &&
    var algorithms := ParseAlgorithms(typ.rest);
    algorithms.Parsed? && CanonicalAreas(algorithms.value.0, algorithms.rest)
  }

  predicate CanonicalAreas(alg: PublicKeyAlgorithm, i: bytes)
    decreases |i|, 0
  {
    var hashed := ParseCounted(i);
    hashed.Parsed? &&
    var unhashed := ParseCounted(hashed.rest);
    unhashed.Parsed? &&
    var left := Take(2, unhashed.rest);
    && left.Parsed? && CanonicalArea(hashed.value) && CanonicalArea(unhashed.value)
    && CanonicalMpis(MpiCount(alg), left.rest)
  }

  predicate CanonicalSignature(i: bytes)
    decreases |i|, 3
  {
    ParseSignature(New, i).Parsed? && ParseSignature(New, i).rest == [] && CanonicalParts(i)
  }

  // ---- MPIs

  lemma FromBe16Inverse(s: bytes)
    requires |s| == 2
    ensures Be16(FromBe16(s)) == s
  {
    var n := 0x100 * (s[0] as int) + s[1] as int;
    assert n / 0x100 == s[0] && n % 0x100 == s[1];
  }

  /** A parsed MPI is printed as it was received if and only if its octets are canonical; `y` is what follows. */
  lemma MpiReceived(i: bytes, y: bytes)
    requires ParseMpi(i).Parsed?
    ensures MpiBytes(ParseMpi(i).value) + y == i <==> CanonicalMpi(i) && y == ParseMpi(i).rest
  {
    var m, r := ParseMpi(i).value, ParseMpi(i).rest;
    if MpiBytes(m) + y == i {
      MpiIsCanonical(m, y);
      MpiParses(m, y);
      PrintedMpiIsCanonical(m, y);
    }
    if CanonicalMpi(i) {
      CanonicalMpiPrints(i);
    }
  }

  lemma PrintedMpiIsCanonical(m: bytes, y: bytes)
    requires Canonical(m)
    ensures CanonicalMpi(MpiBytes(m) + y)
  {
    var i := MpiBytes(m) + y;
    Regroup(Be16(BitSize(m)), m, y);
    Split(Be16(BitSize(m)), m + y);
    Be16Inverse(BitSize(m));
    ModSmall(BitSize(m), 0x1_0000);
    OctetCount(m);
    Split(m, y);
    assert i[2..2 + |m|] == i[2..][..|m|];
  }

  lemma CanonicalMpiPrints(i: bytes)
    requires CanonicalMpi(i) && ParseMpi(i).Parsed?
    ensures MpiBytes(ParseMpi(i).value) + ParseMpi(i).rest == i
  {
    var bits := FromBe16(i[..2]) as int;
    var n := (bits + 7) / 8;
    var raw := i[2..][..n];
    assert raw == i[2..2 + n];
    NoLeadingZero(raw, bits);
    assert StripLeadingZeros(raw) == raw;
    FromBe16Inverse(i[..2]);
    assert i[..2] + (raw + i[2..][n..]) == i;
    Regroup(i[..2], raw, i[2..][n..]);
  }

  lemma NoLeadingZero(raw: bytes, bits: nat)
    requires |raw| == (bits + 7) / 8 && bits == BitSize(raw)
    ensures raw != [] ==> raw[0] != 0
  {
  }

  lemma {:induction false} MpisReceived(count: nat, i: bytes, y: bytes)
    requires ParseMpis(count, i).Parsed?
    ensures MpisBytes(ParseMpis(count, i).value) + y == i <==> CanonicalMpis(count, i) && y == ParseMpis(count, i).rest
  {
    var ms := ParseMpis(count, i).value;
    if count == 0 {
      assert [] + y == y;
    } else {
      var m, r := ParseMpi(i).value, ParseMpi(i).rest;
      assert MPI(i) == Parsed(m, r);
      var others := MpisBytes(ms[1..]);
      assert ms[0] == m && ms[1..] == ParseMpis(count - 1, r).value;
      Regroup(MpiBytes(m), others, y);
      MpiReceived(i, others + y);
      MpisReceived(count - 1, r, y);
    }
  }

  // ---- Subpacket bodies

  lemma FromBe32Inverse(s: bytes)
    requires |s| == 4
    ensures Be32(FromBe32(s)) == s
  {
    var hi, lo := FromBe16(s[..2]) as int, FromBe16(s[2..]) as int;
    HighAndLow(hi, lo);
    FromBe16Inverse(s[..2]);
    FromBe16Inverse(s[2..]);
    assert s[..2] + s[2..] == s;
  }

  lemma HighAndLow(hi: nat, lo: nat)
    requires lo < 0x1_0000
    ensures (0x1_0000 * hi + lo) / 0x1_0000 == hi && Be16(0x1_0000 * hi + lo) == Be16(lo)
  {
    var n := 0x1_0000 * hi + lo;
    assert n / 0x100 == 0x100 * hi + lo / 0x100;
    LowOctet(hi, lo / 0x100);
    LowOctet(0x100 * hi, lo);
  }

  lemma LowOctet(a: nat, b: nat)
    ensures (0x100 * a + b) % 0x100 == b % 0x100
  {
  }

  /** The data is printed as the octets it was parsed from, under the right length. */
  ghost predicate PrintsAs(d: SubpacketData, body: bytes) {
    BodyBytes(d) == Some(body) && BodyLen(d) == Some(|body|)
  }

  lemma {:induction false} KeyServerReceived(body: bytes)
    requires ParseData(PreferredKeyServerT, body).Some?
    ensures PrintsAs(ParseData(PreferredKeyServerT, body).value, body) <==> Ascii(body)
  {
    CharCountIsLength(body);
  }

  lemma {:induction false} RawReceived(typ: SubpacketType, body: bytes)
    requires IsRaw(typ) && ParseData(typ, body).Some?
    ensures PrintsAs(ParseData(typ, body).value, body) <==> CanonicalBody(typ, body)
  {
    if typ.PreferredKeyServerT? {
      KeyServerReceived(body);
    }
  }

  predicate IsTime(typ: SubpacketType) {
    typ.SignatureCreationTimeT? || typ.SignatureExpirationTimeT? || typ.KeyExpirationTimeT?
  }

  lemma {:induction false} TimeReceived(typ: SubpacketType, body: bytes)
    requires IsTime(typ) && ParseData(typ, body).Some?
    ensures PrintsAs(ParseData(typ, body).value, body) <==> CanonicalBody(typ, body)
  {
    FromBe32Inverse(body[..4]);
    if |body| == 4 {
      assert body[..4] == body;
    }
  }

  predicate IsFlag(typ: SubpacketType) { typ.ExportableCertificationT? || typ.RevocableT? || typ.PrimaryUserIdT? }

  lemma {:induction false} FlagReceived(typ: SubpacketType, body: bytes)
    requires IsFlag(typ) && ParseData(typ, body).Some?
    ensures PrintsAs(ParseData(typ, body).value, body) <==> CanonicalBody(typ, body)
  {
    if |body| == 1 {
      assert body == [body[0]];
    }
  }

  lemma NotationReceived(body: bytes)
    requires ParseNotation(body).Some?
    ensures PrintsAs(ParseNotation(body).value, body) <==> CanonicalNotation(body)
  {
    var n, c := FromBe16(body[4..6]) as int, FromBe16(body[6..8]) as int;
    var name, content := body[8..8 + n], body[8 + n..8 + n + c];
    var first: byte := if body[0] == 0x80 then 0x80 else 0;
    var printed := [first, 0, 0, 0] + Be16(n) + Be16(c) + name + content;
    FromBe16Inverse(body[4..6]);
    FromBe16Inverse(body[6..8]);
    assert |printed| == 8 + n + c && printed[0] == first;
    if CanonicalNotation(body) {
      assert [body[0], body[1], body[2], body[3]] + body[4..6] + body[6..8] + name + content == body;
    }
  }

  lemma RevocationKeyReceived(body: bytes)
    requires ParseRevocationKey(body).Some?
    ensures PrintsAs(ParseRevocationKey(body).value, body) <==> |body| == 22
  {
    AlgorithmReceived(body[1]);
    if |body| == 22 {
      assert [body[0], body[1]] + body[2..22] == body;
    }
  }

  lemma AlgorithmReceived(n: byte)
    ensures AlgorithmCode(AlgorithmFrom(n)) == n
  {
  }

  predicate IsPrefixed(typ: SubpacketType) {
    || typ.TrustSignatureT? || typ.IssuerT? || typ.RevocationReasonT? || typ.SignatureTargetT? || typ.IssuerFingerprintT?
  }

  lemma {:induction false} PrefixedReceived(typ: SubpacketType, body: bytes)
    requires IsPrefixed(typ) && ParseData(typ, body).Some?
    ensures PrintsAs(ParseData(typ, body).value, body) <==> CanonicalBody(typ, body)
  {
    if typ.TrustSignatureT? {
      assert |body| == 2 ==> body == [body[0], body[1]];
    } else if typ.IssuerT? {
      assert |body| == 8 ==> body[..8] == body;
    } else if typ.SignatureTargetT? {
      AlgorithmReceived(body[0]);
      assert [body[0], body[1]] + body[2..] == body;
    } else {
      assert [body[0]] + body[1..] == body;
    }
  }

  lemma {:induction false} BodyReceived(typ: SubpacketType, body: bytes)
    requires ParseData(typ, body).Some?
    ensures PrintsAs(ParseData(typ, body).value, body) <==> CanonicalBody(typ, body)
    decreases |body|, 4
  {
    if IsRaw(typ) {
      RawReceived(typ, body);
    } else if IsTime(typ) {
      TimeReceived(typ, body);
    } else if IsFlag(typ) {
      FlagReceived(typ, body);
    } else if IsPrefixed(typ) {
      PrefixedReceived(typ, body);
    } else if typ.NotationT? {
      NotationReceived(body);
    } else if typ.RevocationKeyT? {
      RevocationKeyReceived(body);
    } else {
      EmbeddedReceived(body);
    }
  }

  lemma {:induction false} EmbeddedReceived(body: bytes)
    requires ParseData(EmbeddedSignatureT, body).Some?
    ensures PrintsAs(ParseData(EmbeddedSignatureT, body).value, body) <==> CanonicalSignature(body)
    decreases |body|, 3
  {
    EmbeddedIs(body);
    var s, rest := ParseSignature(New, body).value, ParseSignature(New, body).rest;
    WholeReceived(New, body, []);
    EmbedPrints(s, body, rest, CanonicalParts(body));
  }

  lemma {:induction false} EmbeddedIs(body: bytes)
    requires ParseData(EmbeddedSignatureT, body).Some?
    ensures var p := ParseSignature(New, body);
            p.Parsed? && ParseData(EmbeddedSignatureT, body).value == EmbeddedSignature(p.value)
  {
    EmbeddedData(body);
  }

  lemma EmbedPrints(s: Signature, body: bytes, rest: bytes, canonical: bool)
    requires SignatureBytes(s).Some? && SignatureBytes(s).value + [] == body <==> canonical && [] == rest
    ensures PrintsAs(EmbeddedSignature(s), body) <==> rest == [] && canonical
  {
    if SignatureBytes(s).Some? {
      AppendNothing(SignatureBytes(s).value);
    }
  }

  // ---- Subpackets and areas

  lemma RawTypeInverse(n: byte)
    requires n < 128
    ensures RawType(TypeFromRaw(n)) == n
  {
  }

  lemma {:induction false} TypeOfParsed(typ: SubpacketType, body: bytes)
    requires ParseData(typ, body).Some?
    ensures DataType(ParseData(typ, body).value) == typ
  {
    if typ.EmbeddedSignatureT? {
      EmbeddedKind(body);
    } else if IsRaw(typ) {
      TypeOfRaw(typ, body);
    } else {
      TypeOfOther(typ, body);
    }
  }

  lemma {:induction false} EmbeddedKind(body: bytes)
    requires ParseData(EmbeddedSignatureT, body).Some?
    ensures ParseData(EmbeddedSignatureT, body).value.EmbeddedSignature?
  {
    EmbeddedData(body);
  }

  lemma {:induction false} TypeOfOther(typ: SubpacketType, body: bytes)
    requires !IsRaw(typ) && !typ.EmbeddedSignatureT? && ParseData(typ, body).Some?
    ensures DataType(ParseData(typ, body).value) == typ
  {
  }

  lemma {:induction false} TypeOfRaw(typ: SubpacketType, body: bytes)
    requires IsRaw(typ) && ParseData(typ, body).Some?
    ensures DataType(ParseData(typ, body).value) == typ
  {
  }

  lemma TypeReceived(code: byte)
    ensures var (typ, critical) := SubpacketTypeFrom(code); SubpacketTypeCode(typ, critical) == code
  {
    RawTypeInverse(code % 128);
  }

  /** A parsed subpacket is printed as it was received if and only if its frame is canonical; `y` is what follows. */
  lemma {:induction false} FrameReceived(h: bytes, y: bytes)
    requires ParseSubpacket(h).Some? && |h| < 0x1_0000
    ensures var (sp, rest) := ParseSubpacket(h).value;
            SubpacketBytes(sp).Some? && SubpacketBytes(sp).value + y == h <==> CanonicalFrame(h) && y == rest
    decreases |h|, 5
  {
    var (sp, rest) := ParseSubpacket(h).value;
    var (code, body, _) := ParseFrame(h).value;
    var typ := SubpacketTypeFrom(code).0;
    BodyReceived(typ, body);
    TypeOfParsed(typ, body);
    TypeReceived(code);
    if SubpacketBytes(sp).Some? && SubpacketBytes(sp).value + y == h {
      PrintedFrame(sp, h, y);
    }
  }

  lemma PrintedFrame(sp: Subpacket, h: bytes, y: bytes)
    requires ParseSubpacket(h).Some? && ParseSubpacket(h).value.0 == sp && |h| < 0x1_0000
    requires SubpacketBytes(sp).Some? && SubpacketBytes(sp).value + y == h
    ensures var (code, body, rest) := ParseFrame(h).value;
            PrintsAs(sp.data, body) && h == FrameBytes(|body|, code, body) + rest && y == rest
  {
    var (code, body, rest) := ParseFrame(h).value;
    var d := sp.data;
    AppendNothing(h);
    AppendNothing(rest);
    FrameOf(BodyLen(d).value, SubpacketTypeCode(DataType(d), sp.critical), BodyBytes(d).value, y, h, []);
    BodyOf(SubpacketTypeFrom(code).0, body, rest, y);
  }

  /** A received area is printed as it was received if and only if it is canonical. */
  lemma {:induction false} AreaReceived(h: bytes)
    requires |h| < 0x1_0000
    ensures AreaBytes(ParseArea(h)) == Some(h) <==> CanonicalArea(h)
    decreases |h|, 6
  {
    if ParseSubpacket(h).Some? {
      var (sp, rest) := ParseSubpacket(h).value;
      AreaReceived(rest);
      FrameReceived(h, rest);
      AreaUnfold(sp, ParseArea(rest));
      if AreaBytes(ParseArea(rest)).Some? {
        FrameReceived(h, AreaBytes(ParseArea(rest)).value);
      }
    }
  }

  lemma AreaUnfold(sp: Subpacket, sps: seq<Subpacket>)
    ensures AreaBytes([sp] + sps) == Join(SubpacketBytes(sp), AreaBytes(sps))
  {
    assert ([sp] + sps)[1..] == sps;
  }

  /** With its count in front, an area and what follows are printed as received only if both are. */
  lemma CountedReceived(h: bytes, y: bytes, z: bytes)
    requires |h| < 0x1_0000 && AreaBytes(ParseArea(h)).Some?
    ensures Counted(AreaBytes(ParseArea(h)).value) + y == Counted(h) + z
            <==> AreaBytes(ParseArea(h)).value == h && y == z
  {
    var a := AreaBytes(ParseArea(h)).value;
    if Counted(a) + y == Counted(h) + z {
      var j := SameStart(a, y, h, z);
      AreaOf(ParseArea(h), h, j);
      AppendNothing(h);
      SplitEqual(a, y, h, z);
    }
  }

  lemma SameStart(a: bytes, y: bytes, h: bytes, z: bytes) returns (j: bytes)
    requires |h| < 0x1_0000 && Counted(a) + y == Counted(h) + z
    ensures h + j == a && a + y == h + z
  {
    Regroup(Be16(|a|), a, y);
    Regroup(Be16(|h|), h, z);
    SplitEqual(Be16(|a|), a + y, Be16(|h|), h + z);
    SameCount(|a|, |h|);
    CutFront(a, y, |h|);
    Split(h, z);
    j := a[|h|..];
  }

  lemma SameCount(a: nat, h: nat)
    requires Be16(a) == Be16(h) && h < 0x1_0000
    ensures a >= h
  {
    Be16Inverse(a);
    Be16Inverse(h);
    ModSmall(h, 0x1_0000);
  }

  // ---- Signatures

  lemma CountedParts(i: bytes)
    requires ParseCounted(i).Parsed?
    ensures |ParseCounted(i).value| < 0x1_0000 && i == Counted(ParseCounted(i).value) + ParseCounted(i).rest
  {
    var n, r := FromBe16(i[..2]) as int, i[2..];
    FromBe16Inverse(i[..2]);
    assert i == i[..2] + (r[..n] + r[n..]);
    Regroup(i[..2], r[..n], r[n..]);
  }

  lemma TailReceived(alg: PublicKeyAlgorithm, left: octets2, mpis: seq<bytes>, i: bytes, y: bytes)
    requires ParseTail(alg, i).Parsed? && ParseTail(alg, i).value == (left, mpis)
    ensures Take(2, i).Parsed?
    ensures left + MpisBytes(mpis) + y == i <==> CanonicalMpis(MpiCount(alg), i[2..]) && y == ParseTail(alg, i).rest
  {
    Regroup(left, MpisBytes(mpis), y);
    MpisReceived(MpiCount(alg), i[2..], y);
    assert i == left + i[2..];
    if left + (MpisBytes(mpis) + y) == i {
      SplitEqual(left, MpisBytes(mpis) + y, left, i[2..]);
    }
  }

  /** The areas and what follows them */
  lemma {:induction false} AreasReceived(packetVersion: Version, version: SignatureVersion, typ: SignatureType,
                                         alg: PublicKeyAlgorithm, hashAlg: byte, i: bytes, y: bytes)
    requires ParseAreas(packetVersion, version, typ, alg, hashAlg, i).Parsed?
    ensures var p := ParseAreas(packetVersion, version, typ, alg, hashAlg, i);
            var c := p.value.config;
            && AreaBytes(c.hashed).Some? && AreaBytes(c.unhashed).Some?
            && Counted(AreaBytes(c.hashed).value)
               + (Counted(AreaBytes(c.unhashed).value) + (TailBytes(p.value) + y)) == i
            <==> CanonicalAreas(alg, i) && y == p.rest
    decreases |i|, 0
  {
    var s := ParseAreas(packetVersion, version, typ, alg, hashAlg, i).value;
    var h, i3 := ParseCounted(i).value, ParseCounted(i).rest;
    var u, i4 := ParseCounted(i3).value, ParseCounted(i3).rest;
    CountedParts(i);
    CountedParts(i3);
    AreaReceived(h);
    AreaReceived(u);
    TailReceived(alg, s.signedHashValue, s.mpis, i4, y);
    if AreaBytes(ParseArea(h)).Some? && AreaBytes(ParseArea(u)).Some? {
      var b := AreaBytes(ParseArea(u)).value;
      CountedReceived(h, Counted(b) + (TailBytes(s) + y), i3);
      CountedReceived(u, TailBytes(s) + y, i4);
    }
  }

  /** Behind the version octet, the signature is printed as `r`, with `y` behind it. */
  ghost predicate PrintsV4(s: Signature, y: bytes, r: bytes) {
    var c := s.config;
    && AreaBytes(c.hashed).Some? && AreaBytes(c.unhashed).Some?
    && V4Body(s, AreaBytes(c.hashed).value, AreaBytes(c.unhashed).value) + y == r
  }

  lemma {:induction false} V4Received(packetVersion: Version, version: SignatureVersion, i: bytes, y: bytes)
    requires ParseV4(packetVersion, version, i).Parsed?
    ensures var p := ParseV4(packetVersion, version, i);
            PrintsV4(p.value, y, i) <==> CanonicalV4(i) && y == p.rest
    decreases |i|, 1
  {
    var s := ParseV4(packetVersion, version, i).value;
    var c := s.config;
    var i1 := ParseType(i).rest;
    var i2 := ParseAlgorithms(i1).rest;
    AreasReceived(packetVersion, version, c.typ, c.pubAlg, c.hashAlg, i2, y);
    TypeOctet(i);
    AlgorithmOctetsReceived(i1, c);
    if AreaBytes(c.hashed).Some? && AreaBytes(c.unhashed).Some? {
      var a, b := Counted(AreaBytes(c.hashed).value), Counted(AreaBytes(c.unhashed).value);
      Regroup5([TypeCode(c.typ)], AlgorithmOctets(c), a, b, TailBytes(s), y);
      SameFront([TypeCode(c.typ)], AlgorithmOctets(c), a + (b + (TailBytes(s) + y)), i2);
    }
  }

  lemma TypeOctet(i: bytes)
    requires ParseType(i).Parsed?
    ensures i == [TypeCode(ParseType(i).value)] + ParseType(i).rest
  {
    assert i == [i[0]] + i[1..];
  }

  lemma AlgorithmOctetsReceived(i: bytes, c: SignatureConfig)
    requires ParseAlgorithms(i).Parsed? && ParseAlgorithms(i).value == (c.pubAlg, c.hashAlg)
    ensures i == AlgorithmOctets(c) + ParseAlgorithms(i).rest
  {
    AlgorithmReceived(i[0]);
    assert i == [i[0], i[1]] + i[1..][1..];
  }

  /** Equal fronts can be taken away. */
  lemma SameFront(a: bytes, b: bytes, x: bytes, y: bytes)
    ensures a + (b + x) == a + (b + y) <==> x == y
  {
    if a + (b + x) == a + (b + y) {
      SplitEqual(a, b + x, a, b + y);
      SplitEqual(b, x, b, y);
    }
  }

  lemma V3Received(packetVersion: Version, version: SignatureVersion, i: bytes, y: bytes)
    requires ParseV3(packetVersion, version, i).Parsed?
    ensures var p := ParseV3(packetVersion, version, i);
            p.value.config.created.Some? && p.value.config.issuer.Some?
            && (V3Body(p.value) + y == i <==> CanonicalV3(i) && y == p.rest)
  {
    var s := ParseV3(packetVersion, version, i).value;
    var c := s.config;
    var front := V3Front(c.typ, c.created.value, c.issuer.value);
    var i1 := ParseV3Front(i).rest;
    var i2 := ParseAlgorithms(i1).rest;
    V3FrontOctets(i);
    AlgorithmOctetsReceived(i1, c);
    TailReceived(c.pubAlg, s.signedHashValue, s.mpis, i2, y);
    Regroup(front + AlgorithmOctets(c), TailBytes(s), y);
    Regroup(front, AlgorithmOctets(c), TailBytes(s) + y);
    SameFront(front, AlgorithmOctets(c), TailBytes(s) + y, i2);
  }

  lemma V3FrontOctets(i: bytes)
    requires ParseV3Front(i).Parsed?
    ensures var (typ, created, issuer) := ParseV3Front(i).value;
            i == V3Front(typ, created, issuer) + ParseV3Front(i).rest
  {
    var (typ, created, issuer) := ParseV3Front(i).value;
    var i1 := i[1..];
    TypeOctet(i1);
    var i2 := ParseType(i1).rest;
    FromBe32Inverse(i2[..4]);
    var i3 := i2[4..];
    assert i2 == Be32(created) + i3;
    assert i3 == issuer + i3[8..];
    assert i == [5] + i1;
    V3FrontRegroup([TypeCode(typ)], Be32(created), issuer, i3[8..]);
  }

  /** A parsed signature is printed as it was received, in front of `y`, if and only if its areas and MPIs are canonical
      and `y` is what the parser left. */
  lemma {:induction false} WholeReceived(packetVersion: Version, i: bytes, y: bytes)
    requires ParseSignature(packetVersion, i).Parsed?
    ensures var p := ParseSignature(packetVersion, i);
            SignatureBytes(p.value).Some? && SignatureBytes(p.value).value + y == i <==> CanonicalParts(i) && y == p.rest
    decreases |i|, 2
  {
    var version := VersionFrom(i[0]);
    VersionReceived(packetVersion, i);
    if version.V2? || version.V3? {
      WholeV3(packetVersion, version, i[1..], y);
    } else {
      WholeV4(packetVersion, version, i[1..], y);
    }
  }

  lemma {:induction false} VersionReceived(packetVersion: Version, i: bytes)
    requires ParseSignature(packetVersion, i).Parsed?
    ensures var version := VersionFrom(i[0]);
            && i == [VersionCode(version)] + i[1..] && !version.OtherVersion?
            && ParseSignature(packetVersion, i)
               == (if version.V2? || version.V3? then ParseV3(packetVersion, version, i[1..])
                   else ParseV4(packetVersion, version, i[1..]))
  {
    assert i == [i[0]] + i[1..];
  }

  lemma {:induction false} WholeV3(packetVersion: Version, version: SignatureVersion, r: bytes, y: bytes)
    requires (version.V2? || version.V3?) && ParseV3(packetVersion, version, r).Parsed?
    ensures var p := ParseV3(packetVersion, version, r);
            SignatureBytes(p.value).Some? && SignatureBytes(p.value).value + y == [VersionCode(version)] + r
            <==> CanonicalV3(r) && y == p.rest
  {
    V3Received(packetVersion, version, r, y);
    BehindVersion3(ParseV3(packetVersion, version, r).value, y, r);
  }

  lemma {:induction false} WholeV4(packetVersion: Version, version: SignatureVersion, r: bytes, y: bytes)
    requires (version.V4? || version.V5?) && ParseV4(packetVersion, version, r).Parsed?
    ensures var p := ParseV4(packetVersion, version, r);
            SignatureBytes(p.value).Some? && SignatureBytes(p.value).value + y == [VersionCode(version)] + r
            <==> CanonicalV4(r) && y == p.rest
    decreases |r|, 2
  {
    V4Received(packetVersion, version, r, y);
    var s := ParseV4(packetVersion, version, r).value;
    assert s.config.version == version;
    BehindVersion4(s, y, r);
  }

  lemma BehindVersion3(s: Signature, y: bytes, r: bytes)
    requires (s.config.version.V2? || s.config.version.V3?) && s.config.created.Some? && s.config.issuer.Some?
    ensures SignatureBytes(s).Some?
    ensures SignatureBytes(s).value + y == [VersionCode(s.config.version)] + r <==> V3Body(s) + y == r
  {
    SameBehindVersion([VersionCode(s.config.version)], V3Body(s), y, r);
  }

  lemma BehindVersion4(s: Signature, y: bytes, r: bytes)
    requires s.config.version.V4? || s.config.version.V5?
    ensures SignatureBytes(s).Some? && SignatureBytes(s).value + y == [VersionCode(s.config.version)] + r
            <==> PrintsV4(s, y, r)
  {
    var c := s.config;
    if AreaBytes(c.hashed).Some? && AreaBytes(c.unhashed).Some? {
      var body := V4Body(s, AreaBytes(c.hashed).value, AreaBytes(c.unhashed).value);
      SameBehindVersion([VersionCode(c.version)], body, y, r);
    }
  }

  lemma SameBehindVersion(v: bytes, body: bytes, y: bytes, r: bytes)
    ensures v + body + y == v + r <==> body + y == r
  {
    Regroup(v, body, y);
    if v + (body + y) == v + r {
      SplitEqual(v, body + y, v, r);
    }
  }

  /** A parsed signature is printed as the octets it was parsed from if and only if these are canonical and none is left
      over. */
  lemma PrintsWhatWasReceived(packetVersion: Version, i: bytes)
    requires ParseSignature(packetVersion, i).Parsed?
    ensures var p := ParseSignature(packetVersion, i);
            SignatureBytes(p.value) == Some(i) <==> CanonicalParts(i) && p.rest == []
  {
    var s := ParseSignature(packetVersion, i).value;
    WholeReceived(packetVersion, i, []);
    if SignatureBytes(s).Some? {
      AppendNothing(SignatureBytes(s).value);
    }
  }

  // ---- What verification hashes

  /** The hashed area of a version 4 or 5 signature as it was received */
  function HashedArea(i: bytes): bytes
    requires |i| >= 4 && ParseCounted(i[4..]).Parsed?
  {
    ParseCounted(i[4..]).value
  }

  lemma {:induction false} AreasConfig(packetVersion: Version, version: SignatureVersion, typ: SignatureType,
                                       alg: PublicKeyAlgorithm, hashAlg: byte, i: bytes)
    requires ParseAreas(packetVersion, version, typ, alg, hashAlg, i).Parsed?
    ensures ParseCounted(i).Parsed?
    ensures var c := ParseAreas(packetVersion, version, typ, alg, hashAlg, i).value.config;
            && c.hashed == ParseArea(ParseCounted(i).value)
            && (c.version, c.typ, c.pubAlg, c.hashAlg) == (version, typ, alg, hashAlg)
  {
  }

  lemma {:induction false} V4Config(packetVersion: Version, version: SignatureVersion, i: bytes)
    requires ParseV4(packetVersion, version, i).Parsed?
    ensures |i| >= 3 && ParseCounted(i[3..]).Parsed?
    ensures var c := ParseV4(packetVersion, version, i).value.config;
            && c.version == version && c.hashed == ParseArea(ParseCounted(i[3..]).value)
            && i[..3] == [TypeCode(c.typ)] + AlgorithmOctets(c)
  {
    var c := ParseV4(packetVersion, version, i).value.config;
    var i1 := ParseType(i).rest;
    var i2 := ParseAlgorithms(i1).rest;
    AreasConfig(packetVersion, version, ParseType(i).value, ParseAlgorithms(i1).value.0, ParseAlgorithms(i1).value.1, i2);
    TypeOctet(i);
    AlgorithmOctetsReceived(i1, c);
    Regroup([TypeCode(c.typ)], AlgorithmOctets(c), i2);
    Split([TypeCode(c.typ)] + AlgorithmOctets(c), i2);
  }

  lemma {:induction false} V4Prefix(packetVersion: Version, i: bytes)
    requires ParseSignature(packetVersion, i).Parsed? && (VersionFrom(i[0]).V4? || VersionFrom(i[0]).V5?)
    ensures |i| >= 4 && ParseCounted(i[4..]).Parsed?
    ensures var c := ParseSignature(packetVersion, i).value.config;
            (c.version.V4? || c.version.V5?) && c.hashed == ParseArea(HashedArea(i)) && V4Header(c) == i[..4]
    ensures |HashedArea(i)| < 0x1_0000 && i == i[..4] + (Counted(HashedArea(i)) + ParseCounted(i[4..]).rest)
  {
    VersionReceived(packetVersion, i);
    var r := i[1..];
    V4Config(packetVersion, VersionFrom(i[0]), r);
    assert r[3..] == i[4..] && i[..4] == [i[0]] + r[..3];
    CountedParts(i[4..]);
    CutFront(i, [], 4);
  }

  /** The signer hashed the signature's octets up to the end of the hashed area. Verification hashes these same octets if
      and only if the received hashed area is canonical. */
  lemma VerifiesWhatWasReceived(packetVersion: Version, i: bytes)
    requires ParseSignature(packetVersion, i).Parsed? && (VersionFrom(i[0]).V4? || VersionFrom(i[0]).V5?)
    ensures |i| >= 4 && ParseCounted(i[4..]).Parsed? && 6 + |HashedArea(i)| <= |i|
    ensures SignatureData(ParseSignature(packetVersion, i).value.config) == Some(i[..6 + |HashedArea(i)|])
            <==> CanonicalArea(HashedArea(i))
  {
    V4Prefix(packetVersion, i);
    var c, h := ParseSignature(packetVersion, i).value.config, HashedArea(i);
    Regroup(i[..4], Counted(h), ParseCounted(i[4..]).rest);
    Split(i[..4] + Counted(h), ParseCounted(i[4..]).rest);
    AreaReceived(h);
    DataIs(c, i[..4], h);
  }

  lemma DataIs(c: SignatureConfig, header: bytes, h: bytes)
    requires (c.version.V4? || c.version.V5?) && V4Header(c) == header && |h| < 0x1_0000
    ensures SignatureData(c) == Some(header + Counted(h)) <==> AreaBytes(c.hashed) == Some(h)
  {
    if SignatureData(c) == Some(header + Counted(h)) {
      var a := AreaBytes(c.hashed).value;
      SplitEqual(header, Counted(a), header, Counted(h));
      SplitEqual(Be16(|a|), a, Be16(|h|), h);
    }
  }

  /** The three flags are true for the octet 1 and for no other. */
  lemma FlagValues(b: byte, more: bytes)
    ensures ParseData(SubpacketTypeFrom(4).0, [b] + more) == Some(ExportableCertification(b == 1))
    ensures ParseData(SubpacketTypeFrom(7).0, [b] + more) == Some(Revocable(b == 1))
    ensures ParseData(SubpacketTypeFrom(25).0, [b] + more) == Some(IsPrimary(b == 1))
  {
  }

  lemma {:induction false} FlagOfTwoParses()
    ensures ParseArea([2, 25, 2]) == [Subpacket(false, IsPrimary(false))]
  {
    var h: bytes := [2, 25, 2];
    var sp := Subpacket(false, IsPrimary(false));
    assert h[1..] == [25, 2] && h[1..][1..2] == [2] && h[1..][2..] == [];
    assert ParseFrame(h) == Some((25, [2], []));
    assert ParseSubpacket(h) == Some((sp, []));
    assert ParseArea([]) == [];
    assert [sp] + [] == [sp];
  }

  lemma {:induction false} FlagOfTwoPrints()
    ensures AreaBytes([Subpacket(false, IsPrimary(false))]) == Some([2, 25, 0])
  {
    var sp := Subpacket(false, IsPrimary(false));
    assert SubpacketBytes(sp) == Some([2] + ([25] + [0]));
    AreaUnfold(sp, []);
    assert [sp] + [] == [sp];
    assert [2] + ([25] + [0]) + [] == [2, 25, 0];
  }

  /** An area for which it fails: a primary user id flag of 2 is read as false and hashed as 0. */
  lemma FlagOfTwo()
    ensures ParseArea([2, 25, 2]) == [Subpacket(false, IsPrimary(false))]
    ensures AreaBytes(ParseArea([2, 25, 2])) == Some([2, 25, 0]) && !CanonicalArea([2, 25, 2])
  {
    FlagOfTwoParses();
    FlagOfTwoPrints();
    AreaReceived([2, 25, 2]);
  }
}

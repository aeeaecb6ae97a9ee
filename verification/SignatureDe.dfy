/** Parsing of signature packets (`src/packet/signature/de.rs`).

    A subpacket area is read with `many0(complete(..))`: whatever goes wrong in a subpacket ends the list without
    an error, so the parsers below an area return an `Option`. */
module SignatureDe {
  import opened Bytes
  import opened Utf8
  import opened Mpi
  import opened PacketLength
  import opened SignatureTypes

  function Octet(i: bytes): Option<byte> {
    if i == [] then None else Some(i[0])
  }

  function Seconds(i: bytes): Option<u32> {
    if |i| < 4 then None else Some(FromBe32(i[..4]))
  }

  /** `notation_data` */
  function ParseNotation(i: bytes): Option<SubpacketData> {
    if |i| < 8 || i[1] != 0 || i[2] != 0 || i[3] != 0 then None else
      var nameLen := FromBe16(i[4..6]) as int;
      var contentLen := FromBe16(i[6..8]) as int;
      if |i| < 8 + nameLen + contentLen then None else
        Some(Notation(i[0] == 0x80, i[8..8 + nameLen], i[8 + nameLen..8 + nameLen + contentLen]))
  }

  /** `revocation_key` */
  function ParseRevocationKey(i: bytes): Option<SubpacketData> {
    if |i| < 22 || (i[0] != 0x80 && i[0] != 0xC0) then None else
      Some(RevocationKey(if i[0] == 0x80 then Default else Sensitive, AlgorithmFrom(i[1]), i[2..22]))
  }

  function Embed(p: Parse<Signature>): Option<SubpacketData> {
    if p.Parsed? then Some(EmbeddedSignature(p.value)) else None
  }

  /** `embedded_sig` */
  function ParseEmbedded(body: bytes): Option<SubpacketData>
    decreases |body|, 1
  {
    Embed(ParseSignature(New, body))
  }

  /** `subpacket`: the parser chosen by the type; octets it leaves over are ignored by the caller. */
  function ParseData(typ: SubpacketType, body: bytes): Option<SubpacketData>
    decreases |body|, 2
  {
    match typ
    case SignatureCreationTimeT => (var t :- Seconds(body); Some(SignatureCreationTime(t)))
    case SignatureExpirationTimeT => (var t :- Seconds(body); Some(SignatureExpirationTime(t)))
    case ExportableCertificationT => (var b :- Octet(body); Some(ExportableCertification(b == 1)))
    case TrustSignatureT => if |body| < 2 then None else Some(TrustSignature(body[0], body[1]))
    case RegularExpressionT => Some(RegularExpression(body))
    case RevocableT => (var b :- Octet(body); Some(Revocable(b == 1)))
    case KeyExpirationTimeT => (var t :- Seconds(body); Some(KeyExpirationTime(t)))
    case PreferredSymmetricT => Some(PreferredSymmetricAlgorithms(body))
    case RevocationKeyT => ParseRevocationKey(body)
    case IssuerT => if |body| < 8 then None else Some(Issuer(body[..8]))
    case NotationT => ParseNotation(body)
    case PreferredHashT => Some(PreferredHashAlgorithms(body))
    case PreferredCompressionT => Some(PreferredCompressionAlgorithms(body))
    case KeyServerPreferencesT => Some(KeyServerPreferences(body))
    case PreferredKeyServerT => if WellFormed(body) then Some(PreferredKeyServer(body)) else None
    case PrimaryUserIdT => (var b :- Octet(body); Some(IsPrimary(b == 1)))
    case PolicyUriT => if WellFormed(body) then Some(PolicyURI(body)) else None
    case KeyFlagsT => Some(KeyFlags(body))
    case SignersUserIdT => Some(SignersUserID(body))
    case RevocationReasonT => (var code :- Octet(body); Some(RevocationReason(code, body[1..])))
    case FeaturesT => Some(Features(body))
    case SignatureTargetT =>
      if |body| < 2 then None else Some(SignatureTarget(AlgorithmFrom(body[0]), body[1], body[2..]))
    case EmbeddedSignatureT => ParseEmbedded(body)
    case IssuerFingerprintT => (var version :- Octet(body); Some(IssuerFingerprint(version, body[1..])))
    case PreferredAeadT => Some(PreferredAeadAlgorithms(body))
    case ExperimentalT(n) => Some(Experimental(n, body))
    case OtherT(n) => Some(OtherData(n, body))
  }

  /** The type octet, the body and what follows a subpacket. A length of zero underflows `len - 1`: as in a
      build without overflow checks, no input is long enough for it. */
  function ParseFrame(i: bytes): (r: Option<(byte, bytes, bytes)>)
    ensures r.Some? ==> |r.value.1| + |r.value.2| < |i|
  {
    match ParseLength(i)
    case Parsed(len, i) =>
      if len == 0 || |i| < len then None else Some((i[0], i[1..len], i[len..]))
    case _ => None
  }

  /** One subpacket of `subpackets` */
  function ParseSubpacket(i: bytes): (r: Option<(Subpacket, bytes)>)
    ensures r.Some? ==> |r.value.1| < |i|
    decreases |i|, 3
  {
    var (code, body, rest) :- ParseFrame(i);
    var (typ, critical) := SubpacketTypeFrom(code);
    var data :- ParseData(typ, body);
    Some((Subpacket(critical, data), rest))
  }

  /** `subpackets` */
  function ParseArea(i: bytes): seq<Subpacket>
    decreases |i|, 4
  {
    match ParseSubpacket(i)
    case Some((sp, rest)) => [sp] + ParseArea(rest)
    case None => []
  }

  /** `actual_signature` */
  function MpiCount(a: PublicKeyAlgorithm): nat {
    match a
    case RSA | RSASign | Private(_) => 1
    case DSA | ECDSA | EdDSA => 2
    case _ => 0
  }

  const MPI: bytes -> Parse<bytes> := (i: bytes) => ParseMpi(i)

  function ParseMpis(count: nat, i: bytes): Parse<seq<bytes>> {
    Many(MPI, count, i)
  }

  /** The two leading octets of the digest, then the MPIs */
  function ParseTail(a: PublicKeyAlgorithm, i: bytes): Parse<(octets2, seq<bytes>)> {
    var (left, i) :- Take(2, i);
    var (mpis, i) :- ParseMpis(MpiCount(a), i);
    Parsed((left, mpis), i)
  }

  function ParseType(i: bytes): Parse<SignatureType> {
    var (code, i) :- U8(i);
    match TypeFrom(code)
    case Some(typ) => Parsed(typ, i)
    case None => Error
  }

  function ParseAlgorithms(i: bytes): Parse<(PublicKeyAlgorithm, byte)> {
    var (pubAlg, i) :- U8(i);
    var (hashAlg, i) :- U8(i);
    Parsed((AlgorithmFrom(pubAlg), hashAlg), i)
  }

  /** `length_data(be_u16)` */
  function ParseCounted(i: bytes): Parse<bytes> {
    var (n, i) :- U16(i);
    Take(n, i)
  }

  function ParseV3Front(i: bytes): Parse<(SignatureType, u32, keyid)> {
    var (count, i) :- U8(i);
    if count != 5 then Error else
      var (typ, i) :- ParseType(i);
      var (created, i) :- U32(i);
      var (issuer, i) :- Take(8, i);
      Parsed((typ, created, issuer), i)
  }

  /** `v3_parser`, after the version octet */
  function ParseV3(packetVersion: Version, version: SignatureVersion, i: bytes): Parse<Signature> {
    var ((typ, created, issuer), i) :- ParseV3Front(i);
    var ((pubAlg, hashAlg), i) :- ParseAlgorithms(i);
    var ((left, mpis), i) :- ParseTail(pubAlg, i);
    Parsed(Signature(packetVersion,
                     SignatureConfig(version, typ, pubAlg, hashAlg, [], [], Some(created), Some(issuer)),
                     left, mpis), i)
  }

  /** `v4_parser`, after the algorithms */
  function ParseAreas(packetVersion: Version, version: SignatureVersion, typ: SignatureType, pubAlg: PublicKeyAlgorithm,
                      hashAlg: byte, i: bytes): Parse<Signature>
    decreases |i|, 5
  {
    var (hashed, i) :- ParseCounted(i);
    var (unhashed, i) :- ParseCounted(i);
    var ((left, mpis), i) :- ParseTail(pubAlg, i);
    Parsed(Signature(packetVersion,
                     SignatureConfig(version, typ, pubAlg, hashAlg, ParseArea(unhashed), ParseArea(hashed),
                                     None, None),
                     left, mpis), i)
  }

  /** `v4_parser`, after the version octet */
  function ParseV4(packetVersion: Version, version: SignatureVersion, i: bytes): Parse<Signature>
    decreases |i|, 6
  {
    var (typ, i) :- ParseType(i);
    var ((pubAlg, hashAlg), i) :- ParseAlgorithms(i);
    ParseAreas(packetVersion, version, typ, pubAlg, hashAlg, i)
  }

  /** `parse` */
  function ParseSignature(packetVersion: Version, i: bytes): Parse<Signature>
    decreases |i|, 0
  {
    var (code, i) :- U8(i);
    var version := VersionFrom(code);
    match version
    case V2 | V3 => ParseV3(packetVersion, version, i)
    case V4 | V5 => ParseV4(packetVersion, version, i)
    case OtherVersion(_) => Error
  }
}

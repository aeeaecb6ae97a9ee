/** Data types of the signature packet (`src/packet/signature/types.rs`).

    An identifier that no code path looks into (hash, symmetric, compression and AEAD algorithm, key version,
    revocation code) is its octet: the catch-all variant of each Rust enum makes octets and canonical values
    correspond one to one. Times are 32-bit seconds. */
module SignatureTypes {
  import opened Bytes
  import opened Utf8

  type keyid = s: bytes | |s| == 8 witness [0, 0, 0, 0, 0, 0, 0, 0]
  type octets2 = s: bytes | |s| == 2 witness [0, 0]

  /** Packet format (`src/types/packet.rs`) */
  datatype Version = Old | New

  datatype PublicKeyAlgorithm =
    | RSA | RSAEncrypt | RSASign | ElgamalSign | DSA | ECDH | ECDSA | Elgamal | DiffieHellman | EdDSA
    | Private(code: byte)
    | Unknown(code: byte)

  function AlgorithmCode(a: PublicKeyAlgorithm): byte {
    match a
    case RSA => 1 case RSAEncrypt => 2 case RSASign => 3 case ElgamalSign => 16 case DSA => 17
    case ECDH => 18 case ECDSA => 19 case Elgamal => 20 case DiffieHellman => 21 case EdDSA => 22
    case Private(n) => n
    case Unknown(n) => n
  }

  function AlgorithmFrom(n: byte): PublicKeyAlgorithm {
    if n == 1 then RSA else if n == 2 then RSAEncrypt else if n == 3 then RSASign
    else if n == 16 then ElgamalSign else if n == 17 then DSA else if n == 18 then ECDH
    else if n == 19 then ECDSA else if n == 20 then Elgamal else if n == 21 then DiffieHellman
    else if n == 22 then EdDSA else if 100 <= n <= 110 then Private(n) else Unknown(n)
  }

  /** The private range and the catch-all hold no octet that has a name of its own. */
  predicate CanonicalAlgorithm(a: PublicKeyAlgorithm) {
    AlgorithmFrom(AlgorithmCode(a)) == a
  }

  datatype SignatureVersion = V2 | V3 | V4 | V5 | OtherVersion(code: byte)

  function VersionCode(v: SignatureVersion): byte {
    match v case V2 => 2 case V3 => 3 case V4 => 4 case V5 => 5 case OtherVersion(n) => n
  }

  function VersionFrom(n: byte): SignatureVersion {
    if n == 2 then V2 else if n == 3 then V3 else if n == 4 then V4 else if n == 5 then V5 else OtherVersion(n)
  }

  datatype SignatureType =
    | Binary | Text | Standalone | CertGeneric | CertPersona | CertCasual | CertPositive | SubkeyBinding
    | KeyBinding | Key | KeyRevocation | SubkeyRevocation | CertRevocation | Timestamp | ThirdParty

  function TypeCode(t: SignatureType): byte {
    match t
    case Binary => 0x00 case Text => 0x01 case Standalone => 0x02 case CertGeneric => 0x10
    case CertPersona => 0x11 case CertCasual => 0x12 case CertPositive => 0x13 case SubkeyBinding => 0x18
    case KeyBinding => 0x19 case Key => 0x1F case KeyRevocation => 0x20 case SubkeyRevocation => 0x28
    case CertRevocation => 0x30 case Timestamp => 0x40 case ThirdParty => 0x50
  }

  function TypeFrom(n: byte): Option<SignatureType> {
    if n == 0x00 then Some(Binary) else if n == 0x01 then Some(Text) else if n == 0x02 then Some(Standalone)
    else if n == 0x10 then Some(CertGeneric) else if n == 0x11 then Some(CertPersona)
    else if n == 0x12 then Some(CertCasual) else if n == 0x13 then Some(CertPositive)
    else if n == 0x18 then Some(SubkeyBinding) else if n == 0x19 then Some(KeyBinding)
    else if n == 0x1F then Some(Key) else if n == 0x20 then Some(KeyRevocation)
    else if n == 0x28 then Some(SubkeyRevocation) else if n == 0x30 then Some(CertRevocation)
    else if n == 0x40 then Some(Timestamp) else if n == 0x50 then Some(ThirdParty) else None
  }

  predicate IsCertification(t: SignatureType) {
    t in {CertGeneric, CertPersona, CertCasual, CertPositive, CertRevocation}
  }

  datatype RevocationKeyClass = Default | Sensitive

  datatype SubpacketType =
    | SignatureCreationTimeT | SignatureExpirationTimeT | ExportableCertificationT | TrustSignatureT
    | RegularExpressionT | RevocableT | KeyExpirationTimeT | PreferredSymmetricT | RevocationKeyT
    | IssuerT | NotationT | PreferredHashT | PreferredCompressionT | KeyServerPreferencesT
    | PreferredKeyServerT | PrimaryUserIdT | PolicyUriT | KeyFlagsT | SignersUserIdT
    | RevocationReasonT | FeaturesT | SignatureTargetT | EmbeddedSignatureT | IssuerFingerprintT
    | PreferredAeadT | ExperimentalT(code: byte) | OtherT(code: byte)

  function RawType(t: SubpacketType): byte {
    match t
    case SignatureCreationTimeT => 2 case SignatureExpirationTimeT => 3 case ExportableCertificationT => 4
    case TrustSignatureT => 5 case RegularExpressionT => 6 case RevocableT => 7 case KeyExpirationTimeT => 9
    case PreferredSymmetricT => 11 case RevocationKeyT => 12 case IssuerT => 16 case NotationT => 20
    case PreferredHashT => 21 case PreferredCompressionT => 22 case KeyServerPreferencesT => 23
    case PreferredKeyServerT => 24 case PrimaryUserIdT => 25 case PolicyUriT => 26 case KeyFlagsT => 27
    case SignersUserIdT => 28 case RevocationReasonT => 29 case FeaturesT => 30 case SignatureTargetT => 31
    case EmbeddedSignatureT => 32 case IssuerFingerprintT => 33 case PreferredAeadT => 34
    case ExperimentalT(n) => n
    case OtherT(n) => n
  }

  function TypeFromRaw(n: byte): SubpacketType {
    if n == 2 then SignatureCreationTimeT else if n == 3 then SignatureExpirationTimeT
    else if n == 4 then ExportableCertificationT else if n == 5 then TrustSignatureT
    else if n == 6 then RegularExpressionT else if n == 7 then RevocableT else if n == 9 then KeyExpirationTimeT
    else if n == 11 then PreferredSymmetricT else if n == 12 then RevocationKeyT else if n == 16 then IssuerT
    else if n == 20 then NotationT else if n == 21 then PreferredHashT else if n == 22 then PreferredCompressionT
    else if n == 23 then KeyServerPreferencesT else if n == 24 then PreferredKeyServerT
    else if n == 25 then PrimaryUserIdT else if n == 26 then PolicyUriT else if n == 27 then KeyFlagsT
    else if n == 28 then SignersUserIdT else if n == 29 then RevocationReasonT else if n == 30 then FeaturesT
    else if n == 31 then SignatureTargetT else if n == 32 then EmbeddedSignatureT
    else if n == 33 then IssuerFingerprintT else if n == 34 then PreferredAeadT
    else if 100 <= n <= 110 then ExperimentalT(n) else OtherT(n)
  }

  /** `as_u8`: the critical flag is the top bit, set by `|`. */
  function SubpacketTypeCode(t: SubpacketType, critical: bool): byte {
    if critical && RawType(t) < 128 then RawType(t) + 128 else RawType(t)
  }

  function SubpacketTypeFrom(n: byte): (SubpacketType, bool) {
    (TypeFromRaw(n % 128), n >= 128)
  }

  predicate CanonicalType(t: SubpacketType) {
    RawType(t) < 128 && TypeFromRaw(RawType(t)) == t
  }

  /** The type octet is decoded to the same type and flag, for both flags, exactly when the type is canonical. */
  lemma SubpacketTypeRoundTrip(t: SubpacketType)
    ensures CanonicalType(t)
            <==> forall critical :: SubpacketTypeFrom(SubpacketTypeCode(t, critical)) == (t, critical)
  {
    var r := RawType(t);
    assert SubpacketTypeFrom(SubpacketTypeCode(t, false)).1 == (r >= 128);
    if r < 128 {
      FlagIsSeparate(r);
      assert SubpacketTypeCode(t, false) == r && SubpacketTypeCode(t, true) == r + 128;
    }
  }

  lemma FlagIsSeparate(r: byte)
    requires r < 128
    ensures SubpacketTypeFrom(r) == (TypeFromRaw(r), false) && SubpacketTypeFrom(r + 128) == (TypeFromRaw(r), true)
  {
    assert r % 128 == r && (r + 128) % 128 == r;
  }

  datatype SubpacketData =
    | SignatureCreationTime(time: u32)
    | SignatureExpirationTime(duration: u32)
    | KeyExpirationTime(duration: u32)
    | Issuer(id: keyid)
    | PreferredSymmetricAlgorithms(codes: bytes)
    | PreferredHashAlgorithms(codes: bytes)
    | PreferredCompressionAlgorithms(codes: bytes)
    | KeyServerPreferences(raw: bytes)
    | KeyFlags(raw: bytes)
    | Features(raw: bytes)
    | RevocationReason(reasonCode: byte, reason: bytes)
    | IsPrimary(flag: bool)
    | Revocable(flag: bool)
    | EmbeddedSignature(inner: Signature)
    | PreferredKeyServer(server: text)
    | Notation(readable: bool, name: bytes, content: bytes)
    | RevocationKey(class_: RevocationKeyClass, keyAlg: PublicKeyAlgorithm, fingerprint: bytes)
    | SignersUserID(raw: bytes)
    | PolicyURI(uri: text)
    | TrustSignature(depth: byte, amount: byte)
    | RegularExpression(raw: bytes)
    | ExportableCertification(flag: bool)
    | IssuerFingerprint(keyVersion: byte, fingerprint: bytes)
    | PreferredAeadAlgorithms(codes: bytes)
    | Experimental(typeCode: byte, raw: bytes)
    | OtherData(typeCode: byte, raw: bytes)
    | SignatureTarget(targetAlg: PublicKeyAlgorithm, hashCode: byte, hash: bytes)

  datatype Subpacket = Subpacket(critical: bool, data: SubpacketData)

  datatype SignatureConfig = SignatureConfig(
    version: SignatureVersion,
    typ: SignatureType,
    pubAlg: PublicKeyAlgorithm,
    hashAlg: byte,
    unhashed: seq<Subpacket>,
    hashed: seq<Subpacket>,
    created: Option<u32>,
    issuer: Option<keyid>)

  datatype Signature = Signature(
    packetVersion: Version,
    config: SignatureConfig,
    signedHashValue: octets2,
    mpis: seq<bytes>)

  /** `Subpacket::typ` */
  function DataType(d: SubpacketData): SubpacketType {
    match d
    case SignatureCreationTime(_) => SignatureCreationTimeT
    case SignatureExpirationTime(_) => SignatureExpirationTimeT
    case KeyExpirationTime(_) => KeyExpirationTimeT
    case Issuer(_) => IssuerT
    case PreferredSymmetricAlgorithms(_) => PreferredSymmetricT
    case PreferredHashAlgorithms(_) => PreferredHashT
    case PreferredCompressionAlgorithms(_) => PreferredCompressionT
    case KeyServerPreferences(_) => KeyServerPreferencesT
    case KeyFlags(_) => KeyFlagsT
    case Features(_) => FeaturesT
    case RevocationReason(_, _) => RevocationReasonT
    case IsPrimary(_) => PrimaryUserIdT
    case Revocable(_) => RevocableT
    case EmbeddedSignature(_) => EmbeddedSignatureT
    case PreferredKeyServer(_) => PreferredKeyServerT
    case Notation(_, _, _) => NotationT
    case RevocationKey(_, _, _) => RevocationKeyT
    case SignersUserID(_) => SignersUserIdT
    case PolicyURI(_) => PolicyUriT
    case TrustSignature(_, _) => TrustSignatureT
    case RegularExpression(_) => RegularExpressionT
    case ExportableCertification(_) => ExportableCertificationT
    case IssuerFingerprint(_, _) => IssuerFingerprintT
    case PreferredAeadAlgorithms(_) => PreferredAeadT
    case Experimental(n, _) => ExperimentalT(n)
    case OtherData(n, _) => OtherT(n)
    case SignatureTarget(_, _, _) => SignatureTargetT
  }
}

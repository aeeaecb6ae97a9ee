/** Serialization of signature packets (`src/packet/signature/ser.rs`).

    `None` stands for what the source does not write: a signature of an unknown version is an error,
    and a version 2 or 3 signature without creation time or issuer makes it panic. */
module SignatureSer {
  import opened Bytes
  import opened Utf8
  import opened Mpi
  import opened PacketLength
  import opened SignatureTypes

  function Flag(b: bool): byte { if b then 1 else 0 }

  function ClassCode(c: RevocationKeyClass): byte { if c.Default? then 0x80 else 0xC0 }

  /** `body_to_writer` */
  function BodyBytes(d: SubpacketData): Option<bytes>
    decreases d, 0
  {
    match d
    case SignatureCreationTime(t) => Some(Be32(t))
    case SignatureExpirationTime(t) => Some(Be32(t))
    case KeyExpirationTime(t) => Some(Be32(t))
    case Issuer(id) => Some(id)
    case PreferredSymmetricAlgorithms(codes) => Some(codes)
    case PreferredHashAlgorithms(codes) => Some(codes)
    case PreferredCompressionAlgorithms(codes) => Some(codes)
    case KeyServerPreferences(raw) => Some(raw)
    case KeyFlags(raw) => Some(raw)
    case Features(raw) => Some(raw)
    case RevocationReason(code, reason) => Some([code] + reason)
    case IsPrimary(b) => Some([Flag(b)])
    case Revocable(b) => Some([Flag(b)])
    case EmbeddedSignature(inner) => SignatureBytes(inner)
    case PreferredKeyServer(server) => Some(server)
    case Notation(readable, name, content) =>
      Some([if readable then 0x80 else 0, 0, 0, 0] + Be16(|name|) + Be16(|content|) + name + content)
    case RevocationKey(class_, alg, fingerprint) => Some([ClassCode(class_), AlgorithmCode(alg)] + fingerprint)
    case SignersUserID(raw) => Some(raw)
    case PolicyURI(uri) => Some(uri)
    case TrustSignature(depth, amount) => Some([depth, amount])
    case RegularExpression(raw) => Some(raw)
    case ExportableCertification(b) => Some([Flag(b)])
    case IssuerFingerprint(version, fingerprint) => Some([version] + fingerprint)
    case PreferredAeadAlgorithms(codes) => Some(codes)
    case Experimental(_, raw) => Some(raw)
    case OtherData(_, raw) => Some(raw)
    case SignatureTarget(alg, hashCode, hash) => Some([AlgorithmCode(alg), hashCode] + hash)
  }

  /** `body_len`, which the source computes apart from the body, and wherever it can without writing it. */
  function BodyLen(d: SubpacketData): Option<nat> {
    match d
    case SignatureCreationTime(_) => Some(4)
    case SignatureExpirationTime(_) => Some(4)
    case KeyExpirationTime(_) => Some(4)
    case Issuer(_) => Some(8)
    case PreferredSymmetricAlgorithms(codes) => Some(|codes|)
    case PreferredHashAlgorithms(codes) => Some(|codes|)
    case PreferredCompressionAlgorithms(codes) => Some(|codes|)
    case KeyServerPreferences(raw) => Some(|raw|)
    case KeyFlags(raw) => Some(|raw|)
    case Features(raw) => Some(|raw|)
    case RevocationReason(_, reason) => Some(1 + |reason|)
    case IsPrimary(_) => Some(1)
    case Revocable(_) => Some(1)
    case EmbeddedSignature(inner) => (
      var buf :- SignatureBytes(inner);
      Some(|buf|))
    case PreferredKeyServer(server) => Some(CharCount(server))
    case Notation(_, name, content) => Some(4 + 2 + 2 + |name| + |content|)
    case RevocationKey(_, _, _) => Some(22)
    case SignersUserID(raw) => Some(|raw|)
    case PolicyURI(uri) => Some(|uri|)
    case TrustSignature(_, _) => Some(2)
    case RegularExpression(raw) => Some(|raw|)
    case ExportableCertification(_) => Some(1)
    case IssuerFingerprint(_, fingerprint) => Some(1 + |fingerprint|)
    case PreferredAeadAlgorithms(codes) => Some(|codes|)
    case Experimental(_, raw) => Some(|raw|)
    case OtherData(_, raw) => Some(|raw|)
    case SignatureTarget(_, _, hash) => Some(2 + |hash|)
  }

  function Join(a: Option<bytes>, b: Option<bytes>): Option<bytes> {
    if a.Some? && b.Some? then Some(a.value + b.value) else None
  }

  lemma JoinAssociative(a: Option<bytes>, b: Option<bytes>, c: Option<bytes>)
    ensures Join(Join(a, b), c) == Join(a, Join(b, c))
  {
    if a.Some? && b.Some? && c.Some? {
      assert a.value + b.value + c.value == a.value + (b.value + c.value);
    }
  }

  function FrameBytes(len: nat, code: byte, body: bytes): bytes {
    WriteLength(1 + len) + ([code] + body)
  }

  /** `Serialize for Subpacket` */
  function SubpacketBytes(sp: Subpacket): Option<bytes>
    decreases sp, 0
  {
    var len :- BodyLen(sp.data);
    var body :- BodyBytes(sp.data);
    Some(FrameBytes(len, SubpacketTypeCode(DataType(sp.data), sp.critical), body))
  }

  /** A subpacket area: the subpackets one after the other. */
  function AreaBytes(sps: seq<Subpacket>): Option<bytes>
    decreases sps, 0
  {
    if sps == [] then Some([]) else Join(SubpacketBytes(sps[0]), AreaBytes(sps[1..]))
  }

  function Counted(a: bytes): bytes {
    Be16(|a|) + a
  }

  function AlgorithmOctets(c: SignatureConfig): bytes {
    [AlgorithmCode(c.pubAlg), c.hashAlg]
  }

  function TailBytes(s: Signature): bytes {
    s.signedHashValue + MpisBytes(s.mpis)
  }

  function V3Front(typ: SignatureType, created: u32, issuer: keyid): bytes {
    [5] + ([TypeCode(typ)] + (Be32(created) + issuer))
  }

  function V3Body(s: Signature): bytes
    requires s.config.created.Some? && s.config.issuer.Some?
  {
    var c := s.config;
    V3Front(c.typ, c.created.value, c.issuer.value) + AlgorithmOctets(c) + TailBytes(s)
  }

  function V4Body(s: Signature, hashed: bytes, unhashed: bytes): bytes {
    var c := s.config;
    [TypeCode(c.typ)] + AlgorithmOctets(c) + Counted(hashed) + Counted(unhashed) + TailBytes(s)
  }

  /** `Serialize for Signature`: `to_writer_v3` and `to_writer_v4`. */
  function SignatureBytes(s: Signature): Option<bytes>
    decreases s, 0
  {
    var c := s.config;
    match c.version
    case V2 | V3 =>
      if c.created.None? || c.issuer.None? then None else Some([VersionCode(c.version)] + V3Body(s))
    case V4 | V5 =>
      var hashed :- AreaBytes(c.hashed);
      var unhashed :- AreaBytes(c.unhashed);
      Some([VersionCode(c.version)] + V4Body(s, hashed, unhashed))
    case OtherVersion(_) => None
  }

  /** The declared length of a subpacket is the number of octets its body takes, for every kind and at every
      nesting depth, with two exceptions: a key server name outside ASCII and a fingerprint not of 20 octets. */
  lemma BodyLenIsExact(d: SubpacketData)
    requires BodyBytes(d).Some?
    ensures BodyLen(d).Some?
    ensures BodyLen(d).value == |BodyBytes(d).value|
            <==> (d.PreferredKeyServer? ==> Ascii(d.server)) && (d.RevocationKey? ==> |d.fingerprint| == 20)
  {
    if d.PreferredKeyServer? {
      CharCountIsLength(d.server);
    }
  }

  lemma {:induction false} AreaBytesAppend(sps: seq<Subpacket>, sp: Subpacket)
    ensures AreaBytes(sps + [sp]) == Join(AreaBytes(sps), SubpacketBytes(sp))
  {
    var last := SubpacketBytes(sp);
    if sps == [] {
      assert sps + [sp] == [sp] && [sp][1..] == [];
      if last.Some? {
        assert last.value + [] == last.value == [] + last.value;
      }
    } else {
      assert (sps + [sp])[1..] == sps[1..] + [sp];
      AreaBytesAppend(sps[1..], sp);
      JoinAssociative(SubpacketBytes(sps[0]), AreaBytes(sps[1..]), last);
    }
  }

  lemma {:induction false} AreaBytesNone(sps: seq<Subpacket>, k: nat)
    requires k < |sps| && SubpacketBytes(sps[k]).None?
    ensures AreaBytes(sps).None?
  {
    if k > 0 {
      AreaBytesNone(sps[1..], k - 1);
    }
  }

  /** The loop that writes one subpacket after another into a fresh buffer. */
  method WriteArea(sps: seq<Subpacket>) returns (r: Option<bytes>)
    ensures r == AreaBytes(sps)
  {
    var buf: bytes := [];
    for k := 0 to |sps|
      invariant AreaBytes(sps[..k]) == Some(buf)
    {
      var packet := SubpacketBytes(sps[k]);
      if packet.None? {
        AreaBytesNone(sps, k);
        return None;
      }
      AreaBytesAppend(sps[..k], sps[k]);
      assert sps[..k + 1] == sps[..k] + [sps[k]];
      buf := buf + packet.value;
    }
    assert sps[..|sps|] == sps;
    r := Some(buf);
  }
}

/** Transferable keys (section 11.1 of RFC 4880): the parser of `src/composed/signed_key/key_parser_macros.rs`, the
    constructors that drop what is unsigned, and the printers beside them. */
module SignedKeys {
  import opened Bytes
  import opened PacketItems
  import opened SignatureTypes

  datatype Packet =
    | PublicKey(version: byte, body: bytes)
    | SecretKey(version: byte, body: bytes)
    | PublicSubkey(body: bytes)
    | SecretSubkey(body: bytes)
    | UserId(body: bytes)
    | UserAttribute(body: bytes)
    | SignaturePacket(signature: Signature)
    | Other(tag: byte, body: bytes)

  type Item = Received<Packet>

  /** A user id, user attribute or subkey with the signatures after it */
  datatype Signed = Signed(packet: Packet, signatures: seq<Signature>)

  datatype Key = SignedKey(
    primary: Packet, revocations: seq<Signature>, directs: seq<Signature>, users: seq<Signed>,
    attributes: seq<Signed>, publicSubkeys: seq<Signed>, secretSubkeys: seq<Signed>)

  datatype Outcome = End | Found(key: Key) | Failure

  // ---- Kinds of packets

  /** The packets that carry signatures, and the place they have in a key */
  datatype Role = UserRole | AttributeRole | PublicRole | SecretRole

  predicate HasRole(p: Packet, role: Role) {
    match role
    case UserRole => p.UserId?
    case AttributeRole => p.UserAttribute?
    case PublicRole => p.PublicSubkey?
    case SecretRole => p.SecretSubkey?
  }

  /** The ways in which signatures are sorted out: revocations and others behind the primary key, and what the
      constructors keep behind the other packets */
  datatype Selector = Revocation | Direct | Of(role: Role)

  predicate Selects(sel: Selector, t: SignatureType) {
    match sel
    case Revocation => t == KeyRevocation
    case Direct => t != KeyRevocation
    case Of(role) =>
      if role.UserRole? || role.AttributeRole? then IsCertification(t) else t.SubkeyBinding? || t.SubkeyRevocation?
  }

  ghost predicate AllSelected(sigs: seq<Signature>, sel: Selector) {
    forall i :: 0 <= i < |sigs| ==> Selects(sel, sigs[i].config.typ)
  }

  /** The two parts of a key in which a loop collects packets with their signatures; the parser of public keys does
      not accept secret subkeys. */
  datatype Section = Users | Subkeys(secret: bool)

  predicate InSection(p: Packet, n: Section) {
    if n.Users? then p.UserId? || p.UserAttribute? else p.PublicSubkey? || (n.secret && p.SecretSubkey?)
  }

  predicate IsPrimaryKey(p: Packet, secret: bool) { if secret then p.SecretKey? else p.PublicKey? }

  predicate StartsWith(s: seq<Item>, n: Section) { s != [] && s[0].Ok? && InSection(s[0].packet, n) }

  predicate StartsSigned(s: seq<Item>) { s != [] && s[0].Ok? && s[0].packet.SignaturePacket? }

  // ---- The parser

  function SkipOthers(s: seq<Item>, secret: bool): (r: seq<Item>)
    ensures |r| <= |s|
  {
    if s != [] && s[0].Ok? && !IsPrimaryKey(s[0].packet, secret) then SkipOthers(s[1..], secret) else s
  }

  function Sigs(s: seq<Item>): (r: (seq<Signature>, seq<Item>))
    ensures |r.0| + |r.1| == |s| && !StartsSigned(r.1)
  {
    if StartsSigned(s) then
      var r := Sigs(s[1..]);
      ([s[0].packet.signature] + r.0, r.1)
    else ([], s)
  }

  function Bundles(s: seq<Item>, n: Section): (r: (seq<Signed>, seq<Item>))
    ensures |r.1| <= |s| && !StartsWith(r.1, n) && (StartsSigned(r.1) ==> StartsSigned(s)) && (r.0 == [] ==> r.1 == s)
    decreases |s|
  {
    if StartsWith(s, n) then
      var (sigs, rest) := Sigs(s[1..]);
      var r := Bundles(rest, n);
      ([Signed(s[0].packet, sigs)] + r.0, r.1)
    else ([], s)
  }

  function Filter(sigs: seq<Signature>, sel: Selector): seq<Signature> {
    if sigs == [] then []
    else (if Selects(sel, sigs[0].config.typ) then [sigs[0]] else []) + Filter(sigs[1..], sel)
  }

  function Kept(b: Signed, role: Role): Signed {
    Signed(b.packet, Filter(b.signatures, Of(role)))
  }

  /** What the constructors keep of one role: the signatures of the right types, and no packet without one */
  function Retain(bs: seq<Signed>, role: Role): seq<Signed> {
    if bs == [] then []
    else
      var b := Kept(bs[0], role);
      (if HasRole(b.packet, role) && b.signatures != [] then [b] else []) + Retain(bs[1..], role)
  }

  function MakeKey(primary: Packet, sigs: seq<Signature>, users: seq<Signed>, subkeys: seq<Signed>): Key {
    SignedKey(primary, Filter(sigs, Revocation), Filter(sigs, Direct), Retain(users, UserRole),
              Retain(users, AttributeRole), Retain(subkeys, PublicRole), Retain(subkeys, SecretRole))
  }

  function KeyVersion(p: Packet): byte { if p.PublicKey? || p.SecretKey? then p.version else 0 }

  /** The next key, and the items left for the one after it */
  function Next(s: seq<Item>, secret: bool): (r: (Outcome, seq<Item>))
    ensures |r.1| <= |s| && (s != [] ==> |r.1| < |s|)
  {
    var s1 := SkipOthers(s, secret);
    if s1 == [] then (End, [])
    else if s1[0].Err? then (Failure, s1[1..])
    else NextKey(s1[0].packet, s1[1..], secret)
  }

  function NextKey(primary: Packet, s: seq<Item>, secret: bool): (r: (Outcome, seq<Item>))
    ensures |r.1| <= |s|
  {
    var (sigs, s2) := Sigs(s);
    var (users, s3) := Bundles(s2, Users);
    if StartsWith(s3, Subkeys(secret)) && KeyVersion(primary) != 4 then (Failure, s3[1..])
    else
      var (subkeys, s4) := Bundles(s3, Subkeys(secret));
      (Found(MakeKey(primary, sigs, users, subkeys)), s4)
  }

  // ---- The printer

  function SigPackets(sigs: seq<Signature>): (r: seq<Packet>)
    ensures |r| == |sigs| && forall k :: 0 <= k < |r| ==> r[k] == SignaturePacket(sigs[k])
  {
    seq(|sigs|, k requires 0 <= k < |sigs| => SignaturePacket(sigs[k]))
  }

  function PrintSigned(bs: seq<Signed>): seq<Packet> {
    if bs == [] then [] else [bs[0].packet] + SigPackets(bs[0].signatures) + PrintSigned(bs[1..])
  }

  function Print(k: Key): seq<Packet> {
    [k.primary] + SigPackets(k.revocations) + SigPackets(k.directs) + PrintSigned(k.users) + PrintSigned(k.attributes)
    + PrintSigned(k.publicSubkeys) + PrintSigned(k.secretSubkeys)
  }

  // ---- The keys that the parser makes

  ghost predicate WfSigned(b: Signed, role: Role) {
    HasRole(b.packet, role) && b.signatures != [] && AllSelected(b.signatures, Of(role))
  }

  ghost predicate WfList(bs: seq<Signed>, role: Role) {
    forall i :: 0 <= i < |bs| ==> WfSigned(bs[i], role)
  }

  ghost predicate Wf(k: Key, secret: bool) {
    && IsPrimaryKey(k.primary, secret)
    && AllSelected(k.revocations, Revocation) && AllSelected(k.directs, Direct)
    && WfList(k.users, UserRole) && WfList(k.attributes, AttributeRole)
    && WfList(k.publicSubkeys, PublicRole) && WfList(k.secretSubkeys, SecretRole)
    && (!secret ==> k.secretSubkeys == [])
    && (KeyVersion(k.primary) != 4 ==> k.publicSubkeys == [] && k.secretSubkeys == [])
  }

  /** What follows a key would be read as part of it. */
  predicate Continues(k: Key, secret: bool, rest: seq<Item>) {
    || StartsSigned(rest) || StartsWith(rest, Subkeys(secret))
    || (StartsWith(rest, Users) && k.publicSubkeys == [] && k.secretSubkeys == [])
  }
}

/** Public-key encrypted session key packets (`src/packet/public_key_encrypted_session_key.rs`). */
module Pkesk {
  import opened Bytes
  import opened Mpi
  import opened SignatureTypes
  import opened KeyTransport

  datatype Packet = Packet(version: byte, id: keyid, algorithm: PublicKeyAlgorithm, mpis: seq<bytes>)

  function First(m: bytes): byte {
    if m == [] then 0 else m[0]
  }

  /** The three ECDH values. Fewer than three values, or a wrapped key longer than its length octet says, panic. */
  function EcdhBytes(mpis: seq<bytes>): Option<bytes> {
    if |mpis| < 3 || First(mpis[1]) < |mpis[2]| then None else
      var len := First(mpis[1]);
      Some(MpiBytes(mpis[0]) + ([len] + (Repeat(0, len - |mpis[2]|) + mpis[2])))
  }

  /** `to_writer` */
  function PacketBytes(p: Packet): Option<bytes> {
    match p.algorithm
    case RSA | RSASign | RSAEncrypt | Elgamal | ElgamalSign => Some(HeadBytes(p) + MpisBytes(p.mpis))
    case ECDH => (
      var values :- EcdhBytes(p.mpis);
      Some(HeadBytes(p) + values))
    case _ => None
  }

  function HeadBytes(p: Packet): bytes {
    [p.version] + (p.id + [AlgorithmCode(p.algorithm)])
  }

  /** The padding loop of `to_writer`: one zero octet at a time, then the wrapped key. */
  method WriteWrapped(len: byte, wrapped: bytes) returns (out: bytes)
    requires |wrapped| <= len
    ensures out == [len] + (Repeat(0, len - |wrapped|) + wrapped)
  {
    out := [len];
    for k := 0 to len - |wrapped|
      invariant out == [len] + Repeat(0, k)
    {
      out := out + [0];
    }
    out := out + wrapped;
  }

  /** `parse_mpis` */
  function ParseValues(a: PublicKeyAlgorithm, i: bytes): Parse<seq<bytes>> {
    match a
    case RSA | RSASign | RSAEncrypt => (
      var (m, i) :- ParseMpi(i);
      Parsed([m], i))
    case Elgamal | ElgamalSign => ParseTwo(i)
    case ECDSA | DSA | DiffieHellman => Parsed([], i)
    case ECDH => (
      var (m, i) :- ParseMpi(i);
      var (len, i) :- U8(i);
      var (wrapped, i) :- Take(len, i);
      Parsed([m, [len], wrapped], i))
    case Unknown(_) => Parsed([], i)
    case _ => Error
  }

  function ParseTwo(i: bytes): Parse<seq<bytes>> {
    var (m, i) :- ParseMpi(i);
    var (n, i) :- ParseMpi(i);
    Parsed([m, n], i)
  }

  /** `parse` */
  function ParsePacket(i: bytes): Parse<Packet> {
    var (version, i) :- U8(i);
    var (id, i) :- Take(8, i);
    var (code, i) :- U8(i);
    var (mpis, i) :- ParseValues(AlgorithmFrom(code), i);
    Parsed(Packet(version, id, AlgorithmFrom(code), mpis), i)
  }

  lemma HeadParses(p: Packet, values: bytes, mpis: seq<bytes>, rest: bytes)
    requires CanonicalAlgorithm(p.algorithm)
    requires ParseValues(p.algorithm, values + rest) == Parsed(mpis, rest)
    ensures ParsePacket(HeadBytes(p) + values + rest) == Parsed(p.(mpis := mpis), rest)
  {
    var code := [AlgorithmCode(p.algorithm)];
    var i2 := code + (values + rest);
    var i1 := p.id + i2;
    Regroup(HeadBytes(p), values, rest);
    Regroup([p.version], p.id + code, values + rest);
    Regroup(p.id, code, values + rest);
    assert ([p.version] + i1)[1..] == i1;
    TakeAppend(p.id, i2);
    assert i2[1..] == values + rest;
  }

  lemma EcdhValuesParse(mpis: seq<bytes>, rest: bytes)
    requires |mpis| >= 3 && Canonical(mpis[0]) && EcdhBytes(mpis).Some?
    ensures var len := First(mpis[1]);
            ParseValues(ECDH, EcdhBytes(mpis).value + rest)
            == Parsed([mpis[0], [len], Repeat(0, len - |mpis[2]|) + mpis[2]], rest)
  {
    var len := First(mpis[1]);
    var wrapped := Repeat(0, len - |mpis[2]|) + mpis[2];
    Regroup(MpiBytes(mpis[0]), [len] + wrapped, rest);
    Regroup([len], wrapped, rest);
    MpiParses(mpis[0], [len] + (wrapped + rest));
    assert ([len] + (wrapped + rest))[1..] == wrapped + rest;
    TakeAppend(wrapped, rest);
  }

  /** The packet with the leading zeros of the wrapped key put back, and its length in one octet */
  function Restored(p: Packet): Packet
    requires EcdhBytes(p.mpis).Some?
  {
    var len := First(p.mpis[1]);
    p.(mpis := [p.mpis[0], [len], Repeat(0, len - |p.mpis[2]|) + p.mpis[2]])
  }

  lemma RestoredValues(p: Packet)
    requires EcdhBytes(p.mpis).Some? && |p.mpis[1]| == 1
    ensures var q := Restored(p);
            |q.mpis| == 3 && q.mpis[0] == p.mpis[0] && q.mpis[1] == p.mpis[1] && |q.mpis[2]| == q.mpis[1][0]
            && Repeat(0, q.mpis[1][0] - |q.mpis[2]|) + q.mpis[2] == Repeat(0, p.mpis[1][0] - |p.mpis[2]|) + p.mpis[2]
  {
    assert p.mpis[1] == [p.mpis[1][0]];
    assert Repeat(0, 0) + Restored(p).mpis[2] == Restored(p).mpis[2];
  }

  lemma RestoredIsSame(p: Packet)
    requires EcdhBytes(p.mpis).Some?
    ensures Restored(p) == p <==> |p.mpis| == 3 && |p.mpis[1]| == 1 && |p.mpis[2]| == p.mpis[1][0]
  {
    var len, q := First(p.mpis[1]), Restored(p);
    assert |q.mpis| == 3 && |q.mpis[1]| == 1 && |q.mpis[2]| == len;
    if |p.mpis| == 3 && |p.mpis[1]| == 1 && |p.mpis[2]| == len {
      assert p.mpis[1] == [len];
      assert Repeat(0, 0) + p.mpis[2] == p.mpis[2];
      assert p.mpis == [p.mpis[0], p.mpis[1], p.mpis[2]];
    }
  }

  /** An ECDH packet that can be written parses to the packet with its leading zeros restored. It is the same packet
      exactly when it has three values, the second is one octet, and none had been stripped from the third: the parser
      keeps the padding that the writer puts in. */
  lemma EcdhPacketParses(p: Packet, rest: bytes)
    requires p.algorithm.ECDH? && PacketBytes(p).Some? && Canonical(p.mpis[0])
    ensures ParsePacket(PacketBytes(p).value + rest) == Parsed(Restored(p), rest)
    ensures Restored(p) == p <==> |p.mpis| == 3 && |p.mpis[1]| == 1 && |p.mpis[2]| == p.mpis[1][0]
  {
    EcdhValuesParse(p.mpis, rest);
    HeadParses(p, EcdhBytes(p.mpis).value, Restored(p).mpis, rest);
    RestoredIsSame(p);
  }

  // ---- The whole composition

  /** The recipient's side: values to session key and algorithm */
  function OpenPacket(dec: KW.Cipher, digest: Digest, dh: bytes -> Option<bytes>, curve: Curve, fingerprint: bytes,
                      p: Packet): Option<(bytes, byte)> {
    var plain :- Decrypt(dec, digest, dh, curve, fingerprint, p.mpis);
    OpenSessionKey(plain)
  }

  /** `from_session_key` for an ECDH key, after the Diffie-Hellman step */
  function SealPacket(enc: KW.Cipher, digest: Digest, curve: Curve, fingerprint: bytes, id: keyid, public: bytes,
                      shared: bytes, key: bytes, alg: byte): Option<Packet> {
    var mpis :- Encrypt(enc, digest, curve, fingerprint, public, shared, SessionKeyPlain(key, alg));
    Some(Packet(3, id, ECDH, mpis))
  }

  lemma SealedPacket(enc: KW.Cipher, digest: Digest, curve: Curve, fingerprint: bytes, id: keyid,
                     public: bytes, shared: bytes, key: bytes, alg: byte)
    requires |key| <= 236 && Canonical(public)
    requires Kdf(digest, curve, shared, fingerprint).Some?
             && KW.AesKey(Kdf(digest, curve, shared, fingerprint).value)
    ensures var p := SealPacket(enc, digest, curve, fingerprint, id, public, shared, key, alg);
            && p.Some? && p.value.algorithm.ECDH? && |p.value.mpis| == 3 && p.value.mpis[0] == public
            && |p.value.mpis[1]| == 1 && |p.value.mpis[2]| <= p.value.mpis[1][0]
  {
    EncryptSucceeds(enc, digest, curve, fingerprint, public, shared, SessionKeyPlain(key, alg));
    assert StripLeadingZeros(public) == public;
  }

  /** The recipient recovers the session key from any packet with the same restored values. */
  lemma RestoredOpens(enc: KW.Cipher, dec: KW.Cipher, digest: Digest, dh: bytes -> Option<bytes>,
                      curve: Curve, fingerprint: bytes, id: keyid, public: bytes, shared: bytes,
                      key: bytes, alg: byte, p: Packet, q: Packet)
    requires alg != 0 && (forall k :: KW.Inverse(enc, dec, k)) && Canonical(public) && dh(public) == Some(shared)
    requires SealPacket(enc, digest, curve, fingerprint, id, public, shared, key, alg) == Some(p)
    requires |p.mpis| == |q.mpis| == 3 && q.mpis[0] == p.mpis[0] == public && q.mpis[1] == p.mpis[1]
    requires |p.mpis[1]| == 1 && |p.mpis[2]| <= p.mpis[1][0] && |q.mpis[2]| <= q.mpis[1][0]
    requires Repeat(0, q.mpis[1][0] - |q.mpis[2]|) + q.mpis[2] == Repeat(0, p.mpis[1][0] - |p.mpis[2]|) + p.mpis[2]
    ensures OpenPacket(dec, digest, dh, curve, fingerprint, q) == Some((key, alg))
  {
    var plain := SessionKeyPlain(key, alg);
    assert StripLeadingZeros(public) == public;
    DecryptEncrypted(enc, dec, digest, dh, curve, fingerprint, public, shared, plain, q.mpis);
    OpenPlain(key, alg);
  }

  /** Any session key of up to 236 octets with an algorithm other than plaintext reaches the recipient: from the
      packet as built and from the packet serialized, followed by anything, and parsed again. */
  lemma SessionKeySurvives(enc: KW.Cipher, dec: KW.Cipher, digest: Digest,
                           dh: bytes -> Option<bytes>, curve: Curve, fingerprint: bytes, id: keyid,
                           public: bytes, shared: bytes, key: bytes, alg: byte, rest: bytes)
    requires |key| <= 236 && alg != 0
    requires forall k :: KW.Inverse(enc, dec, k)
    requires Kdf(digest, curve, shared, fingerprint).Some?
             && KW.AesKey(Kdf(digest, curve, shared, fingerprint).value)
    requires Canonical(public) && dh(public) == Some(shared)
    ensures var p := SealPacket(enc, digest, curve, fingerprint, id, public, shared, key, alg);
            && p.Some?
            && OpenPacket(dec, digest, dh, curve, fingerprint, p.value) == Some((key, alg))
            && PacketBytes(p.value).Some?
            && ParsePacket(PacketBytes(p.value).value + rest) == Parsed(Restored(p.value), rest)
            && OpenPacket(dec, digest, dh, curve, fingerprint, Restored(p.value)) == Some((key, alg))
  {
    SealedPacket(enc, digest, curve, fingerprint, id, public, shared, key, alg);
    var p := SealPacket(enc, digest, curve, fingerprint, id, public, shared, key, alg).value;
    RestoredOpens(enc, dec, digest, dh, curve, fingerprint, id, public, shared, key, alg, p, p);
    EcdhPacketParses(p, rest);
    ReparsedOpens(enc, dec, digest, dh, curve, fingerprint, id, public, shared, key, alg, p);
  }

  lemma ReparsedOpens(enc: KW.Cipher, dec: KW.Cipher, digest: Digest, dh: bytes -> Option<bytes>,
                      curve: Curve, fingerprint: bytes, id: keyid, public: bytes, shared: bytes,
                      key: bytes, alg: byte, p: Packet)
    requires alg != 0 && (forall k :: KW.Inverse(enc, dec, k)) && Canonical(public) && dh(public) == Some(shared)
    requires SealPacket(enc, digest, curve, fingerprint, id, public, shared, key, alg) == Some(p)
    requires |p.mpis| == 3 && p.mpis[0] == public && |p.mpis[1]| == 1 && |p.mpis[2]| <= p.mpis[1][0]
    ensures OpenPacket(dec, digest, dh, curve, fingerprint, Restored(p)) == Some((key, alg))
  {
    RestoredValues(p);
    RestoredOpens(enc, dec, digest, dh, curve, fingerprint, id, public, shared, key, alg, p, Restored(p));
  }

  /** A sealed packet is written as version 3, the recipient's key id, algorithm 18 and the values. */
  lemma SealedHead(enc: KW.Cipher, digest: Digest, curve: Curve, fingerprint: bytes, id: keyid, public: bytes,
                   shared: bytes, key: bytes, alg: byte)
    requires SealPacket(enc, digest, curve, fingerprint, id, public, shared, key, alg).Some?
    ensures var p := SealPacket(enc, digest, curve, fingerprint, id, public, shared, key, alg).value;
            PacketBytes(p).Some? ==> [3] + id + [18] <= PacketBytes(p).value
  {
  }

  // ---- The other algorithms

  /** RSA session keys (algorithms 1 to 3) are one value, Elgamal ones (16 and 20) two; all are read back. */
  lemma OtherPacketsParse(version: byte, id: keyid, n: byte, m: bytes, k: bytes, rest: bytes)
    requires n in {1, 2, 3, 16, 20} && Canonical(m) && Canonical(k)
    ensures var mpis := if n <= 3 then [m] else [m, k];
            var p := Packet(version, id, AlgorithmFrom(n), mpis);
            PacketBytes(p).Some? && ParsePacket(PacketBytes(p).value + rest) == Parsed(p, rest)
  {
    var mpis := if n <= 3 then [m] else [m, k];
    var p := Packet(version, id, AlgorithmFrom(n), mpis);
    ValuesParse(n, m, k, rest);
    HeadParses(p, MpisBytes(mpis), mpis, rest);
  }

  lemma OneParsed(n: byte, i: bytes, m: bytes, rest: bytes)
    requires n in {1, 2, 3} && ParseMpi(i) == Parsed(m, rest)
    ensures ParseValues(AlgorithmFrom(n), i) == Parsed([m], rest)
  {
  }

  lemma TwoParsed(n: byte, i: bytes, m: bytes, j: bytes, k: bytes, rest: bytes)
    requires n in {16, 20} && ParseMpi(i) == Parsed(m, j) && ParseMpi(j) == Parsed(k, rest)
    ensures ParseValues(AlgorithmFrom(n), i) == Parsed([m, k], rest)
  {
    assert ParseValues(AlgorithmFrom(n), i) == ParseTwo(i);
  }

  lemma {:induction false} ValuesParse(n: byte, m: bytes, k: bytes, rest: bytes)
    requires n in {1, 2, 3, 16, 20} && Canonical(m) && Canonical(k)
    ensures var mpis := if n <= 3 then [m] else [m, k];
            ParseValues(AlgorithmFrom(n), MpisBytes(mpis) + rest) == Parsed(mpis, rest)
  {
    var x, y := MpiBytes(m), MpiBytes(k);
    if n <= 3 {
      OneMpi(m);
      MpiParses(m, rest);
      OneParsed(n, x + rest, m, rest);
    } else {
      TwoMpis(m, k);
      Regroup(x, y, rest);
      MpiParses(m, y + rest);
      MpiParses(k, rest);
      TwoParsed(n, x + (y + rest), m, y + rest, k, rest);
    }
  }

  /** Of the algorithms that do not encrypt, DSA, ECDSA, Diffie-Hellman and the unknown ones have no values, EdDSA and the
      private ones are refused; none can be written. */
  lemma NoEncryption(n: byte, i: bytes)
    requires n !in {1, 2, 3, 16, 18, 20}
    ensures ParseValues(AlgorithmFrom(n), i) == if n == 22 || 100 <= n <= 110 then Error else Parsed([], i)
    ensures forall p: Packet :: p.algorithm == AlgorithmFrom(n) ==> PacketBytes(p).None?
  {
  }
}

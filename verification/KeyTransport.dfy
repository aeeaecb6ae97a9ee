/** Transport of a session key to an ECDH key (`src/crypto/ecdh.rs`,
    `src/packet/public_key_encrypted_session_key.rs`, `src/types/secret_key_repr.rs`).

    Diffie-Hellman, the digest and the block cipher are parameters. `None` is an error or a panic. */
module KeyTransport {
  import opened Bytes
  import opened Mpi
  import opened Checksum
  import KW = KeyWrap

  // ---- Padding

  function PaddedLength(len: nat): nat {
    if len < 40 then 40 else len + 8 - len % 8
  }

  /** `pad`: the padding octet is also the number of padding octets. */
  function Pad(plain: bytes): bytes {
    var n := PaddedLength(|plain|) - |plain|;
    plain + Repeat(n, n)
  }

  /** The unpadding in `derive_session_key` */
  function Unpad(padded: bytes): Option<bytes> {
    var len := |padded|;
    if len % 8 != 0 || len == 0 then None else
      var n := padded[len - 1];
      if n > len || padded[len - n..] != Repeat(n, n) then None else
        if len == n then None else Some(padded[..len - n])
  }

  /** Unpadding accepts exactly a nonempty text with its padding, whose length octet may also be zero. */
  lemma UnpadAccepts(padded: bytes, plain: bytes)
    ensures Unpad(padded) == Some(plain)
            <==> |padded| % 8 == 0 && plain != []
                 && exists n: byte :: padded == plain + Repeat(n, n) && padded[|padded| - 1] == n
  {
    var len := |padded|;
    if Unpad(padded) == Some(plain) {
      var n := padded[len - 1];
      assert padded == plain + Repeat(n, n);
    }
    if len % 8 == 0 && plain != [] {
      forall n: byte | padded == plain + Repeat(n, n) && padded[len - 1] == n
        ensures Unpad(padded) == Some(plain)
      {
        Split(plain, Repeat(n, n));
      }
    }
  }

  lemma UnpadPad(plain: bytes)
    requires plain != []
    ensures |Pad(plain)| == (if |plain| < 40 then 40 else |plain| + 8 - |plain| % 8)
    ensures |Pad(plain)| % 8 == 0 && Unpad(Pad(plain)) == Some(plain)
  {
    var n := PaddedLength(|plain|) - |plain|;
    assert 0 < n <= 40;
    UnpadAccepts(Pad(plain), plain);
    assert Pad(plain) == plain + Repeat(n, n) && Pad(plain)[|Pad(plain)| - 1] == n;
  }

  // ---- Key derivation

  const ANON_SENDER: bytes :=
    [0x41, 0x6E, 0x6F, 0x6E, 0x79, 0x6D, 0x6F, 0x75, 0x73, 0x20,
     0x53, 0x65, 0x6E, 0x64, 0x65, 0x72, 0x20, 0x20, 0x20, 0x20]

  datatype Curve = Curve(oid: bytes, symAlg: byte, keySize: nat, hashAlg: byte)

  type Digest = bytes -> Option<bytes>

  /** `build_ecdh_param` */
  function Param(curve: Curve, fingerprint: bytes): bytes {
    [|curve.oid| % 256] + curve.oid + [18] + [0x03, 0x01, curve.hashAlg, curve.symAlg] + ANON_SENDER + fingerprint
  }

  /** `kdf` */
  function Kdf(digest: Digest, curve: Curve, shared: bytes, fingerprint: bytes): Option<bytes> {
    var d :- digest([0, 0, 0, 1] + shared + Param(curve, fingerprint));
    Some(if |d| <= curve.keySize then d else d[..curve.keySize])
  }

  /** Reads the parameters back: the curve's identifier, the algorithm's code, the counted block with hash and cipher, the
      anonymous sender, and the recipient's fingerprint. */
  function ReadParam(i: bytes): Option<(bytes, byte, byte, bytes)> {
    if i == [] || |i| < i[0] as int + 26 then None
    else
      var n := i[0] as int;
      var r := i[n + 1..];
      if r[0] != 18 || r[1] != 3 || r[2] != 1 || !SpellsSender(r[5..25]) then None
      else Some((i[1..n + 1], r[3], r[4], r[25..]))
  }

  predicate SpellsSender(s: bytes)
    requires |s| == 20
  {
    forall k :: 0 <= k < 20 ==> s[k] == "Anonymous Sender    "[k] as int
  }

  lemma SenderSpelled()
    ensures SpellsSender(ANON_SENDER)
  {
    var t := "Anonymous Sender    ";
    assert t[..10] == "Anonymous " && t[10..] == "Sender    ";
  }

  lemma ParamReads(curve: Curve, fingerprint: bytes)
    requires |curve.oid| < 256
    ensures ReadParam(Param(curve, fingerprint)) == Some((curve.oid, curve.hashAlg, curve.symAlg, fingerprint))
  {
    var i, n := Param(curve, fingerprint), |curve.oid|;
    var r := [18] + [0x03, 0x01, curve.hashAlg, curve.symAlg] + ANON_SENDER + fingerprint;
    assert i == [n] + (curve.oid + r);
    assert i[1..n + 1] == curve.oid && i[n + 1..] == r;
    assert r[5..25] == ANON_SENDER && r[25..] == fingerprint;
    SenderSpelled();
  }

  /** What is hashed, seen through a digest that returns its input: the counter 1, the shared secret, the parameters. The
      derived key is the front of the digest. */
  lemma KdfReads(curve: Curve, shared: bytes, fingerprint: bytes)
    requires |curve.oid| < 256
    ensures var size := 4 + |shared| + |Param(curve, fingerprint)|;
            var z := Kdf(x => Some(x), curve.(keySize := size), shared, fingerprint);
            && z.Some? && |z.value| > 4 + |shared| && z.value[..4] == [0, 0, 0, 1] && z.value[4..4 + |shared|] == shared
            && ReadParam(z.value[4 + |shared|..]) == Some((curve.oid, curve.hashAlg, curve.symAlg, fingerprint))
  {
    var p := Param(curve, fingerprint);
    var d := [0, 0, 0, 1] + shared + p;
    assert d[..4] == [0, 0, 0, 1] && d[4..4 + |shared|] == shared && d[4 + |shared|..] == p;
    ParamReads(curve, fingerprint);
  }

  lemma KdfIsFront(digest: Digest, curve: Curve, shared: bytes, fingerprint: bytes, size: nat)
    requires Kdf(digest, curve, shared, fingerprint).Some? && size <= |Kdf(digest, curve, shared, fingerprint).value|
    ensures |Kdf(digest, curve, shared, fingerprint).value| <= curve.keySize
    ensures Kdf(digest, curve.(keySize := size), shared, fingerprint)
         == Some(Kdf(digest, curve, shared, fingerprint).value[..size])
  {
    var d := digest([0, 0, 0, 1] + shared + Param(curve, fingerprint)).value;
    assert Param(curve.(keySize := size), fingerprint) == Param(curve, fingerprint);
    assert |d| > curve.keySize ==> d[..curve.keySize][..size] == d[..size];
    assert size == |d| ==> d[..size] == d;
  }

  // ---- Encryption and decryption after the Diffie-Hellman step

  const MAX_SIZE: nat := 239

  /** `encrypt`, followed by the stripping of `PublicKeyTrait::encrypt` */
  function Encrypt(enc: KW.Cipher, digest: Digest, curve: Curve, fingerprint: bytes, public: bytes, shared: bytes,
                   plain: bytes): Option<seq<bytes>> {
    if |plain| > MAX_SIZE then None else
      var z :- Kdf(digest, curve, shared, fingerprint);
      match KW.Wrap(enc, z, Pad(plain))
      case Ok(wrapped) => Values(public, wrapped)
      case _ => None
  }

  function Values(public: bytes, wrapped: bytes): Option<seq<bytes>> {
    if |wrapped| >= 256 then None
    else Some([StripLeadingZeros(public), StripLeadingZeros([|wrapped|]), StripLeadingZeros(wrapped)])
  }

  lemma ValuesShape(public: bytes, wrapped: bytes)
    requires 0 < |wrapped| < 256
    ensures var r := Values(public, wrapped);
            r.Some? && |r.value| == 3 && r.value[1] == [|wrapped|] && 0 < |r.value[2]| <= |wrapped|
            && Repeat(0, |wrapped| - |r.value[2]|) + r.value[2] == wrapped
  {
    StripRestores(wrapped);
    assert StripLeadingZeros([|wrapped|]) == [|wrapped|];
  }

  /** `Decryptor::decrypt`; `dh` maps the sender's point to the shared secret, or refuses the point. */
  function Decrypt(dec: KW.Cipher, digest: Digest, dh: bytes -> Option<bytes>, curve: Curve, fingerprint: bytes,
                   mpis: seq<bytes>): Option<bytes> {
    if |mpis| != 3 then None else
      var shared :- dh(mpis[0]);
      var len := if mpis[1] == [] then 0 else mpis[1][0];
      if len < |mpis[2]| then None else
        var z :- Kdf(digest, curve, shared, fingerprint);
        match KW.Unwrap(dec, z, Repeat(0, len - |mpis[2]|) + mpis[2])
        case Ok(padded) => Unpad(padded)
        case _ => None
  }

  /** `SecretKeyRepr::decrypt` for an ECDH key: algorithm, key and checksum are taken apart. */
  function OpenSessionKey(plain: bytes): Option<(bytes, byte)> {
    if |plain| < 3 || plain[0] == 0 then None else
      var key := plain[1..|plain| - 2];
      if plain[|plain| - 2..] == Be16(Sum(key) % 0x1_0000) then Some((key, plain[0])) else None
  }

  function SessionKeyPlain(key: bytes, alg: byte): bytes {
    [alg] + key + Be16(Sum(key) % 0x1_0000)
  }

  /** `from_session_key` fills a zeroed buffer: algorithm, key, checksum. */
  method BuildPlain(key: bytes, alg: byte) returns (data: array<byte>)
    ensures data[..] == SessionKeyPlain(key, alg)
  {
    var len := |key|;
    data := new byte[len + 3](_ => 0);
    data[0] := alg;
    for k := 0 to len
      invariant data[0] == alg && data[1..k + 1] == key[..k]
    {
      data[k + 1] := key[k];
    }
    var hasher := new SimpleChecksum();
    hasher.Write(key);
    var sum := Be16(hasher.sum);
    data[len + 1], data[len + 2] := sum[0], sum[1];
    assert data[1..len + 1] == key;
  }

  lemma OpenPlain(key: bytes, alg: byte)
    requires alg != 0
    ensures OpenSessionKey(SessionKeyPlain(key, alg)) == Some((key, alg))
  {
    var plain := SessionKeyPlain(key, alg);
    assert plain[1..|plain| - 2] == key;
    assert plain[|plain| - 2..] == Be16(Sum(key) % 0x1_0000);
  }

  /** A session key is opened if and only if it is an algorithm other than 0, the key, and the key's checksum. */
  lemma OpensExactly(plain: bytes, key: bytes, alg: byte)
    ensures OpenSessionKey(plain) == Some((key, alg)) <==> alg != 0 && plain == [alg] + key + Be16(Sum(key) % 0x1_0000)
  {
    if OpenSessionKey(plain) == Some((key, alg)) {
      assert plain == plain[..1] + plain[1..|plain| - 2] + plain[|plain| - 2..];
    }
    if alg != 0 && plain == [alg] + key + Be16(Sum(key) % 0x1_0000) {
      OpenPlain(key, alg);
    }
  }

  /** Decryption inverts encryption, for MPIs that restore the sender's point, length and wrapped key. */
  lemma DecryptEncrypted(enc: KW.Cipher, dec: KW.Cipher, digest: Digest,
                         dh: bytes -> Option<bytes>, curve: Curve, fingerprint: bytes,
                         public: bytes, shared: bytes, plain: bytes, mpis: seq<bytes>)
    requires plain != [] && Encrypt(enc, digest, curve, fingerprint, public, shared, plain).Some?
    requires forall key :: KW.Inverse(enc, dec, key)
    requires dh(StripLeadingZeros(public)) == Some(shared)
    requires var sent := Encrypt(enc, digest, curve, fingerprint, public, shared, plain).value;
             |mpis| == 3 && mpis[0] == sent[0] && mpis[1] == sent[1] && |mpis[2]| <= sent[1][0]
             && Repeat(0, sent[1][0] - |mpis[2]|) + mpis[2] == Repeat(0, sent[1][0] - |sent[2]|) + sent[2]
    ensures Decrypt(dec, digest, dh, curve, fingerprint, mpis) == Some(plain)
  {
    var z := Kdf(digest, curve, shared, fingerprint).value;
    var wrapped := KW.Wrap(enc, z, Pad(plain)).data;
    UnpadPad(plain);
    KW.UnwrapWrap(enc, dec, z, Pad(plain));
    ValuesShape(public, wrapped);
  }

  /** When encryption succeeds: the plaintext is not too long and the derived key is an AES key. */
  lemma EncryptSucceeds(enc: KW.Cipher, digest: Digest, curve: Curve, fingerprint: bytes,
                        public: bytes, shared: bytes, plain: bytes)
    ensures Encrypt(enc, digest, curve, fingerprint, public, shared, plain).Some?
            <==> |plain| <= 239
                 && Kdf(digest, curve, shared, fingerprint).Some?
                 && KW.AesKey(Kdf(digest, curve, shared, fingerprint).value)
    ensures var r := Encrypt(enc, digest, curve, fingerprint, public, shared, plain);
            r.Some? ==> |r.value| == 3 && |r.value[1]| == 1 && 48 <= r.value[1][0] <= 248
                        && |r.value[2]| <= r.value[1][0] && |r.value[2]| > 0
  {
    var k := Kdf(digest, curve, shared, fingerprint);
    if |plain| <= MAX_SIZE && k.Some? {
      if KW.AesKey(k.value) {
        PadBounds(plain);
        WrapLength(enc, k.value, Pad(plain));
        ValuesShape(public, KW.Wrap(enc, k.value, Pad(plain)).data);
      }
    }
  }

  lemma PadBounds(plain: bytes)
    requires |plain| <= MAX_SIZE
    ensures |Pad(plain)| % 8 == 0 && 40 <= |Pad(plain)| <= 240
  {
  }

  lemma WrapLength(enc: KW.Cipher, key: bytes, data: bytes)
    requires KW.AesKey(key) && |data| % 8 == 0
    ensures KW.Wrap(enc, key, data).Ok? && |KW.Wrap(enc, key, data).data| == |data| + 8
  {
  }

  /** What decryption returns has been padded and wrapped under the derived key: nothing else is accepted. */
  lemma DecryptsOnlyWrapped(enc: KW.Cipher, dec: KW.Cipher, digest: Digest, dh: bytes -> Option<bytes>, curve: Curve,
                            fingerprint: bytes, mpis: seq<bytes>)
    returns (z: bytes, padded: bytes)
    requires forall key :: KW.Inverse(enc, dec, key)
    requires Decrypt(dec, digest, dh, curve, fingerprint, mpis).Some?
    ensures |mpis| == 3 && dh(mpis[0]).Some? && Kdf(digest, curve, dh(mpis[0]).value, fingerprint) == Some(z)
    ensures var len := if mpis[1] == [] then 0 else mpis[1][0];
            len >= |mpis[2]| && KW.Wrap(enc, z, padded) == KW.Ok(Repeat(0, len - |mpis[2]|) + mpis[2])
    ensures Unpad(padded) == Decrypt(dec, digest, dh, curve, fingerprint, mpis)
  {
    var len := if mpis[1] == [] then 0 else mpis[1][0];
    var wrapped := Repeat(0, len - |mpis[2]|) + mpis[2];
    z := Kdf(digest, curve, dh(mpis[0]).value, fingerprint).value;
    padded := KW.Unwrap(dec, z, wrapped).data;
    KW.WrapUnwrap(enc, dec, z, wrapped);
  }
}

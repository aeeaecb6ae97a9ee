/** Version 2 of the symmetrically encrypted and integrity protected data packet: decryption in chunks
    (`src/packet/sym_encrypted_protected_data.rs`) against the encryption of section 5.13.2 of RFC 9580. */
module Seipd {
  import opened Bytes

  datatype Aead = Eax | Ocb | Gcm | OtherAead(code: byte) {
    function Code(): byte {
      match this
      case Eax => 1
      case Ocb => 2
      case Gcm => 3
      case OtherAead(c) => c
    }

    function NonceSize(): (n: nat)
      ensures n <= 16 && (n == 0 || n >= 12)
    {
      match this
      case Eax => 16
      case Ocb => 15
      case Gcm => 12
      case OtherAead(_) => 0
    }
  }

  /** The tag size of every supported algorithm */
  const TAG: nat := 16

  /** `key_size` by algorithm code; 0 for the unknown ones */
  function KeySize(sym: byte): (n: nat)
    ensures n <= 32
  {
    match sym
    case 1 => 16
    case 2 => 24
    case 3 => 16
    case 4 => 16
    case 7 => 16
    case 8 => 24
    case 9 => 32
    case 10 => 32
    case 11 => 16
    case 12 => 24
    case 13 => 32
    case _ => 0
  }

  /** `expand_chunk_size`: a 32-bit shift, whose distance is taken modulo 32 */
  function ExpandChunkSize(s: byte): (n: nat)
    ensures n > 0
  {
    Pow2((s as int + 6) % 32)
  }

  datatype Packet = V2(sym: byte, aead: Aead, chunkSize: byte, salt: bytes, data: bytes)

  /** The primitives: HKDF to 42 octets, opening under key, nonce, associated data and tag, and sealing */
  datatype Primitives = Primitives(
      hkdf: (bytes, bytes, bytes) -> bytes,
      open: (bytes, bytes, bytes, bytes, bytes) -> Option<bytes>,
      seal: (bytes, bytes, bytes, bytes) -> (bytes, bytes))
  {
    ghost predicate Lawful() {
      && (forall s, k, i :: |hkdf(s, k, i)| == 42)
      && (forall k, n, a, p :: |seal(k, n, a, p).0| == |p| && |seal(k, n, a, p).1| == 16)
      && (forall k, n, a, p :: open(k, n, a, seal(k, n, a, p).1, seal(k, n, a, p).0) == Some(p))
      && (forall k, n, a, t, c :: open(k, n, a, t, c).Some? ==> seal(k, n, a, open(k, n, a, t, c).value) == (c, t))
    }
  }

  datatype Opening = Opened(plain: bytes, count: nat) | Failed | Panics

  /** What is fixed for one packet: the message key, the fixed part of the nonce, the associated data, the chunk size */
  datatype Context = Context(prims: Primitives, key: bytes, iv: bytes, info: bytes, size: nat) {

    function Nonce(i: nat): bytes { iv + Be64(i) }

    // ---- Decryption

    function OpenChunk(chunk: bytes, i: nat): Option<bytes>
      requires |chunk| >= TAG
    {
      prims.open(key, Nonce(i), info, chunk[|chunk| - TAG..], chunk[..|chunk| - TAG])
    }

    /** Opens the chunks of `main`, the first of which has index `i`. */
    function OpenChunks(main: bytes, i: nat): Opening
      decreases |main|
    {
      if main == [] then Opened([], i)
      else
        var n := if |main| < size + TAG then |main| else size + TAG;
        if n < TAG then Panics
        else
          var p := OpenChunk(main[..n], i);
          if p.None? then Failed
          else
            var r := OpenChunks(main[n..], i + 1);
            if r.Opened? then Opened(p.value + r.plain, r.count) else r
    }

    function OpenAll(data: bytes): Opening {
      if |data| < TAG then Panics
      else
        var r := OpenChunks(data[..|data| - TAG], 0);
        if r.Opened? && prims.open(key, Nonce(r.count), info + Be64(|r.plain|), data[|data| - TAG..], []).None?
        then Failed else r
    }

    // ---- Encryption

    function SealChunk(p: bytes, i: nat): bytes {
      var s := prims.seal(key, Nonce(i), info, p);
      s.0 + s.1
    }

    /** Full chunks, then what is left if anything is; with `extra`, a last chunk even if it is empty */
    function SealChunks(p: bytes, i: nat, extra: bool): bytes
      requires size > 0
      decreases |p|
    {
      if |p| < size then if p == [] && !extra then [] else SealChunk(p, i)
      else SealChunk(p[..size], i) + SealChunks(p[size..], i + 1, extra)
    }

    function Count(p: bytes, extra: bool): nat
      requires size > 0
      decreases |p|
    {
      if |p| < size then if p == [] && !extra then 0 else 1 else 1 + Count(p[size..], extra)
    }

    function SealAll(p: bytes, extra: bool): bytes
      requires size > 0
    {
      SealChunks(p, 0, extra) + prims.seal(key, Nonce(Count(p, extra)), info + Be64(|p|), []).1
    }
  }

  // ---- Opening and sealing are inverse

  lemma OpenSealedChunk(c: Context, p: bytes, i: nat)
    requires c.prims.Lawful()
    ensures |c.SealChunk(p, i)| == |p| + TAG && c.OpenChunk(c.SealChunk(p, i), i) == Some(p)
  {
    var s := c.prims.seal(c.key, c.Nonce(i), c.info, p);
    assert |s.0| == |p|;
    Split(s.0, s.1);
  }

  lemma SealOpenedChunk(c: Context, chunk: bytes, i: nat)
    requires c.prims.Lawful() && |chunk| >= TAG && c.OpenChunk(chunk, i).Some?
    ensures c.SealChunk(c.OpenChunk(chunk, i).value, i) == chunk
  {
    var p := c.OpenChunk(chunk, i).value;
    var k := |chunk| - TAG;
    assert c.prims.seal(c.key, c.Nonce(i), c.info, p) == (chunk[..k], chunk[k..]);
    assert chunk[..k] + chunk[k..] == chunk;
  }

  lemma {:induction false} OpenSealed(c: Context, p: bytes, i: nat, extra: bool)
    requires c.prims.Lawful() && c.size > 0
    ensures c.OpenChunks(c.SealChunks(p, i, extra), i) == Opened(p, i + c.Count(p, extra))
    decreases |p|
  {
    if |p| < c.size {
      if p != [] || extra {
        var s := c.SealChunk(p, i);
        OpenSealedChunk(c, p, i);
        assert s[..|s|] == s && s[|s|..] == [];
        AppendNothing(p);
      }
    } else {
      var front, s := c.SealChunk(p[..c.size], i), c.SealChunks(p[c.size..], i + 1, extra);
      OpenSealedChunk(c, p[..c.size], i);
      OpenSealed(c, p[c.size..], i + 1, extra);
      Split(front, s);
      assert p[..c.size] + p[c.size..] == p;
    }
  }

  /** The last chunk, when it is not full */
  lemma SealShort(c: Context, main: bytes, i: nat)
    requires c.prims.Lawful() && 0 < |main| < c.size + TAG && c.OpenChunks(main, i).Opened?
    ensures var r := c.OpenChunks(main, i);
            |r.plain| < c.size && c.SealChunk(r.plain, i) == main && r.count == i + 1
  {
    assert main[..|main|] == main && main[|main|..] == [];
    SealOpenedChunk(c, main, i);
    var p := c.OpenChunk(main, i).value;
    OpenSealedChunk(c, p, i);
    AppendNothing(p);
  }

  /** A full chunk, and those behind it */
  lemma OpenFull(c: Context, main: bytes, i: nat) returns (p: bytes)
    requires c.prims.Lawful() && |main| >= c.size + TAG && c.OpenChunks(main, i).Opened?
    ensures var n := c.size + TAG;
            var r, more := c.OpenChunks(main, i), c.OpenChunks(main[n..], i + 1);
            && |p| == c.size && c.SealChunk(p, i) == main[..n]
            && more.Opened? && r.plain == p + more.plain && r.count == more.count
  {
    var n := c.size + TAG;
    p := c.OpenChunk(main[..n], i).value;
    SealOpenedChunk(c, main[..n], i);
    OpenSealedChunk(c, p, i);
  }

  lemma {:induction false} SealOpened(c: Context, main: bytes, i: nat) returns (extra: bool)
    requires c.prims.Lawful() && c.size > 0 && c.OpenChunks(main, i).Opened?
    ensures var r := c.OpenChunks(main, i);
            c.SealChunks(r.plain, i, extra) == main && i + c.Count(r.plain, extra) == r.count
    decreases |main|
  {
    if main == [] {
      extra := false;
    } else if |main| < c.size + TAG {
      SealShort(c, main, i);
      extra := true;
    } else {
      var p := OpenFull(c, main, i);
      extra := SealOpened(c, main[c.size + TAG..], i + 1);
      SealFull(c, main, i, p, extra);
    }
  }

  lemma {:induction false} SealFull(c: Context, main: bytes, i: nat, p: bytes, extra: bool)
    requires c.size > 0 && |main| >= c.size + TAG && |p| == c.size && c.SealChunk(p, i) == main[..c.size + TAG]
    requires c.OpenChunks(main[c.size + TAG..], i + 1).Opened?
    requires var more := c.OpenChunks(main[c.size + TAG..], i + 1);
             c.SealChunks(more.plain, i + 1, extra) == main[c.size + TAG..]
             && i + 1 + c.Count(more.plain, extra) == more.count
    ensures var more := c.OpenChunks(main[c.size + TAG..], i + 1);
            c.SealChunks(p + more.plain, i, extra) == main && i + c.Count(p + more.plain, extra) == more.count
  {
    var n := c.size + TAG;
    SealOneMore(c, p, c.OpenChunks(main[n..], i + 1).plain, i, extra);
    assert main[..n] + main[n..] == main;
  }

  lemma SealOneMore(c: Context, p: bytes, rest: bytes, i: nat, extra: bool)
    requires c.size > 0 && |p| == c.size
    ensures c.SealChunks(p + rest, i, extra) == c.SealChunk(p, i) + c.SealChunks(rest, i + 1, extra)
    ensures c.Count(p + rest, extra) == 1 + c.Count(rest, extra)
  {
    Split(p, rest);
  }

  /** Opening inverts sealing, for every plaintext. */
  lemma OpenAllSealed(c: Context, p: bytes, extra: bool)
    requires c.prims.Lawful() && c.size > 0
    ensures c.OpenAll(c.SealAll(p, extra)) == Opened(p, c.Count(p, extra))
  {
    var s := c.SealChunks(p, 0, extra);
    var t := c.prims.seal(c.key, c.Nonce(c.Count(p, extra)), c.info + Be64(|p|), []).1;
    OpenSealed(c, p, 0, extra);
    SealedTag(c.prims, c.key, c.Nonce(c.Count(p, extra)), c.info + Be64(|p|));
    Split(s, t);
  }

  /** Sealing nothing makes a tag under which nothing can be opened. */
  lemma SealedTag(prims: Primitives, key: bytes, nonce: bytes, info: bytes)
    requires prims.Lawful()
    ensures var t := prims.seal(key, nonce, info, []).1; |t| == TAG && prims.open(key, nonce, info, t, []).Some?
  {
    assert prims.seal(key, nonce, info, []).0 == [];
  }

  lemma SealAllOpened(c: Context, data: bytes) returns (extra: bool)
    requires c.prims.Lawful() && c.size > 0 && c.OpenAll(data).Opened?
    ensures c.SealAll(c.OpenAll(data).plain, extra) == data
  {
    var k := |data| - TAG;
    extra := SealOpened(c, data[..k], 0);
    var r := c.OpenChunks(data[..k], 0);
    FinalTag(c.prims, c.key, c.Nonce(r.count), c.info + Be64(|r.plain|), data[k..]);
    assert data[..k] + data[k..] == data;
  }

  /** Opening nothing under a tag means that sealing nothing makes that tag. */
  lemma FinalTag(prims: Primitives, key: bytes, nonce: bytes, info: bytes, tag: bytes)
    requires prims.Lawful() && prims.open(key, nonce, info, tag, []).Some?
    ensures prims.seal(key, nonce, info, []).1 == tag
  {
    var p := prims.open(key, nonce, info, tag, []).value;
    assert prims.seal(key, nonce, info, p) == ([], tag);
    assert |p| == 0;
    assert p == [];
  }

  /** The extra empty chunk makes a different ciphertext exactly when the plaintext ends with a full chunk or is
      empty. */
  lemma ExtraOnlyAtBoundary(c: Context, p: bytes)
    requires c.prims.Lawful() && c.size > 0
    ensures c.SealAll(p, true) == c.SealAll(p, false) <==> Tail(p, c.size) != []
  {
    if Tail(p, c.size) != [] {
      SameChunks(c, p, 0);
    } else {
      OneMoreChunk(c, p);
      OpenAllSealed(c, p, true);
      OpenAllSealed(c, p, false);
    }
  }

  lemma {:induction false} OneMoreChunk(c: Context, p: bytes)
    requires c.size > 0 && Tail(p, c.size) == []
    ensures c.Count(p, true) == c.Count(p, false) + 1
    decreases |p|
  {
    if |p| >= c.size {
      OneMoreChunk(c, p[c.size..]);
    }
  }

  lemma {:induction false} SameChunks(c: Context, p: bytes, i: nat)
    requires c.size > 0 && Tail(p, c.size) != []
    ensures c.SealChunks(p, i, true) == c.SealChunks(p, i, false) && c.Count(p, true) == c.Count(p, false)
    decreases |p|
  {
    if |p| >= c.size {
      SameChunks(c, p[c.size..], i + 1);
    }
  }

  // ---- The packet

  function Info(p: Packet): bytes {
    [0xD2, 2, p.sym, p.aead.Code(), p.chunkSize]
  }

  /** The key and nonce derived for the packet; nothing for an unsupported algorithm, where the code panics */
  function Derive(prims: Primitives, p: Packet, sessionKey: bytes): (r: Option<Context>)
    requires forall s, k, i :: |prims.hkdf(s, k, i)| == 42
    ensures r.Some? <==> !p.aead.OtherAead?
    ensures r.Some? ==> r.value.size > 0 && |r.value.Nonce(0)| == p.aead.NonceSize()
  {
    if p.aead.NonceSize() < 8 then None
    else
      var okm, k := prims.hkdf(p.salt, sessionKey, Info(p)), KeySize(p.sym);
      Some(Context(prims, okm[..k], okm[k..k + p.aead.NonceSize() - 8], Info(p), ExpandChunkSize(p.chunkSize)))
  }

  // ---- What the derived values are

  /** The associated data: the header octet of an integrity protected data packet in the new format (tag 18), version 2,
      the algorithms and the coded chunk size */
  lemma InfoOctets(p: Packet)
    ensures |Info(p)| == 5 && Info(p)[0] >= 192 && Info(p)[0] % 64 == 18
    ensures Info(p)[1..] == [2, p.sym, p.aead.Code(), p.chunkSize]
    ensures (p.aead.Eax? ==> Info(p)[3] == 1) && (p.aead.Ocb? ==> Info(p)[3] == 2) && (p.aead.Gcm? ==> Info(p)[3] == 3)
  {
  }

  /** Message key and the fixed part of the nonce are cut one behind the other from what HKDF makes of salt, session key
      and associated data; their sizes are those of the algorithms. */
  lemma DerivedPieces(prims: Primitives, p: Packet, sessionKey: bytes)
    requires forall s, k, i :: |prims.hkdf(s, k, i)| == 42
    requires Derive(prims, p, sessionKey).Some?
    ensures var c := Derive(prims, p, sessionKey).value;
            && c.key + c.iv <= prims.hkdf(p.salt, sessionKey, [0xD2, 2, p.sym, p.aead.Code(), p.chunkSize])
            && (|c.key| == 16 <==> p.sym in {1, 3, 4, 7, 11}) && (|c.key| == 24 <==> p.sym in {2, 8, 12})
            && (|c.key| == 32 <==> p.sym in {9, 10, 13}) && |c.key| in {0, 16, 24, 32}
            && |c.iv| + 8 == (match p.aead.Code() case 1 => 16 case 2 => 15 case 3 => 12 case _ => 0)
            && c.info == [0xD2, 2, p.sym, p.aead.Code(), p.chunkSize]
  {
    var c := Derive(prims, p, sessionKey).value;
    var okm := prims.hkdf(p.salt, sessionKey, Info(p));
    assert c.key + c.iv == okm[..|c.key| + |c.iv|];
  }

  /** The chunk size is 64 octets shifted by the coded size, up to 25; beyond, the shift distance wraps around. */
  lemma ChunkSizes(s: byte)
    ensures ExpandChunkSize(0) == 64 && ExpandChunkSize(26) == 1
    ensures s < 25 ==> ExpandChunkSize(s + 1) == 2 * ExpandChunkSize(s)
    ensures s < 224 ==> ExpandChunkSize(s + 32) == ExpandChunkSize(s)
  {
    assert Pow2(6) == 64;
  }

  /** Nonces have the fixed part in front and the index behind it, so that no two of the first 2^64 are equal. */
  lemma NoncesDiffer(c: Context, i: nat, j: nat)
    requires i < 0x1_0000_0000_0000_0000 && j < 0x1_0000_0000_0000_0000
    ensures c.Nonce(i) == c.Nonce(j) <==> i == j
  {
    NonceReads(c, i);
    NonceReads(c, j);
  }

  lemma NonceReads(c: Context, i: nat)
    requires i < 0x1_0000_0000_0000_0000
    ensures |c.Nonce(i)| == |c.iv| + 8 && c.Nonce(i)[..|c.iv|] == c.iv && BeValue(c.Nonce(i)[|c.iv|..]) == i
  {
    Split(c.iv, Be64(i));
    BeValues(i);
    ModSmall(i, 0x1_0000_0000_0000_0000);
  }

  ghost function After(out: bytes, r: Opening): Opening {
    if r.Opened? then Opened(out + r.plain, r.count) else r
  }

  lemma OneChunk(c: Context, out: bytes, rest: bytes, i: nat, n: nat)
    requires rest != [] && n == (if |rest| < c.size + TAG then |rest| else c.size + TAG) && n >= TAG
    ensures var p := c.OpenChunk(rest[..n], i);
            After(out, c.OpenChunks(rest, i))
            == if p.None? then Failed else After(out + p.value, c.OpenChunks(rest[n..], i + 1))
  {
    var p, r := c.OpenChunk(rest[..n], i), c.OpenChunks(rest[n..], i + 1);
    if p.Some? && r.Opened? {
      Regroup(out, p.value, r.plain);
    }
  }

  /** The V2 arm of `decrypt`: the nonce is updated in place, chunk by chunk. */
  method Decrypt(prims: Primitives, p: Packet, sessionKey: bytes) returns (r: Opening)
    requires forall s, k, i :: |prims.hkdf(s, k, i)| == 42
    ensures var c := Derive(prims, p, sessionKey); r == if c.None? then Panics else c.value.OpenAll(p.data)
  {
    var derived := Derive(prims, p, sessionKey);
    if derived.None? || |p.data| < TAG {
      return Panics;
    }
    r := DecryptChunks(derived.value, p.data);
  }

  method DecryptChunks(c: Context, data: bytes) returns (r: Opening)
    requires |data| >= TAG
    ensures r == c.OpenAll(data)
  {
    var nonce := NewNonce(c);
    var offset := |data| - TAG;
    var rest, out, index := data[..offset], [], 0;
    ghost var all := c.OpenChunks(rest, 0);
    assert After([], all) == all;
    while rest != []
      invariant fresh(nonce) && nonce[..] == c.Nonce(index) && After(out, c.OpenChunks(rest, index)) == all
      decreases |rest|
    {
      var n := if |rest| < c.size + TAG then |rest| else c.size + TAG;
      if n < TAG {
        return Panics;
      }
      OneChunk(c, out, rest, index, n);
      var plain := OpenWith(c, nonce, rest[..n], index);
      if plain.None? {
        return Failed;
      }
      out, rest, index := out + plain.value, rest[n..], index + 1;
      SetIndex(c, nonce, index);
    }
    AppendNothing(out);
    var final := c.prims.open(c.key, nonce[..], c.info + Be64(|out|), data[offset..], []);
    r := if final.None? then Failed else Opened(out, index);
  }

  /** `decrypt_in_place` on a chunk and the tag behind it */
  method OpenWith(c: Context, nonce: array<byte>, chunk: bytes, ghost index: nat) returns (plain: Option<bytes>)
    requires |chunk| >= TAG && nonce[..] == c.Nonce(index)
    ensures plain == c.OpenChunk(chunk, index)
  {
    var n := |chunk| - TAG;
    plain := c.prims.open(c.key, nonce[..], c.info, chunk[n..], chunk[..n]);
  }

  method SetIndex(c: Context, nonce: array<byte>, index: nat)
    requires index > 0 && nonce[..] == c.Nonce(index - 1)
    modifies nonce
    ensures nonce[..] == c.Nonce(index)
  {
    assert nonce.Length == |c.Nonce(index - 1)|;
    CopyFromSlice(nonce, nonce.Length - 8, Be64(index));
  }

  method NewNonce(c: Context) returns (nonce: array<byte>)
    ensures fresh(nonce) && nonce[..] == c.Nonce(0)
  {
    nonce := new byte[|c.iv| + 8](_ => 0);
    CopyFromSlice(nonce, 0, c.iv);
    assert Be64(0) == Repeat(0, 8);
    assert nonce[..] == c.iv + Repeat(0, 8);
  }

  /** Decryption succeeds exactly on what encryption makes of the plaintext, up to an empty last chunk. */
  lemma DecryptsExactlyTheSealed(prims: Primitives, p: Packet, sessionKey: bytes, plain: bytes)
    requires prims.Lawful() && Derive(prims, p, sessionKey).Some?
    ensures var c := Derive(prims, p, sessionKey).value;
            c.OpenAll(p.data).Opened? && c.OpenAll(p.data).plain == plain
            <==> p.data == c.SealAll(plain, false) || p.data == c.SealAll(plain, true)
  {
    var c := Derive(prims, p, sessionKey).value;
    OpenAllSealed(c, plain, false);
    OpenAllSealed(c, plain, true);
    if c.OpenAll(p.data).Opened? {
      var extra := SealAllOpened(c, p.data);
    }
  }

  /** Data that opens ends with 16 octets under which nothing is opened, with the chunk count in the nonce and the length
      of the plaintext behind the associated data, both in eight octets. */
  lemma LastTag(c: Context, data: bytes) returns (count: bytes, length: bytes)
    requires c.OpenAll(data).Opened?
    ensures |data| >= 16 && |count| == 8 && |length| == 8
    ensures c.prims.open(c.key, c.iv + count, c.info + length, data[|data| - 16..], []).Some?
    ensures BeValue(count) == c.OpenAll(data).count % 0x1_0000_0000_0000_0000
    ensures BeValue(length) == |c.OpenAll(data).plain| % 0x1_0000_0000_0000_0000
  {
    var r := c.OpenAll(data);
    count, length := Be64(r.count), Be64(|r.plain|);
    BeValues(r.count);
    BeValues(|r.plain|);
  }

  /** Less than a tag, or less than a tag in front of the last one: there is nothing to split off. */
  lemma TooShort(c: Context, data: bytes)
    ensures |data| < 16 || 16 < |data| < 32 ==> c.OpenAll(data) == Panics
    ensures |data| == 16 ==> !c.OpenAll(data).Panics?
  {
  }
}

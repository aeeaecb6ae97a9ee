/** Exactly which signatures are read back: a signature that its own serialization parses to is well formed, at every
    nesting depth. */
module SignatureExact {
  import opened Bytes
  import opened Mpi
  import opened PacketLength
  import opened SignatureTypes
  import opened SignatureSer
  import opened SignatureDe
  import opened SignatureRoundTrip
  import opened SignatureReparse

  // ---- More input does not change what has been parsed

  lemma U8More(i: bytes, j: bytes)
    requires U8(i).Parsed?
    ensures U8(i + j) == Parsed(U8(i).value, U8(i).rest + j)
  {
    CutFront(i, j, 1);
  }

  lemma TakeMore(n: nat, i: bytes, j: bytes)
    requires Take(n, i).Parsed?
    ensures Take(n, i + j) == Parsed(Take(n, i).value, Take(n, i).rest + j)
  {
    CutFront(i, j, n);
  }

  lemma U16More(i: bytes, j: bytes)
    requires U16(i).Parsed?
    ensures U16(i + j) == Parsed(U16(i).value, U16(i).rest + j)
  {
    CutFront(i, j, 2);
  }

  lemma U32More(i: bytes, j: bytes)
    requires U32(i).Parsed?
    ensures U32(i + j) == Parsed(U32(i).value, U32(i).rest + j)
  {
    CutFront(i, j, 4);
  }

  lemma LengthMore(i: bytes, j: bytes)
    requires ParseLength(i).Parsed?
    ensures ParseLength(i + j) == Parsed(ParseLength(i).value, ParseLength(i).rest + j)
  {
    U8More(i, j);
    var r := U8(i).rest;
    if 192 <= i[0] < 255 {
      U8More(r, j);
    } else if i[0] == 255 {
      U32More(r, j);
    }
  }

  lemma MpiMore(i: bytes, j: bytes)
    requires ParseMpi(i).Parsed?
    ensures ParseMpi(i + j) == Parsed(ParseMpi(i).value, ParseMpi(i).rest + j)
  {
    var bits, r := U16(i).value, U16(i).rest;
    var n := (bits as int + 7) / 8;
    var raw, rest := Take(n, r).value, Take(n, r).rest;
    MpiIs(i, bits, r, n, raw, rest);
    U16More(i, j);
    TakeMore(n, r, j);
    MpiIs(i + j, bits, r + j, n, raw, rest + j);
  }

  lemma MpiIs(i: bytes, bits: u16, r: bytes, n: nat, raw: bytes, rest: bytes)
    requires U16(i) == Parsed(bits, r) && n == (bits as int + 7) / 8 <= MAX_EXTERN_MPI_BITS
    requires Take(n, r) == Parsed(raw, rest)
    ensures ParseMpi(i) == Parsed(StripLeadingZeros(raw), rest)
  {
  }

  lemma MpisMore(count: nat, i: bytes, j: bytes)
    requires ParseMpis(count, i).Parsed?
    ensures ParseMpis(count, i + j) == Parsed(ParseMpis(count, i).value, ParseMpis(count, i).rest + j)
  {
    forall a, b | MPI(a).Parsed? ensures MPI(a + b) == Parsed(MPI(a).value, MPI(a).rest + b) {
      MpiMore(a, b);
    }
    ManyMore(MPI, count, i, j);
  }

  lemma TailMore(a: PublicKeyAlgorithm, i: bytes, j: bytes)
    requires ParseTail(a, i).Parsed?
    ensures ParseTail(a, i + j) == Parsed(ParseTail(a, i).value, ParseTail(a, i).rest + j)
  {
    TakeMore(2, i, j);
    MpisMore(MpiCount(a), Take(2, i).rest, j);
  }

  lemma TypeMore(i: bytes, j: bytes)
    requires ParseType(i).Parsed?
    ensures ParseType(i + j) == Parsed(ParseType(i).value, ParseType(i).rest + j)
  {
    U8More(i, j);
  }

  lemma AlgorithmsMore(i: bytes, j: bytes)
    requires ParseAlgorithms(i).Parsed?
    ensures ParseAlgorithms(i + j) == Parsed(ParseAlgorithms(i).value, ParseAlgorithms(i).rest + j)
  {
    U8More(i, j);
    U8More(U8(i).rest, j);
  }

  lemma CountedMore(i: bytes, j: bytes)
    requires ParseCounted(i).Parsed?
    ensures ParseCounted(i + j) == Parsed(ParseCounted(i).value, ParseCounted(i).rest + j)
  {
    U16More(i, j);
    TakeMore(U16(i).value, U16(i).rest, j);
  }

  lemma V3FrontMore(i: bytes, j: bytes)
    requires ParseV3Front(i).Parsed?
    ensures ParseV3Front(i + j) == Parsed(ParseV3Front(i).value, ParseV3Front(i).rest + j)
  {
    U8More(i, j);
    var i1 := U8(i).rest;
    TypeMore(i1, j);
    var i2 := ParseType(i1).rest;
    U32More(i2, j);
    TakeMore(8, U32(i2).rest, j);
  }

  lemma V3More(packetVersion: Version, version: SignatureVersion, i: bytes, j: bytes)
    requires ParseV3(packetVersion, version, i).Parsed?
    ensures var p := ParseV3(packetVersion, version, i);
            ParseV3(packetVersion, version, i + j) == Parsed(p.value, p.rest + j)
  {
    V3FrontMore(i, j);
    var i1 := ParseV3Front(i).rest;
    AlgorithmsMore(i1, j);
    TailMore(ParseAlgorithms(i1).value.0, ParseAlgorithms(i1).rest, j);
  }

  lemma AreasMore(packetVersion: Version, version: SignatureVersion, typ: SignatureType, pubAlg: PublicKeyAlgorithm,
                  hashAlg: byte, i: bytes, j: bytes)
    requires ParseAreas(packetVersion, version, typ, pubAlg, hashAlg, i).Parsed?
    ensures var p := ParseAreas(packetVersion, version, typ, pubAlg, hashAlg, i);
            ParseAreas(packetVersion, version, typ, pubAlg, hashAlg, i + j) == Parsed(p.value, p.rest + j)
  {
    CountedMore(i, j);
    var i3 := ParseCounted(i).rest;
    CountedMore(i3, j);
    TailMore(pubAlg, ParseCounted(i3).rest, j);
  }

  lemma V4More(packetVersion: Version, version: SignatureVersion, i: bytes, j: bytes)
    requires ParseV4(packetVersion, version, i).Parsed?
    ensures var p := ParseV4(packetVersion, version, i);
            ParseV4(packetVersion, version, i + j) == Parsed(p.value, p.rest + j)
  {
    TypeMore(i, j);
    var typ, i1 := ParseType(i).value, ParseType(i).rest;
    AlgorithmsMore(i1, j);
    var (pubAlg, hashAlg) := ParseAlgorithms(i1).value;
    AreasMore(packetVersion, version, typ, pubAlg, hashAlg, ParseAlgorithms(i1).rest, j);
  }

  lemma SignatureMore(packetVersion: Version, i: bytes, j: bytes)
    requires ParseSignature(packetVersion, i).Parsed?
    ensures var p := ParseSignature(packetVersion, i);
            ParseSignature(packetVersion, i + j) == Parsed(p.value, p.rest + j)
  {
    U8More(i, j);
    var version := VersionFrom(i[0]);
    if version.V2? || version.V3? {
      V3More(packetVersion, version, U8(i).rest, j);
    } else {
      V4More(packetVersion, version, U8(i).rest, j);
    }
  }

  // ---- MPIs

  /** An MPI that is read back from its own octets is canonical. */
  lemma MpiIsCanonical(m: bytes, x: bytes)
    requires ParseMpi(MpiBytes(m) + x).Parsed? && ParseMpi(MpiBytes(m) + x).value == m
    ensures Canonical(m)
  {
    Regroup(Be16(BitSize(m)), m, x);
    U16Append(BitSize(m), m + x);
    var bits := BitSize(m) % 0x1_0000;
    StripRestores((m + x)[..(bits + 7) / 8]);
    EnoughBits(m, bits);
  }

  lemma EnoughBits(m: bytes, bits: nat)
    requires bits == BitSize(m) % 0x1_0000 && |m| <= (bits + 7) / 8
    ensures Canonical(m)
  {
  }

  lemma {:induction false} MpisAreCanonical(ms: seq<bytes>, x: bytes)
    requires ParseMpis(|ms|, MpisBytes(ms) + x).Parsed? && ParseMpis(|ms|, MpisBytes(ms) + x).value == ms
    ensures forall k :: 0 <= k < |ms| ==> Canonical(ms[k])
  {
    if ms != [] {
      var others := MpisBytes(ms[1..]);
      Regroup(MpiBytes(ms[0]), others, x);
      var p := ParseMpi(MpiBytes(ms[0]) + (others + x));
      var q := ParseMpis(|ms| - 1, p.rest);
      assert ms == [p.value] + q.value;
      assert ms[1..] == q.value;
      MpiIsCanonical(ms[0], others + x);
      MpiParses(ms[0], others + x);
      MpisAreCanonical(ms[1..], x);
    }
  }

  lemma TailIsCanonical(s: Signature, x: bytes)
    requires var p := ParseTail(s.config.pubAlg, TailBytes(s) + x); p.Parsed? && p.value == (s.signedHashValue, s.mpis)
    ensures forall k :: 0 <= k < |s.mpis| ==> Canonical(s.mpis[k])
  {
    Regroup(s.signedHashValue, MpisBytes(s.mpis), x);
    TakeAppend(s.signedHashValue, MpisBytes(s.mpis) + x);
    MpisAreCanonical(s.mpis, x);
  }

  // ---- Subpackets

  /** What the length field of a subpacket says: a longer length is cut to 32 bits. */
  function Declared(n: nat): nat { if n < 8384 then n else n % 0x1_0000_0000 }

  lemma WrittenLength(n: nat, x: bytes)
    ensures ParseLength(WriteLength(n) + x) == Parsed(Declared(n), x)
  {
    var i := WriteLength(n) + x;
    if n < 8384 {
      LengthParses(n, x);
    } else {
      Regroup([0xFF], Be32(n), x);
      assert i[1..] == Be32(n) + x;
      U32Append(n, x);
    }
  }

  /** A frame parsed from the front of a written one has its type octet, as many octets as declared, and these are the
      octets that were written. */
  lemma FrameOf(len: nat, code: byte, body: bytes, tail: bytes, b: bytes, j: bytes)
    requires ParseFrame(b).Some? && b + j == FrameBytes(len, code, body) + tail
    ensures var (c, d, rest) := ParseFrame(b).value;
            c == code && |d| + 1 == Declared(1 + len) && d + (rest + j) == body + tail
  {
    var (c, d, rest) := ParseFrame(b).value;
    var z := [code] + (body + tail);
    Regroup(WriteLength(1 + len), [code] + body, tail);
    Regroup([code], body, tail);
    WrittenLength(1 + len, z);
    LengthMore(b, j);
    var r := ParseLength(b).rest;
    FrameParts(r, ParseLength(b).value, j, code, body + tail);
  }

  lemma FrameParts(r: bytes, n: nat, j: bytes, code: byte, z: bytes)
    requires 0 < n <= |r| && r + j == [code] + z
    ensures r[0] == code && |r[1..n]| == n - 1 && r[1..n] + (r[n..] + j) == z
  {
    assert r == [r[0]] + (r[1..n] + r[n..]);
    Regroup([r[0]], r[1..n] + r[n..], j);
    SplitEqual([r[0]], r[1..n] + r[n..] + j, [code], z);
    Regroup(r[1..n], r[n..], j);
  }

  predicate IsRaw(typ: SubpacketType) {
    || typ.RegularExpressionT? || typ.PreferredSymmetricT? || typ.PreferredHashT? || typ.PreferredCompressionT?
    || typ.KeyServerPreferencesT? || typ.PreferredKeyServerT? || typ.PolicyUriT? || typ.KeyFlagsT?
    || typ.SignersUserIdT? || typ.FeaturesT? || typ.PreferredAeadT? || typ.ExperimentalT? || typ.OtherT?
  }

  ghost predicate SizedBy(d: SubpacketData, body: bytes) {
    BodyBytes(d).Some? && BodyLen(d).Some? && BodyLen(d).value <= |BodyBytes(d).value| <= |body|
  }

  lemma RawSize(typ: SubpacketType, body: bytes)
    requires IsRaw(typ) && ParseData(typ, body).Some?
    ensures SizedBy(ParseData(typ, body).value, body)
  {
  }

  lemma NotationSize(body: bytes)
    requires ParseNotation(body).Some?
    ensures SizedBy(ParseNotation(body).value, body)
  {
  }

  lemma RevocationKeySize(body: bytes)
    requires ParseRevocationKey(body).Some?
    ensures SizedBy(ParseRevocationKey(body).value, body)
  {
  }

  /** Parsed data other than signatures take no more octets than they were parsed from, and no more than their body
      takes are declared. */
  lemma PlainSize(typ: SubpacketType, body: bytes)
    requires ParseData(typ, body).Some? && !ParseData(typ, body).value.EmbeddedSignature?
    ensures SizedBy(ParseData(typ, body).value, body)
  {
    if IsRaw(typ) {
      RawSize(typ, body);
    } else if typ.NotationT? {
      NotationSize(body);
    } else if typ.RevocationKeyT? {
      RevocationKeySize(body);
    }
  }

  lemma DataOf(typ: SubpacketType, body: bytes, j: bytes, tail: bytes)
    requires ParseData(typ, body).Some?
    requires var d := ParseData(typ, body).value; BodyBytes(d).Some? && body + j == BodyBytes(d).value + tail
    ensures var d := ParseData(typ, body).value;
            SizedBy(d, body) && (d.EmbeddedSignature? ==> RewritableData(d))
    decreases ParseData(typ, body).value, 0
  {
    var d := ParseData(typ, body).value;
    if d.EmbeddedSignature? {
      EmbeddedOnly(typ, body);
      EmbeddedData(body);
      EmbeddedOf(d.inner, body, j, tail);
    } else {
      PlainSize(typ, body);
    }
  }

  lemma EmbeddedOnly(typ: SubpacketType, body: bytes)
    requires ParseData(typ, body).Some? && ParseData(typ, body).value.EmbeddedSignature?
    ensures typ.EmbeddedSignatureT?
  {
  }

  lemma EmbeddedOf(inner: Signature, body: bytes, j: bytes, tail: bytes)
    requires ParseSignature(New, body).Parsed? && ParseSignature(New, body).value == inner
    requires SignatureBytes(inner).Some? && body + j == SignatureBytes(inner).value + tail
    ensures Rewritable(inner) && |SignatureBytes(inner).value| <= |body|
    decreases inner, 3
  {
    SignatureMore(New, body, j);
    SignatureOf(inner, New, tail);
    EmbeddedLength(inner, body, j, tail);
  }

  lemma EmbeddedLength(inner: Signature, body: bytes, j: bytes, tail: bytes)
    requires ParseSignature(New, body).Parsed? && ParseSignature(New, body).value == inner && Rewritable(inner)
    requires SignatureBytes(inner).Some? && body + j == SignatureBytes(inner).value + tail
    ensures |SignatureBytes(inner).value| <= |body|
  {
    var r := ParseSignature(New, body).rest;
    SignatureMore(New, body, j);
    ParsedSignature(New, body);
    SignatureParses(inner, tail);
    AtLeastAsLong(SignatureBytes(inner).value, tail, body, j, r);
  }

  lemma AtLeastAsLong(a: bytes, tail: bytes, body: bytes, j: bytes, r: bytes)
    requires body + j == a + tail && r + j == tail
    ensures |a| <= |body|
  {
    assert |body| + |j| == |a| + |tail| && |r| + |j| == |tail|;
  }

  lemma SubpacketOf(sp: Subpacket, tail: bytes, b: bytes, j: bytes)
    requires SubpacketBytes(sp).Some? && b + j == SubpacketBytes(sp).value + tail && |b| < 0x1_0000
    requires ParseSubpacket(b).Some? && ParseSubpacket(b).value.0 == sp
    ensures RewritableSubpacket(sp) && ParseSubpacket(b).value.1 + j == tail
    decreases sp, 0
  {
    var (code, body, rest) := ParseFrame(b).value;
    var d := sp.data;
    FrameOf(BodyLen(d).value, SubpacketTypeCode(DataType(d), sp.critical), BodyBytes(d).value, tail, b, j);
    BodyOf(SubpacketTypeFrom(code).0, body, rest + j, tail);
  }

  /** Data parsed from as many octets as are declared for it are parsed from exactly its own body. */
  lemma BodyOf(typ: SubpacketType, body: bytes, j: bytes, tail: bytes)
    requires ParseData(typ, body).Some? && |body| < 0x1_0000
    requires var d := ParseData(typ, body).value;
             && BodyBytes(d).Some? && BodyLen(d).Some? && body + j == BodyBytes(d).value + tail
             && |body| + 1 == Declared(1 + BodyLen(d).value)
    ensures RewritableData(ParseData(typ, body).value) && j == tail
    ensures var d := ParseData(typ, body).value; BodyBytes(d) == Some(body) && BodyLen(d) == Some(|body|)
    decreases ParseData(typ, body).value, 1
  {
    var d := ParseData(typ, body).value;
    DataOf(typ, body, j, tail);
    NotCut(BodyLen(d).value, |body|);
    LengthTells(d);
    SplitEqual(body, j, BodyBytes(d).value, tail);
  }

  lemma NotCut(len: nat, n: nat)
    requires n + 1 == Declared(1 + len) && len <= n < 0x1_0000
    ensures len == n
  {
  }

  lemma LengthTells(d: SubpacketData)
    requires BodyBytes(d).Some? && BodyLen(d) == Some(|BodyBytes(d).value|)
    ensures !d.EmbeddedSignature? ==> RewritableData(d)
  {
    BodyLenIsExact(d);
  }

  lemma {:induction false} AreaOf(sps: seq<Subpacket>, b: bytes, j: bytes)
    requires AreaBytes(sps).Some? && b + j == AreaBytes(sps).value && |b| < 0x1_0000 && ParseArea(b) == sps
    ensures RewritableArea(sps) && j == []
    decreases sps, 0
  {
    if sps != [] {
      var (sp, rest) := ParseSubpacket(b).value;
      assert sps == [sp] + ParseArea(rest);
      assert sps[1..] == ParseArea(rest);
      SubpacketOf(sps[0], AreaBytes(sps[1..]).value, b, j);
      AreaOf(sps[1..], rest, j);
    }
  }

  /** An area that is read back from its count and octets has a count that is not cut. */
  lemma CountedOf(sps: seq<Subpacket>, x: bytes)
    requires AreaBytes(sps).Some?
    requires var p := ParseCounted(Counted(AreaBytes(sps).value) + x); p.Parsed? && ParseArea(p.value) == sps
    ensures FitsArea(sps) && RewritableArea(sps)
    decreases sps, 1
  {
    var a := AreaBytes(sps).value;
    var n := |a| % 0x1_0000;
    CutCount(a, x);
    AreaOf(sps, a[..n], a[n..]);
  }

  lemma CutCount(a: bytes, x: bytes)
    ensures var n := |a| % 0x1_0000;
            n <= |a| && ParseCounted(Counted(a) + x) == Parsed(a[..n], a[n..] + x) && a[..n] + a[n..] == a
  {
    Regroup(Be16(|a|), a, x);
    U16Append(|a|, a + x);
    CutFront(a, x, |a| % 0x1_0000);
  }

  // ---- Signatures

  lemma V4Of(s: Signature, packetVersion: Version, version: SignatureVersion, hashed: bytes, unhashed: bytes, x: bytes)
    requires s.config.version.V4? || s.config.version.V5?
    requires AreaBytes(s.config.hashed) == Some(hashed) && AreaBytes(s.config.unhashed) == Some(unhashed)
    requires var p := ParseV4(packetVersion, version, V4Body(s, hashed, unhashed) + x); p.Parsed? && p.value == s
    ensures Rewritable(s)
    decreases s, 1
  {
    var c := s.config;
    var i4 := TailBytes(s) + x;
    var i3 := Counted(unhashed) + i4;
    var i2 := Counted(hashed) + i3;
    var i1 := AlgorithmOctets(c) + i2;
    Regroup5([TypeCode(c.typ)], AlgorithmOctets(c), Counted(hashed), Counted(unhashed), TailBytes(s), x);
    TypeParses(c.typ, i1);
    ParsedAlgorithms(i1);
    AlgorithmsParse(c, i2);
    AreasOf(s, packetVersion, version, hashed, unhashed, x);
  }

  /** The same behind the algorithms */
  lemma AreasOf(s: Signature, packetVersion: Version, version: SignatureVersion, hashed: bytes, unhashed: bytes, x: bytes)
    requires s.config.version.V4? || s.config.version.V5?
    requires AreaBytes(s.config.hashed) == Some(hashed) && AreaBytes(s.config.unhashed) == Some(unhashed)
    requires var c := s.config;
             var p := ParseAreas(packetVersion, version, c.typ, c.pubAlg, c.hashAlg,
                                 Counted(hashed) + (Counted(unhashed) + (TailBytes(s) + x)));
             p.Parsed? && p.value == s
    ensures Rewritable(s)
    decreases s, 0
  {
    var i4 := TailBytes(s) + x;
    CountedOf(s.config.hashed, Counted(unhashed) + i4);
    CountedParses(hashed, Counted(unhashed) + i4);
    CountedOf(s.config.unhashed, i4);
    CountedParses(unhashed, i4);
    TailIsCanonical(s, x);
  }

  lemma V3Of(s: Signature, packetVersion: Version, x: bytes)
    requires s.config.created.Some? && s.config.issuer.Some? && (s.config.version.V2? || s.config.version.V3?)
    requires var p := ParseV3(packetVersion, s.config.version, V3Body(s) + x); p.Parsed? && p.value == s
    ensures Rewritable(s)
  {
    var c := s.config;
    var front := V3Front(c.typ, c.created.value, c.issuer.value);
    var i2 := TailBytes(s) + x;
    var i1 := AlgorithmOctets(c) + i2;
    Regroup(front + AlgorithmOctets(c), TailBytes(s), x);
    Regroup(front, AlgorithmOctets(c), i2);
    V3FrontParses(c.typ, c.created.value, c.issuer.value, i1);
    ParsedAlgorithms(i1);
    AlgorithmsParse(c, i2);
    TailIsCanonical(s, x);
  }

  lemma SignatureOf(s: Signature, packetVersion: Version, x: bytes)
    requires SignatureBytes(s).Some?
    requires var p := ParseSignature(packetVersion, SignatureBytes(s).value + x); p.Parsed? && p.value == s
    ensures Rewritable(s)
    decreases s, 2
  {
    var c := s.config;
    if c.version.V2? || c.version.V3? {
      VersionOctet(c.version, V3Body(s), x);
      V3Of(s, packetVersion, x);
    } else {
      var hashed, unhashed := AreaBytes(c.hashed).value, AreaBytes(c.unhashed).value;
      VersionOctet(c.version, V4Body(s, hashed, unhashed), x);
      V4Of(s, packetVersion, c.version, hashed, unhashed, x);
    }
  }

  /** A signature is read back from its serialization, with whatever follows it left over, if and only if it is well
      formed. */
  lemma SignatureIsExact(s: Signature, rest: bytes)
    ensures WfSignature(s)
            <==> SignatureBytes(s).Some?
                 && ParseSignature(s.packetVersion, SignatureBytes(s).value + rest) == Parsed(s, rest)
  {
    if WfSignature(s) {
      SignatureParses(s, rest);
    } else if SignatureBytes(s).Some?
              && ParseSignature(s.packetVersion, SignatureBytes(s).value + rest) == Parsed(s, rest) {
      SignatureOf(s, s.packetVersion, rest);
      ParsedSignature(s.packetVersion, SignatureBytes(s).value + rest);
    }
  }

  /** Printing what was parsed and parsing it again gives the same signature, whatever follows, if and only if its key
      servers are ASCII, its MPIs canonical and its areas below 65536 octets, at every depth. */
  lemma ParsePrintParse(packetVersion: Version, i: bytes, rest: bytes)
    requires ParseSignature(packetVersion, i).Parsed?
    ensures var s := ParseSignature(packetVersion, i).value;
            Rewritable(s)
            <==> SignatureBytes(s).Some?
                 && ParseSignature(packetVersion, SignatureBytes(s).value + rest) == Parsed(s, rest)
  {
    ParsedSignature(packetVersion, i);
    SignatureIsExact(ParseSignature(packetVersion, i).value, rest);
  }
}

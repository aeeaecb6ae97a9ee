/** Writing a parsed signature and parsing it again: what the parser returns is well formed up to the three
    things it does not check. */
module SignatureReparse {
  import opened Bytes
  import opened Utf8
  import opened Mpi
  import opened SignatureTypes
  import opened SignatureDe
  import opened SignatureRoundTrip

  /** Key server names are ASCII, MPIs are canonical, and each area still fits its 16-bit count: the writer
      switches to five-octet lengths at 8384 octets, while the parser reads two-octet lengths up to 16319,
      so an area can grow. */
  ghost predicate RewritableData(d: SubpacketData)
    decreases d, 0
  {
    match d
    case EmbeddedSignature(inner) => Rewritable(inner)
    case PreferredKeyServer(server) => Ascii(server)
    case _ => true
  }

  ghost predicate RewritableSubpacket(sp: Subpacket)
    decreases sp, 0
  {
    RewritableData(sp.data)
  }

  ghost predicate RewritableArea(sps: seq<Subpacket>)
    decreases sps, 0
  {
    sps == [] || (RewritableSubpacket(sps[0]) && RewritableArea(sps[1..]))
  }

  ghost predicate Rewritable(s: Signature)
    decreases s, 0
  {
    && (forall k :: 0 <= k < |s.mpis| ==> Canonical(s.mpis[k]))
    && (s.config.version.V4? || s.config.version.V5? ==>
          && FitsArea(s.config.hashed) && RewritableArea(s.config.hashed)
          && FitsArea(s.config.unhashed) && RewritableArea(s.config.unhashed))
  }

  /** Nothing well formed is left out. */
  lemma {:induction false} WfDataIsRewritable(d: SubpacketData)
    requires WfData(d)
    ensures RewritableData(d)
    decreases d, 0
  {
    if d.EmbeddedSignature? {
      WfIsRewritable(d.inner);
    }
  }

  lemma {:induction false} WfSubpacketIsRewritable(sp: Subpacket)
    requires WfSubpacket(sp)
    ensures RewritableSubpacket(sp)
    decreases sp, 0
  {
    WfDataIsRewritable(sp.data);
  }

  lemma {:induction false} WfAreaIsRewritable(sps: seq<Subpacket>)
    requires WfArea(sps)
    ensures RewritableArea(sps)
    decreases sps, 0
  {
    if sps != [] {
      WfSubpacketIsRewritable(sps[0]);
      WfAreaIsRewritable(sps[1..]);
    }
  }

  lemma {:induction false} WfIsRewritable(s: Signature)
    requires WfSignature(s)
    ensures Rewritable(s)
    decreases s, 0
  {
    if s.config.version.V4? || s.config.version.V5? {
      WfAreaIsRewritable(s.config.hashed);
      WfAreaIsRewritable(s.config.unhashed);
    }
  }

  lemma {:induction false} ParsedData(n: byte, body: bytes)
    requires n < 128 && ParseData(TypeFromRaw(n), body).Some?
    ensures var d := ParseData(TypeFromRaw(n), body).value; RewritableData(d) ==> WfData(d)
    decreases |body|, 1
  {
    var typ := TypeFromRaw(n);
    if typ.EmbeddedSignatureT? {
      EmbeddedData(body);
      ParsedSignature(New, body);
    } else {
      PlainParsedData(n, body);
    }
  }

  lemma {:induction false} PlainParsedData(n: byte, body: bytes)
    requires n < 128 && ParseData(TypeFromRaw(n), body).Some? && !TypeFromRaw(n).EmbeddedSignatureT?
    ensures var d := ParseData(TypeFromRaw(n), body).value; RewritableData(d) ==> WfData(d)
  {
    var typ := TypeFromRaw(n);
    if typ.RevocationKeyT? {
      AlgorithmIsCanonical(body[1]);
    } else if typ.SignatureTargetT? {
      AlgorithmIsCanonical(body[0]);
    }
  }

  lemma AlgorithmIsCanonical(n: byte)
    ensures CanonicalAlgorithm(AlgorithmFrom(n))
  {
  }

  lemma AreaCons(sp: Subpacket, sps: seq<Subpacket>)
    ensures WfArea([sp] + sps) == (WfSubpacket(sp) && WfArea(sps))
    ensures RewritableArea([sp] + sps) == (RewritableSubpacket(sp) && RewritableArea(sps))
  {
    assert ([sp] + sps)[1..] == sps;
  }

  lemma {:induction false} ParsedSubpacket(i: bytes)
    requires ParseSubpacket(i).Some?
    ensures var sp := ParseSubpacket(i).value.0; RewritableSubpacket(sp) ==> WfSubpacket(sp)
    decreases |i|, 2
  {
    var (code, body, _) := ParseFrame(i).value;
    ParsedData(code % 128, body);
  }

  lemma {:induction false} ParsedArea(i: bytes)
    ensures RewritableArea(ParseArea(i)) ==> WfArea(ParseArea(i))
    decreases |i|, 3
  {
    if ParseSubpacket(i).Some? {
      var (sp, rest) := ParseSubpacket(i).value;
      ParsedSubpacket(i);
      ParsedArea(rest);
      AreaCons(sp, ParseArea(rest));
    }
  }

  /** The parser's result is well formed exactly when it is rewritable. */
  lemma {:induction false} ParsedSignature(packetVersion: Version, i: bytes)
    requires ParseSignature(packetVersion, i).Parsed?
    ensures var s := ParseSignature(packetVersion, i).value;
            s.packetVersion == packetVersion && (Rewritable(s) <==> WfSignature(s))
    decreases |i|, 0
  {
    var version := VersionFrom(i[0]);
    var s := ParseSignature(packetVersion, i).value;
    if WfSignature(s) {
      WfIsRewritable(s);
    }
    if version.V2? || version.V3? {
      ParsedV3(packetVersion, version, i[1..]);
    } else {
      var h, u := ParsedV4(packetVersion, version, i[1..]);
      ParsedArea(h);
      ParsedArea(u);
    }
  }

  lemma ParsedAlgorithms(i: bytes)
    requires ParseAlgorithms(i).Parsed?
    ensures CanonicalAlgorithm(ParseAlgorithms(i).value.0)
  {
    AlgorithmIsCanonical(i[0]);
  }

  lemma ParsedTail(a: PublicKeyAlgorithm, i: bytes)
    requires ParseTail(a, i).Parsed?
    ensures |ParseTail(a, i).value.1| == MpiCount(a)
  {
  }

  lemma ParsedV3(packetVersion: Version, version: SignatureVersion, i: bytes)
    requires (version.V2? || version.V3?) && ParseV3(packetVersion, version, i).Parsed?
    ensures var s := ParseV3(packetVersion, version, i).value;
            s.packetVersion == packetVersion && (Rewritable(s) ==> WfSignature(s))
  {
    var i1 := ParseV3Front(i).rest;
    ParsedAlgorithms(i1);
    ParsedTail(ParseAlgorithms(i1).value.0, ParseAlgorithms(i1).rest);
  }

  lemma ParsedV4(packetVersion: Version, version: SignatureVersion, i: bytes)
    returns (hashed: bytes, unhashed: bytes)
    requires ParseV4(packetVersion, version, i).Parsed?
    ensures |hashed| < |i| && |unhashed| < |i|
    ensures var s := ParseV4(packetVersion, version, i).value;
            && s.packetVersion == packetVersion && s.config.version == version
            && s.config.hashed == ParseArea(hashed) && s.config.unhashed == ParseArea(unhashed)
            && CanonicalAlgorithm(s.config.pubAlg) && |s.mpis| == MpiCount(s.config.pubAlg)
            && s.config.created.None? && s.config.issuer.None?
  {
    var i1 := ParseType(i).rest;
    ParsedAlgorithms(i1);
    var i2 := ParseAlgorithms(i1).rest;
    hashed := ParseCounted(i2).value;
    var i3 := ParseCounted(i2).rest;
    unhashed := ParseCounted(i3).value;
    ParsedTail(ParseAlgorithms(i1).value.0, ParseCounted(i3).rest);
  }
}

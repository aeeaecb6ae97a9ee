/** The octets a signature covers (`src/packet/signature/config.rs`, the `verify*` routines of
    `src/packet/signature/types.rs`, `to_writer_old` of `src/packet/public_key_macro.rs`).

    The hasher is a function of the concatenation of its updates, so each routine is the octet string it feeds
    to the hasher. `None` is an error or a panic. */
module SignatureHash {
  import opened Bytes
  import opened SignatureTypes
  import opened SignatureSer
  import opened SignatureRoundTrip
  import NormalizeLines

  function V4Header(c: SignatureConfig): bytes {
    [VersionCode(c.version), TypeCode(c.typ)] + AlgorithmOctets(c)
  }

  /** `hash_signature_data` */
  function SignatureData(c: SignatureConfig): Option<bytes> {
    match c.version
    case V2 | V3 => (
      var created :- c.created;
      Some([TypeCode(c.typ)] + Be32(created)))
    case V4 | V5 => (
      var area :- AreaBytes(c.hashed);
      if |area| >= 0x1_0000 then None else Some(V4Header(c) + Counted(area)))
    case OtherVersion(_) => None
  }

  /** `hash_signature_data` as the source runs it for versions 4 and 5: a header whose length octets are filled
      in after the subpackets have been written to a buffer of their own. */
  method HashSignatureDataV4(c: SignatureConfig) returns (r: Option<bytes>)
    requires c.version.V4? || c.version.V5?
    ensures r == SignatureData(c)
  {
    var res: bytes := [VersionCode(c.version), TypeCode(c.typ), AlgorithmCode(c.pubAlg), c.hashAlg, 0, 0];
    var area := WriteArea(c.hashed);
    if area.None? || |area.value| >= 0x1_0000 {
      return None;
    }
    var n := Be16(|area.value|);
    res := res[4 := n[0]][5 := n[1]];
    assert res == V4Header(c) + n;
    Regroup(V4Header(c), n, area.value);
    r := Some(res + area.value);
  }

  /** `trailer` */
  function Trailer(c: SignatureConfig, len: nat): bytes {
    if c.version.V2? || c.version.V3? then [] else [0x04, 0xFF] + Be32(len)
  }

  /** The signature data and the trailer, which every routine hashes last. */
  function Ending(c: SignatureConfig): Option<bytes> {
    var data :- SignatureData(c);
    Some(data + Trailer(c, |data|))
  }

  /** `hash_data_to_sign` */
  function DocumentData(typ: SignatureType, data: bytes): Option<bytes> {
    match typ
    case Text | Binary => Some(data)
    case Timestamp | Standalone => if data == [] then None else Some(data[..1])
    case _ => None
  }

  /** What `sign` hashes */
  function SignDocument(c: SignatureConfig, data: bytes): Option<bytes> {
    Join(DocumentData(c.typ, data), Ending(c))
  }

  /** What `verify` hashes: the line endings of a text are normalized first. */
  function VerifyDocument(c: SignatureConfig, data: bytes): Option<bytes> {
    SignDocument(c, if c.typ.Text? then NormalizeLines.Normal(data, NormalizeLines.Crlf) else data)
  }

  /** `to_writer_old`: the key with an old-style packet header, its length cut to 16 bits. */
  function KeyFrame(key: bytes): bytes {
    [0x99] + Be16(|key|) + key
  }

  datatype IdTag = UserId | UserAttribute | OtherTag

  /** The packet content with its prefix, which only version 4 and 5 signatures hash. */
  function IdFrame(c: SignatureConfig, tag: IdTag, id: bytes): Option<bytes> {
    if c.version.V2? || c.version.V3? then Some(id)
    else if tag.OtherTag? then None
    else Some([if tag.UserId? then 0xB4 else 0xD1] + Be32(|id|) + id)
  }

  /** `verify_third_party_certification`; `sign_certification_third_party` also insists on a certification type. */
  function Certification(c: SignatureConfig, key: bytes, tag: IdTag, id: bytes): Option<bytes> {
    var frame :- IdFrame(c, tag, id);
    Join(Some(KeyFrame(key) + frame), Ending(c))
  }

  /** `sign_key_binding` and `verify_key_binding_internal`: `first` is the primary key, also for a back signature. */
  function Binding(c: SignatureConfig, first: bytes, second: bytes): Option<bytes> {
    Join(Some(KeyFrame(first) + KeyFrame(second)), Ending(c))
  }

  /** What of a configuration is covered by the signature, in octets */
  datatype Covered =
    | CoveredV3(typ: SignatureType, created: u32)
    | CoveredV4(version: SignatureVersion, typ: SignatureType, pubAlg: byte, hashAlg: byte, area: bytes)

  function CoveredBy(c: SignatureConfig): Covered
    requires Ending(c).Some?
  {
    if c.version.V2? || c.version.V3? then CoveredV3(c.typ, c.created.value)
    else CoveredV4(c.version, c.typ, AlgorithmCode(c.pubAlg), c.hashAlg, AreaBytes(c.hashed).value)
  }

  predicate IsV3(c: SignatureConfig) { c.version.V2? || c.version.V3? }

  // ---- The hash path agrees with the serializer, though the source spells both out

  /** What is hashed of a version 4 or 5 signature is a prefix of its serialization. */
  lemma HashedDataIsSerializedPrefix(s: Signature)
    requires s.config.version.V4? || s.config.version.V5?
    requires SignatureBytes(s).Some? && SignatureData(s.config).Some?
    ensures SignatureData(s.config).value <= SignatureBytes(s).value
  {
    var c := s.config;
    var hashed, unhashed := AreaBytes(c.hashed).value, AreaBytes(c.unhashed).value;
    PrefixOfBody([VersionCode(c.version)], [TypeCode(c.typ)], AlgorithmOctets(c), Counted(hashed), Counted(unhashed),
                 TailBytes(s));
  }

  lemma PrefixOfBody(v: bytes, t: bytes, a: bytes, h: bytes, u: bytes, m: bytes)
    requires |v| == |t| == 1
    ensures [v[0], t[0]] + a + h <= v + (t + a + h + u + m)
  {
    assert v + (t + a + h + u + m) == [v[0], t[0]] + a + h + (u + m);
  }

  /** Signing and verifying hash the same octets unless a text is signed that is not normalized. */
  lemma SignAndVerifyAgree(c: SignatureConfig, data: bytes)
    requires SignDocument(c, data).Some?
    ensures SignDocument(c, data) == VerifyDocument(c, data)
            <==> (c.typ.Text? ==> NormalizeLines.Normal(data, NormalizeLines.Crlf) == data)
  {
    if c.typ.Text? {
      var e := Ending(c).value;
      var n := NormalizeLines.Normal(data, NormalizeLines.Crlf);
      if data + e == n + e {
        SplitEqualEnd(data, e, n, e);
      }
    }
  }

  // ---- Unique decodability, reading from the end

  /** The version 4 ending tells its own length: nothing before it can be confused with it. */
  lemma EndingV4Splits(x: bytes, a: bytes, y: bytes, b: bytes)
    requires |a| < 0x1_0000_0000 && |b| < 0x1_0000_0000
    requires x + (a + ([0x04, 0xFF] + Be32(|a|))) == y + (b + ([0x04, 0xFF] + Be32(|b|)))
    ensures x == y && a == b
  {
    var t, u := [0x04, 0xFF] + Be32(|a|), [0x04, 0xFF] + Be32(|b|);
    Regroup(x, a, t);
    Regroup(y, b, u);
    SplitEqualEnd(x + a, t, y + b, u);
    SplitEqualEnd([0x04, 0xFF], Be32(|a|), [0x04, 0xFF], Be32(|b|));
    Be32Injective(|a|, |b|);
    SplitEqualEnd(x, a, y, b);
  }

  /** The fifth octet from the end is 0xFF in versions 4 and 5 and a signature type in versions 2 and 3. */
  lemma EndingTellsVersion(c: SignatureConfig, x: bytes, d: SignatureConfig, y: bytes)
    requires Ending(c).Some? && Ending(d).Some? && IsV3(c) && !IsV3(d)
    ensures x + Ending(c).value != y + Ending(d).value
  {
    FifthOctet(TypeCode(c.typ), Be32(c.created.value), x);
    var data := SignatureData(d).value;
    Regroup(y, data, [0x04, 0xFF] + Be32(|data|));
    FifthOctet(0xFF, Be32(|data|), y + data + [0x04]);
    assert y + data + [0x04] + ([0xFF] + Be32(|data|)) == y + data + ([0x04, 0xFF] + Be32(|data|));
    AppendNothing([TypeCode(c.typ)] + Be32(c.created.value));
    TypeIsNotFF(c.typ);
  }

  lemma TypeIsNotFF(t: SignatureType)
    ensures TypeCode(t) != 0xFF
  {
  }

  lemma FifthOctet(b: byte, four: bytes, x: bytes)
    requires |four| == 4
    ensures var s := x + ([b] + four); s[|s| - 5] == b
  {
  }

  /** Equal signature data of versions 4 and 5 have equal headers and equal areas. */
  lemma DataDetermines(c: SignatureConfig, d: SignatureConfig)
    requires SignatureData(c).Some? && SignatureData(c) == SignatureData(d) && !IsV3(c) && !IsV3(d)
    ensures c.version == d.version && c.typ == d.typ && AlgorithmCode(c.pubAlg) == AlgorithmCode(d.pubAlg)
    ensures c.hashAlg == d.hashAlg && AreaBytes(c.hashed) == AreaBytes(d.hashed)
  {
    var a, b := AreaBytes(c.hashed).value, AreaBytes(d.hashed).value;
    SplitEqual(V4Header(c), Counted(a), V4Header(d), Counted(b));
    HeaderDetermines(c, d);
    SplitEqual(Be16(|a|), a, Be16(|b|), b);
  }

  lemma HeaderDetermines(c: SignatureConfig, d: SignatureConfig)
    requires V4Header(c) == V4Header(d) && !IsV3(c) && !IsV3(d)
    requires !c.version.OtherVersion? && !d.version.OtherVersion?
    ensures c.version == d.version && c.typ == d.typ && AlgorithmCode(c.pubAlg) == AlgorithmCode(d.pubAlg)
    ensures c.hashAlg == d.hashAlg
  {
    assert V4Header(c)[0] == VersionCode(c.version) && V4Header(d)[0] == VersionCode(d.version);
    assert V4Header(c)[1] == TypeCode(c.typ) && V4Header(d)[1] == TypeCode(d.typ);
    assert V4Header(c)[2] == AlgorithmCode(c.pubAlg) && V4Header(d)[2] == AlgorithmCode(d.pubAlg);
    assert V4Header(c)[3] == c.hashAlg && V4Header(d)[3] == d.hashAlg;
    assert TypeFrom(TypeCode(c.typ)) == Some(c.typ) && TypeFrom(TypeCode(d.typ)) == Some(d.typ);
  }

  /** Equal hash inputs come from equal front parts and equally covered configurations, over all versions and for all
      configurations, well formed or not. */
  lemma {:induction false} EndingSplits(c: SignatureConfig, x: bytes, d: SignatureConfig, y: bytes)
    requires Ending(c).Some? && Ending(d).Some?
    requires x + Ending(c).value == y + Ending(d).value
    ensures x == y && IsV3(c) == IsV3(d) && SignatureData(c) == SignatureData(d) && CoveredBy(c) == CoveredBy(d)
  {
    if IsV3(c) != IsV3(d) {
      if IsV3(c) {
        EndingTellsVersion(c, x, d, y);
      } else {
        EndingTellsVersion(d, y, c, x);
      }
    } else if IsV3(c) {
      var s, t := SignatureData(c).value, SignatureData(d).value;
      AppendNothing(s);
      AppendNothing(t);
      SplitEqualEnd(x, s, y, t);
      SplitEqual([TypeCode(c.typ)], Be32(c.created.value), [TypeCode(d.typ)], Be32(d.created.value));
      Be32Injective(c.created.value, d.created.value);
      assert TypeFrom(TypeCode(c.typ)) == Some(c.typ) && TypeFrom(TypeCode(d.typ)) == Some(d.typ);
    } else {
      EndingV4Splits(x, SignatureData(c).value, y, SignatureData(d).value);
      DataDetermines(c, d);
    }
  }

  /** What is covered in octets is the same algorithm if both are canonical, and the same hashed subpackets, compared
      with well-formed ones, if and only if the others are well formed too. */
  lemma CoveredSubpackets(c: SignatureConfig, d: SignatureConfig)
    requires Ending(c).Some? && Ending(d).Some? && !IsV3(c) && CoveredBy(c) == CoveredBy(d)
    ensures CanonicalAlgorithm(c.pubAlg) && CanonicalAlgorithm(d.pubAlg) ==> c.pubAlg == d.pubAlg
    ensures WfArea(c.hashed) ==> (c.hashed == d.hashed <==> WfArea(d.hashed))
  {
    if WfArea(c.hashed) && WfArea(d.hashed) {
      AreaParses(c.hashed);
      AreaParses(d.hashed);
    }
  }

  /** Two documents and configurations with the same hash input are the same document (its first octet for a
      timestamp or standalone signature) under the same covered configuration. */
  lemma DocumentInputIsUnique(c: SignatureConfig, x: bytes, d: SignatureConfig, y: bytes)
    requires SignDocument(c, x).Some? && SignDocument(c, x) == SignDocument(d, y)
    ensures CoveredBy(c) == CoveredBy(d) && DocumentData(c.typ, x) == DocumentData(d.typ, y)
    ensures c.typ.Text? || c.typ.Binary? ==> x == y
  {
    EndingSplits(c, DocumentData(c.typ, x).value, d, DocumentData(d.typ, y).value);
  }

  /** Framed keys that start equal inputs have equal lengths modulo 65536, and are equal as soon as their lengths
      are. This needs no bound on any of them. */
  lemma KeyFrameSplits(k: bytes, x: bytes, l: bytes, y: bytes)
    requires KeyFrame(k) + x == KeyFrame(l) + y
    ensures |k| % 0x1_0000 == |l| % 0x1_0000
    ensures |k| == |l| <==> k == l && x == y
  {
    Regroup([0x99] + Be16(|k|), k, x);
    Regroup([0x99] + Be16(|l|), l, y);
    SplitEqual([0x99] + Be16(|k|), k + x, [0x99] + Be16(|l|), l + y);
    SplitEqual([0x99], Be16(|k|), [0x99], Be16(|l|));
    Be16Inverse(|k|);
    Be16Inverse(|l|);
    if |k| == |l| {
      SplitEqual(k, x, l, y);
    }
  }

  /** A key below 65536 octets, in front of less than 65536 octets or compared with such a key, is told from keys of
      any length: a longer key would have to be longer by 65536. */
  lemma ShortKeyFrameSplits(k: bytes, x: bytes, l: bytes, y: bytes)
    requires KeyFrame(k) + x == KeyFrame(l) + y && |k| < 0x1_0000 && (|x| < 0x1_0000 || |l| < 0x1_0000)
    ensures k == l && x == y
  {
    KeyFrameSplits(k, x, l, y);
    assert |KeyFrame(k) + x| == |KeyFrame(l) + y|;
    SameModulo(|k|, |l|, |x|, |y|);
  }

  lemma SameModulo(k: nat, l: nat, x: nat, y: nat)
    requires k % 0x1_0000 == l % 0x1_0000 && k + x == l + y && k < 0x1_0000 && (x < 0x1_0000 || l < 0x1_0000)
    ensures k == l
  {
  }

  lemma SameKeyFrame(k: bytes, l: bytes)
    ensures KeyFrame(k) == KeyFrame(l) <==> k == l
  {
    if KeyFrame(k) == KeyFrame(l) {
      SplitEqual([0x99] + Be16(|k|), k, [0x99] + Be16(|l|), l);
    }
  }

  lemma IdFrameDetermines(c: SignatureConfig, t: IdTag, x: bytes, d: SignatureConfig, u: IdTag, y: bytes)
    requires IdFrame(c, t, x).Some? && IdFrame(c, t, x) == IdFrame(d, u, y) && IsV3(c) == IsV3(d)
    ensures x == y && (!IsV3(c) ==> t == u)
  {
    if !IsV3(c) {
      var p: byte, q: byte := if t.UserId? then 0xB4 else 0xD1, if u.UserId? then 0xB4 else 0xD1;
      SplitEqual([p] + Be32(|x|), x, [q] + Be32(|y|), y);
      assert ([p] + Be32(|x|))[0] == p && ([q] + Be32(|y|))[0] == q;
    }
  }

  /** Certifications with the same hash input have the same covered configuration, and key lengths that agree modulo
      65536. If the key lengths agree, the keys agree, the user ids or attributes agree, and from version 4 on also
      which of the two they are. */
  lemma CertificationInputIsUnique(c: SignatureConfig, k: bytes, t: IdTag, x: bytes,
                                   d: SignatureConfig, l: bytes, u: IdTag, y: bytes)
    requires Certification(c, k, t, x).Some? && Certification(c, k, t, x) == Certification(d, l, u, y)
    ensures CoveredBy(c) == CoveredBy(d) && |k| % 0x1_0000 == |l| % 0x1_0000
    ensures |k| == |l| <==> k == l && x == y && (!IsV3(c) ==> t == u)
    ensures |k| < 0x1_0000 && (|x| + 5 < 0x1_0000 || |l| < 0x1_0000) ==> k == l && x == y
  {
    var f, g := IdFrame(c, t, x).value, IdFrame(d, u, y).value;
    EndingSplits(c, KeyFrame(k) + f, d, KeyFrame(l) + g);
    KeyFrameSplits(k, f, l, g);
    if |k| < 0x1_0000 && (|f| < 0x1_0000 || |l| < 0x1_0000) {
      ShortKeyFrameSplits(k, f, l, g);
    }
    if |k| == |l| {
      IdFrameDetermines(c, t, x, d, u, y);
    }
  }

  /** Key bindings with the same hash input have the same covered configuration, and first keys whose lengths agree
      modulo 65536. If these lengths agree, both keys agree, in the same order. So a binding of a key below 65536
      octets to one below 65533 octets is told from bindings of keys of any length. */
  lemma BindingInputIsUnique(c: SignatureConfig, k1: bytes, k2: bytes, d: SignatureConfig, l1: bytes, l2: bytes)
    requires Binding(c, k1, k2).Some? && Binding(c, k1, k2) == Binding(d, l1, l2)
    ensures CoveredBy(c) == CoveredBy(d) && |k1| % 0x1_0000 == |l1| % 0x1_0000
    ensures |k1| == |l1| <==> k1 == l1 && k2 == l2
    ensures |k1| < 0x1_0000 && (|k2| + 3 < 0x1_0000 || |l1| < 0x1_0000) ==> k1 == l1 && k2 == l2
  {
    EndingSplits(c, KeyFrame(k1) + KeyFrame(k2), d, KeyFrame(l1) + KeyFrame(l2));
    TwoKeyFrames(k1, k2, l1, l2);
  }

  lemma TwoKeyFrames(k1: bytes, k2: bytes, l1: bytes, l2: bytes)
    requires KeyFrame(k1) + KeyFrame(k2) == KeyFrame(l1) + KeyFrame(l2)
    ensures |k1| % 0x1_0000 == |l1| % 0x1_0000
    ensures |k1| == |l1| <==> k1 == l1 && k2 == l2
    ensures |k1| < 0x1_0000 && (|k2| + 3 < 0x1_0000 || |l1| < 0x1_0000) ==> k1 == l1 && k2 == l2
  {
    var f, g := KeyFrame(k2), KeyFrame(l2);
    SameKeyFrame(k2, l2);
    KeyFrameSplits(k1, f, l1, g);
    if |k1| < 0x1_0000 && (|f| < 0x1_0000 || |l1| < 0x1_0000) {
      ShortKeyFrameSplits(k1, f, l1, g);
    }
  }

  // ---- Over-long keys are ambiguous

  /** A key that is continued by 65536 octets has the same frame header as the key itself. */
  lemma LongFrame(key: bytes, more: bytes, x: bytes)
    requires |more| == 0x1_0000
    ensures KeyFrame(key + more) + x == KeyFrame(key) + (more + x)
  {
    LongLength(|key|);
    var head := [0x99] + Be16(|key|);
    Regroup(head, key, more);
    Regroup(head + key, more, x);
  }

  /** The length condition is needed: for any two keys and any filling, the binding of the first key, continued by
      65536 octets, to the second key hashes what the binding of the first key to another key hashes. The filling
      chooses how that other key starts. */
  lemma LongKeysAreAmbiguous(c: SignatureConfig, key: bytes, second: bytes, fill: bytes)
    returns (first: bytes, other: bytes)
    requires |fill| == 0xFFFD
    ensures key <= first && |first| == |key| + 0x1_0000 && fill <= other
    ensures Binding(c, first, second) == Binding(c, key, other)
  {
    var head := [0x99] + Be16(|second|);
    first := key + (head + fill);
    other := fill + KeyFrame(second);
    LongFrame(key, head + fill, KeyFrame(second));
    Regroup(head, fill, KeyFrame(second));
    LongLength(|second|);
    assert KeyFrame(other) == head + other;
  }

  /** The length field does not see 65536 octets more. */
  lemma LongLength(n: nat)
    ensures Be16(n + 0x1_0000) == Be16(n)
  {
    assert n + 0x1_0000 == 0x100 * (n / 0x100 + 0x100) + n % 0x100;
    SameOctet(n / 0x100);
    SameOctet2(n);
  }

  lemma SameOctet(q: nat)
    ensures (q + 0x100) % 0x100 == q % 0x100
  {
  }

  lemma SameOctet2(n: nat)
    ensures (n + 0x1_0000) % 0x100 == n % 0x100 && (n + 0x1_0000) / 0x100 == n / 0x100 + 0x100
  {
  }

  /** Likewise for certifications: that of an over-long key hashes what the certification of the shorter key with
      another user id or attribute hashes. */
  lemma LongCertifiedKeysAreAmbiguous(c: SignatureConfig, key: bytes, t: IdTag, id: bytes, u: IdTag, fill: bytes)
    returns (first: bytes, other: bytes)
    requires !t.OtherTag? && !u.OtherTag? && |fill| == 0xFFFB
    ensures key <= first && |first| == |key| + 0x1_0000 && fill <= other
    ensures Certification(c, first, t, id) == Certification(c, key, u, other)
  {
    var frame := IdFrame(c, t, id).value;
    if IsV3(c) {
      var more := fill + Repeat(0, 5);
      first, other := key + more, more + id;
      LongFrame(key, more, id);
      Regroup(fill, Repeat(0, 5), id);
    } else {
      other := fill + frame;
      var head := [if u.UserId? then 0xB4 else 0xD1] + Be32(|other|);
      first := key + (head + fill);
      LongFrame(key, head + fill, frame);
      Regroup(head, fill, frame);
      assert IdFrame(c, u, other).value == head + other;
    }
  }
}

/** Reading hash inputs back: a decoder of what `SignatureHash` feeds to the hasher, written from the packet headers and
    the trailer of section 5.2.4 of RFC 4880. */
module SignatureInput {
  import opened Bytes
  import opened SignatureTypes
  import opened PacketHeader
  import opened SignatureHash

  // ---- The decoder

  /** A key behind an old-style header of a public key packet with a length, and what follows it */
  function ReadKey(i: bytes): Option<(bytes, bytes)> {
    match ParseHeader(i)
    case Parsed(Header(Old, tag, Fixed(n)), i) => if tag != 6 || |i| < n then None else Some((i[..n], i[n..]))
    case _ => None
  }

  /** The packet that a header octet of either style stands for */
  function TagOf(o: byte): Option<nat> {
    if o < 128 then None else Some(if o < 192 then o as int % 64 / 4 else o as int % 64)
  }

  /** A user id (tag 13) or attribute (tag 17) that fills the rest, behind its header octet and four octets of length */
  function ReadId(i: bytes): Option<(IdTag, bytes)> {
    if |i| < 5 || BeValue(i[1..5]) != |i| - 5 then None
    else
      var tag :- TagOf(i[0]);
      if tag == 13 then Some((UserId, i[5..])) else if tag == 17 then Some((UserAttribute, i[5..])) else None
  }

  /** The trailer of versions 4 and 5 says how long the signature data in front of it is: what is hashed before, and the
      signature data. */
  function ReadEnding(s: bytes): Option<(bytes, bytes)> {
    var end := |s| - 6;
    if end < 0 || s[end] != 0x04 || s[end + 1] != 0xFF || BeValue(s[end + 2..]) > end then None
    else
      var cut := end - BeValue(s[end + 2..]);
      Some((s[..cut], s[cut..end]))
  }

  /** Key, id and signature data of a certification of version 4 or 5 */
  function ReadCertification(s: bytes): Option<(bytes, IdTag, bytes, bytes)> {
    var (front, data) :- ReadEnding(s);
    var (key, i) :- ReadKey(front);
    var (tag, id) :- ReadId(i);
    Some((key, tag, id, data))
  }

  /** Both keys and the signature data of a key binding of version 4 or 5 */
  function ReadBinding(s: bytes): Option<(bytes, bytes, bytes)> {
    var (front, data) :- ReadEnding(s);
    var (first, i) :- ReadKey(front);
    var (second, i) :- ReadKey(i);
    if i != [] then None else Some((first, second, data))
  }

  /** Versions 2 and 3 hash the type and the creation time last, and no trailer. */
  function ReadV3Ending(s: bytes): Option<(bytes, byte, nat)> {
    var end := |s| - 5;
    if end < 0 then None else Some((s[..end], s[end], BeValue(s[end + 1..])))
  }

  // ---- What it reads

  /** A hashed key starts with the old-style header of a public key packet, whose length has 16 bits. */
  lemma KeyHeader(k: bytes, x: bytes)
    ensures ParseHeader(KeyFrame(k) + x) == Parsed(Header(Old, 6, Fixed(|k| % 0x1_0000)), k + x)
  {
    Regroup([0x99] + Be16(|k|), k, x);
    Regroup([0x99], Be16(|k|), k + x);
    Split([0x99], Be16(|k|) + (k + x));
    U16Append(|k|, k + x);
  }

  lemma KeyReads(k: bytes, x: bytes)
    requires |k| < 0x1_0000
    ensures ReadKey(KeyFrame(k) + x) == Some((k, x))
  {
    KeyHeader(k, x);
    ModSmall(|k|, 0x1_0000);
    Split(k, x);
  }

  lemma IdReads(c: SignatureConfig, t: IdTag, id: bytes)
    requires !IsV3(c) && !t.OtherTag? && |id| < 0x1_0000_0000
    ensures ReadId(IdFrame(c, t, id).value) == Some((t, id))
  {
    var i := IdFrame(c, t, id).value;
    var head := i[..1];
    assert i[1..5] == Be32(|id|) && i[5..] == id;
    Be32Value(|id|);
    ModSmall(|id|, 0x1_0000_0000);
  }

  lemma DataIsShort(c: SignatureConfig)
    requires !IsV3(c) && SignatureData(c).Some?
    ensures |SignatureData(c).value| < 0x1_0006
  {
  }

  lemma EndingReads(c: SignatureConfig, x: bytes)
    requires !IsV3(c) && Ending(c).Some?
    ensures ReadEnding(x + Ending(c).value) == Some((x, SignatureData(c).value))
  {
    var data := SignatureData(c).value;
    DataIsShort(c);
    Regroup(x, data, [0x04, 0xFF] + Be32(|data|));
    TrailerReads(x, data);
  }

  lemma TrailerReads(x: bytes, data: bytes)
    requires |data| < 0x1_0000_0000
    ensures ReadEnding(x + data + ([0x04, 0xFF] + Be32(|data|))) == Some((x, data))
  {
    var s := x + data + ([0x04, 0xFF] + Be32(|data|));
    var end := |x| + |data|;
    assert s[end + 2..] == Be32(|data|);
    Be32Value(|data|);
    ModSmall(|data|, 0x1_0000_0000);
    assert s[..|x|] == x && s[|x|..end] == data;
  }

  /** From the certification hash input of a key below 65536 octets, the decoder recovers the key, whether it is a user
      id or an attribute, the id and the signature data. */
  lemma CertificationReads(c: SignatureConfig, k: bytes, t: IdTag, id: bytes)
    requires !IsV3(c) && Certification(c, k, t, id).Some? && |k| < 0x1_0000 && |id| < 0x1_0000_0000
    ensures ReadCertification(Certification(c, k, t, id).value) == Some((k, t, id, SignatureData(c).value))
  {
    var frame := IdFrame(c, t, id).value;
    EndingReads(c, KeyFrame(k) + frame);
    KeyReads(k, frame);
    IdReads(c, t, id);
  }

  /** Likewise from a key binding, the two keys in order. */
  lemma BindingReads(c: SignatureConfig, first: bytes, second: bytes)
    requires !IsV3(c) && Binding(c, first, second).Some? && |first| < 0x1_0000 && |second| < 0x1_0000
    ensures ReadBinding(Binding(c, first, second).value) == Some((first, second, SignatureData(c).value))
  {
    EndingReads(c, KeyFrame(first) + KeyFrame(second));
    KeyReads(first, KeyFrame(second));
    KeyReads(second, []);
    AppendNothing(KeyFrame(second));
  }

  /** Versions 2 and 3: the key in its header, the bare id, type and time. */
  lemma V3CertificationReads(c: SignatureConfig, k: bytes, t: IdTag, id: bytes)
    requires IsV3(c) && Certification(c, k, t, id).Some? && |k| < 0x1_0000
    ensures var r := ReadV3Ending(Certification(c, k, t, id).value);
            && r.Some? && ReadKey(r.value.0) == Some((k, id))
            && r.value.1 == TypeCode(c.typ) && r.value.2 == c.created.value
  {
    V3EndingReads(c, KeyFrame(k) + id);
    KeyReads(k, id);
  }

  lemma V3EndingReads(c: SignatureConfig, x: bytes)
    requires IsV3(c) && Ending(c).Some?
    ensures ReadV3Ending(x + Ending(c).value) == Some((x, TypeCode(c.typ), c.created.value))
  {
    var time := Be32(c.created.value);
    AppendNothing([TypeCode(c.typ)] + time);
    var s := x + ([TypeCode(c.typ)] + time);
    assert s[..|x|] == x && s[|x| + 1..] == time;
    Be32Value(c.created.value);
    ModSmall(c.created.value, 0x1_0000_0000);
  }

  /** Documents are hashed under signatures of type 0 and 1 as they are, under type 2 and 0x40 with their first octet, and
      under no other type. */
  lemma DocumentReads(c: SignatureConfig, x: bytes)
    requires Ending(c).Some?
    ensures var code := TypeCode(c.typ);
            && (SignDocument(c, x).Some? <==> code in {0, 1} || (code in {2, 0x40} && x != []))
            && (SignDocument(c, x).Some? && !IsV3(c) ==>
                  ReadEnding(SignDocument(c, x).value)
                  == Some((if code in {0, 1} then x else x[..1], SignatureData(c).value)))
            && (SignDocument(c, x).Some? && IsV3(c) ==>
                  ReadV3Ending(SignDocument(c, x).value)
                  == Some((if code in {0, 1} then x else x[..1], code, c.created.value)))
  {
    if SignDocument(c, x).Some? {
      var front := DocumentData(c.typ, x).value;
      if IsV3(c) {
        V3EndingReads(c, front);
      } else {
        EndingReads(c, front);
      }
    }
  }
}

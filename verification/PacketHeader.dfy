/** Packet headers (`src/packet/single.rs`, `write_header` of `src/types/packet.rs`). A tag is its number. */
module PacketHeader {
  import opened Bytes
  import opened PacketLength
  import opened SignatureTypes

  datatype Length = Fixed(len: nat) | Indeterminate | Partial(len: nat)

  datatype Header = Header(version: Version, tag: byte, length: Length)

  /** The top bit set by `|`, the length type in the two free low bits */
  function OldTagOctet(tag: byte, lengthType: nat): byte
    requires lengthType < 3
  {
    var shifted := 4 * tag as int % 256;
    (if shifted < 128 then shifted + 128 else shifted) + lengthType
  }

  /** `write_header` */
  function WriteHeader(v: Version, tag: byte, len: nat): bytes {
    match v
    case Old =>
      if len < 256 then [OldTagOctet(tag, 0), len]
      else if len < 0x1_0000 then [OldTagOctet(tag, 1)] + Be16(len)
      else [OldTagOctet(tag, 2)] + Be32(len)
    case New => [192 + tag % 64] + WriteLength(len)
  }

  /** `read_packet_len` */
  function ReadLength(i: bytes): Parse<Length> {
    var (first, i) :- U8(i);
    if first < 192 then Parsed(Fixed(first), i)
    else if first < 224 then
      var (second, i) :- U8(i);
      Parsed(Fixed((first - 192) as int * 256 + 192 + second as int), i)
    else if first < 255 then Parsed(Partial(Pow2(first % 32)), i)
    else
      var (len, i) :- U32(i);
      Parsed(Fixed(len), i)
  }

  /** `old_packet_header`, after the tag octet */
  function ReadOldLength(lengthType: nat, i: bytes): Parse<Length>
    requires lengthType < 4
  {
    if lengthType == 0 then
      var (len, i) :- U8(i);
      Parsed(Fixed(len), i)
    else if lengthType == 1 then
      var (len, i) :- U16(i);
      Parsed(Fixed(len), i)
    else if lengthType == 2 then
      var (len, i) :- U32(i);
      Parsed(Fixed(len), i)
    else Parsed(Indeterminate, i)
  }

  /** `parser`: a new-format header, or else an old-format one */
  function ParseHeader(i: bytes): Parse<Header> {
    var (first, i) :- U8(i);
    if first < 128 then Error
    else if first >= 192 then
      var (length, i) :- ReadLength(i);
      Parsed(Header(New, first % 64, length), i)
    else
      var (length, i) :- ReadOldLength(first % 4, i);
      Parsed(Header(Old, first % 64 / 4, length), i)
  }

  predicate TagFits(v: Version, tag: byte) {
    tag < if v.Old? then 16 else 64
  }

  lemma NewLengthParses(len: nat, rest: bytes)
    requires len < 0x1_0000_0000
    ensures ReadLength(WriteLength(len) + rest) == Parsed(Fixed(len), rest)
  {
    var i := WriteLength(len) + rest;
    if len < 192 {
      assert i[1..] == rest;
    } else if len < 8384 {
      assert i[1..][1..] == rest;
    } else {
      Regroup([0xFF], Be32(len), rest);
      assert i[1..] == Be32(len) + rest;
      U32Append(len, rest);
      ModSmall(len, 0x1_0000_0000);
    }
  }

  lemma OldHeaderParses(tag: byte, len: nat, rest: bytes)
    requires tag < 16 && len < 0x1_0000_0000
    ensures ParseHeader(WriteHeader(Old, tag, len) + rest) == Parsed(Header(Old, tag, Fixed(len)), rest)
  {
    var i := WriteHeader(Old, tag, len) + rest;
    var t := if len < 256 then 0 else if len < 0x1_0000 then 1 else 2;
    OldTagRead(tag, t);
    if t == 0 {
      assert i[1..][1..] == rest;
    } else if t == 1 {
      Regroup([OldTagOctet(tag, 1)], Be16(len), rest);
      assert i[1..] == Be16(len) + rest;
      U16Append(len, rest);
      ModSmall(len, 0x1_0000);
    } else {
      Regroup([OldTagOctet(tag, 2)], Be32(len), rest);
      assert i[1..] == Be32(len) + rest;
      U32Append(len, rest);
      ModSmall(len, 0x1_0000_0000);
    }
  }

  lemma OldTagRead(tag: byte, t: nat)
    requires t < 3
    ensures var b := OldTagOctet(tag, t);
            b >= 128 && b % 4 == t && (tag < 16 ==> b < 192 && b % 64 / 4 == tag)
  {
  }

  lemma HeaderParses(v: Version, tag: byte, len: nat, rest: bytes)
    requires TagFits(v, tag) && len < 0x1_0000_0000
    ensures ParseHeader(WriteHeader(v, tag, len) + rest) == Parsed(Header(v, tag, Fixed(len)), rest)
  {
    if v.Old? {
      OldHeaderParses(tag, len, rest);
    } else {
      var first: byte := 192 + tag % 64;
      Regroup([first], WriteLength(len), rest);
      assert ([first] + (WriteLength(len) + rest))[1..] == WriteLength(len) + rest;
      NewLengthParses(len, rest);
    }
  }

  /** A written header is read back, whatever follows, exactly when the tag has room in its format (in the old
      format a larger tag runs into the format bit) and the length has room in 32 bits. */
  lemma HeaderRoundTrip(v: Version, tag: byte, len: nat)
    ensures TagFits(v, tag) && len < 0x1_0000_0000
            <==> forall rest :: ParseHeader(WriteHeader(v, tag, len) + rest)
                                == Parsed(Header(v, tag, Fixed(len)), rest)
  {
    if TagFits(v, tag) && len < 0x1_0000_0000 {
      forall rest ensures ParseHeader(WriteHeader(v, tag, len) + rest) == Parsed(Header(v, tag, Fixed(len)), rest) {
        HeaderParses(v, tag, len, rest);
      }
    } else {
      var i := WriteHeader(v, tag, len) + [];
      if ParseHeader(i).Parsed? {
        ParsedHeaderFits(i);
      }
      assert ParseHeader(i) != Parsed(Header(v, tag, Fixed(len)), []);
    }
  }

  /** No header the parser returns has a tag or a length that does not fit. */
  lemma ParsedHeaderFits(i: bytes)
    requires ParseHeader(i).Parsed?
    ensures var h := ParseHeader(i).value;
            TagFits(h.version, h.tag) && (h.length.Fixed? ==> h.length.len < 0x1_0000_0000)
            && |ParseHeader(i).rest| < |i|
  {
  }

  /** Six octets are enough for any header: more input changes nothing. */
  lemma HeaderNeedsSix(buf: bytes, more: bytes)
    requires |buf| >= 6 || more == []
    ensures ParseHeader(buf + more) == match ParseHeader(buf)
                                       case Parsed(h, rest) => Parsed(h, rest + more)
                                       case Incomplete => Incomplete
                                       case Error => Error
  {
    if more == [] {
      AppendNothing(buf);
      if ParseHeader(buf).Parsed? {
        AppendNothing(ParseHeader(buf).rest);
      }
    } else {
      var first := buf[0];
      CutFront(buf, more, 1);
      if 128 <= first < 192 {
        var i := buf[1..];
        CutFront(i, more, 1);
        CutFront(i, more, 2);
        CutFront(i, more, 4);
      } else {
        LengthNeedsFive(buf[1..], more);
      }
    }
  }

  lemma LengthNeedsFive(i: bytes, more: bytes)
    requires |i| >= 5 || more == []
    ensures ReadLength(i + more) == match ReadLength(i)
                                    case Parsed(l, rest) => Parsed(l, rest + more)
                                    case Incomplete => Incomplete
                                    case Error => Error
  {
    if more == [] {
      AppendNothing(i);
      if ReadLength(i).Parsed? {
        AppendNothing(ReadLength(i).rest);
      }
    } else {
      CutFront(i, more, 1);
      CutFront(i[1..], more, 1);
      CutFront(i[1..], more, 4);
    }
  }

  /** What a parser leaves is the end of its input. */
  lemma ReadLengthShortens(i: bytes)
    requires ReadLength(i).Parsed?
    ensures var rest := ReadLength(i).rest; |rest| < |i| && rest == i[|i| - |rest|..]
  {
  }

  lemma ParsedHeaderIsSuffix(i: bytes)
    requires ParseHeader(i).Parsed?
    ensures var rest := ParseHeader(i).rest; |rest| < |i| && rest == i[|i| - |rest|..]
  {
    if i[0] >= 192 {
      ReadLengthShortens(i[1..]);
    }
  }
}

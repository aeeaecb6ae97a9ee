/** Variable-width length field of subpackets (`packet_length` and `write_packet_length` of `src/util.rs`). */
module PacketLength {
  import opened Bytes

  function WriteLength(len: nat): bytes {
    if len < 192 then [len]
    else if len < 8384 then [(len - 192) / 256 + 192, (len - 192) % 256]
    else [0xFF] + Be32(len)
  }

  function ParseLength(i: bytes): Parse<nat> {
    var (first, i) :- U8(i);
    if first < 192 then Parsed(first, i)
    else if first < 255 then
      var (second, i) :- U8(i);
      Parsed((first - 192) as int * 256 + 192 + second as int, i)
    else
      var (len, i) :- U32(i);
      Parsed(len, i)
  }

  lemma LengthParses(len: nat, rest: bytes)
    requires len < 0x1_0000_0000
    ensures ParseLength(WriteLength(len) + rest) == Parsed(len, rest)
  {
    var i := WriteLength(len) + rest;
    if len < 192 {
      assert i[1..] == rest;
    } else if len < 8384 {
      assert i[1..][1..] == rest;
    } else {
      Regroup([0xFF], Be32(len), rest);
      assert i[1..] == Be32(len) + rest;
      U32Append(len, rest);
      ModSmall(len, 0x1_0000_0000);
    }
  }

  /** The parser reads two-octet lengths up to 16319, the writer uses them only below 8384: writing a parsed
      length back takes more octets exactly when its first octet is in between. */
  lemma RewrittenLength(i: bytes)
    requires ParseLength(i).Parsed?
    ensures var Parsed(len, rest) := ParseLength(i);
            len < 0x1_0000_0000 && |rest| < |i|
            && (|WriteLength(len)| + |rest| > |i| <==> 224 <= i[0] < 255)
  {
  }
}

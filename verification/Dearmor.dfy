/** The state machine of `Dearmor::read` (`src/armor/reader.rs`). */
module Dearmor {
  import opened Bytes
  import opened Base64
  import opened Base64Reader
  import opened Base64Decoder
  import opened ArmorFooter
  import opened ArmorText

  datatype Part = Body | Footer | Done | Temp

  datatype ReadResult = Got(octets: bytes) | Failed | Panicked

  class Dearmor {
    const typ: BlockType
    const crc: bytes -> nat
    const reader: Base64Reader
    const decoder: Base64Decoder
    var part: Part
    /** The buffer in front of the reader's stream, once the body has been read */
    var buffer: bytes
    /** What the checksum has been computed of */
    var hashed: bytes
    var checksum: Option<nat>
    /** The text that is being read, what it decodes to, the characters that do not decode, and the text from its first
        foreign octet on */
    ghost const text: bytes
    ghost const data: bytes
    ghost const tail: bytes
    ghost const foot: bytes

    ghost predicate Valid()
      reads this, decoder, reader
    {
      && decoder.inner == reader
      && (part == Body ==> InBody())
      && (part != Body ==> hashed == data)
      && (part == Footer ==> LeftAtEnd(text, tail, foot, buffer + reader.stream))
    }

    ghost predicate InBody()
      requires decoder.inner == reader
      reads this, decoder, reader
    {
      && decoder.Valid() && hashed + decoder.data == data && decoder.tail == tail
      && StopsIn(reader.stream, text) && Foreign(reader.stream) == foot
    }

    /** What is still to be delivered */
    ghost function Left(): bytes
      reads this, decoder
    {
      if part == Body then decoder.data else []
    }

    /** A footer with the header's type and, if there is one, the right checksum */
    ghost predicate Accepts(footer: (Option<nat>, BlockType)) {
      footer.1 == typ && (footer.0.Some? ==> footer.0.value == crc(data))
    }

    /** `after_header`, on any text */
    constructor (typ: BlockType, crc: bytes -> nat, text: bytes, ghost data: bytes, ghost tail: bytes)
      requires Leads(Chars(0, [], Tokens(text)), [], data, tail)
      ensures Valid() && part == Body && Left() == data && this.typ == typ && this.crc == crc
      ensures this.text == text && this.data == data && this.tail == tail && this.foot == Foreign(text)
      ensures fresh(decoder) && fresh(reader) && decoder.inner == reader
    {
      var r := new Base64Reader(text);
      var d := new Base64Decoder(r, data, tail);
      this.typ, this.crc, reader, decoder := typ, crc, r, d;
      this.text, this.data, this.tail, this.foot := text, data, tail, Foreign(text);
      part, buffer, hashed, checksum := Body, [], [], None;
      new;
      assert [] + data == data;
    }

    /** `read` into a destination of any size, on any text. What decodes comes out octet for octet; only a read that
        asks for more than is left ends the body. It meets the end `e` of the text: it panics in no case, but fails if
        the footer does not parse, and then the next read panics, or if the footer is not the right one. After a footer
        that parses, the stream stands right behind it. */
    method Read(size: nat) returns (r: ReadResult, ghost e: End)
      requires Valid() && part != Footer
      modifies this, decoder, reader
      ensures Valid() && part != Footer
      ensures old(part) == Temp ==> r == Panicked && part == Temp
      ensures old(part) == Done ==>
                r == Got([]) && part == Done && buffer + reader.stream == old(buffer + reader.stream)
      ensures old(part) == Body && size <= |old(Left())| ==>
                part == Body && r.Got? && |r.octets| == size && old(Left()) == r.octets + Left()
      ensures old(part) == Body && size > |old(Left())| ==>
                && IsEnd(text, tail, foot, e)
                && (if e.footer.None? then r == Failed && part == Temp
                    else part == Done && buffer + reader.stream == e.left + e.hidden
                         && var (sum, t) := e.footer.value;
                            r == if t == typ && (sum.None? || sum.value == crc(data)) then Got(old(Left())) else Failed)
                && (r.Got? ==> checksum == e.footer.value.0)
    {
      var into := [];
      e := End([], [], None, []);
      ghost var start, all, rest := part, Left(), buffer + reader.stream;
      while true
        invariant Valid() && |into| <= size && all == into + Left()
        invariant part == Footer ==> start == Body && |into| < size
        invariant part == Done ==> start == Done || (start == Body && |into| < size)
        invariant part == Done && start == Done ==> buffer + reader.stream == rest
        invariant part == Done && start == Body ==>
                    && IsEnd(text, tail, foot, e) && e.footer.Some? && Accepts(e.footer.value)
                    && checksum == e.footer.value.0 && buffer + reader.stream == e.left + e.hidden
        invariant (part == Temp ==> start == Temp) && (start == Done ==> part == Done) && (start == Temp ==> part == Temp)
        decreases if part == Body then 2 else if part == Footer then 1 else 0, |Left()|
      {
        match part {
          case Body =>
            var piece := BodyStep(size - |into|);
            Regroup(into, piece, Left());
            into := into + piece;
            if |into| == size {
              return Got(into), e;
            }
          case Footer =>
            var ok;
            ok, e := FooterStep();
            if !ok {
              return Failed, e;
            }
          case Done =>
            AppendNothing(into);
            return Got(into), e;
          case Temp =>
            return Panicked, e;
        }
      }
    }

    /** Reads some of the body; nothing more means that it is over. */
    method BodyStep(size: nat) returns (piece: bytes)
      requires Valid() && part == Body
      modifies this, decoder, reader
      ensures Valid() && |piece| <= size && old(Left()) == piece + Left()
      ensures part == if piece == [] && size > 0 then Footer else Body
    {
      piece := ReadBody(size);
      if piece == [] && size > 0 {
        EndBody();
      }
    }

    method FooterStep() returns (ok: bool, ghost e: End)
      requires Valid() && part == Footer
      modifies this, reader
      ensures Valid() && IsEnd(text, tail, foot, e)
      ensures if e.footer.None? then !ok && part == Temp
              else part == Done && buffer + reader.stream == e.left + e.hidden && (ok <==> Accepts(e.footer.value))
      ensures ok ==> checksum == e.footer.value.0
    {
      FillFooter();
      ok, e := ReadFooter();
    }

    method ReadBody(size: nat) returns (piece: bytes)
      requires decoder.inner == reader && InBody()
      modifies this`hashed, decoder, reader
      ensures InBody() && |piece| <= size && old(decoder.data) == piece + decoder.data
      ensures piece == [] && size > 0 ==>
                decoder.data == [] && decoder.buf + Tokens(reader.stream) == tail
                && (decoder.buf == [] ==> reader.stream == foot)
    {
      ghost var before := reader.stream;
      piece := decoder.Read(size);
      StopsTrans(reader.stream, before, text);
      Regroup(hashed, piece, decoder.data);
      hashed := hashed + piece;
    }

    /** Takes the decoder's buffer over. */
    method EndBody()
      requires Valid() && part == Body && Left() == []
      requires decoder.buf + Tokens(reader.stream) == tail && (decoder.buf == [] ==> reader.stream == foot)
      modifies this
      ensures Valid() && part == Footer
    {
      assert BodyDelivered(text, tail, foot, decoder.buf, reader.stream);
      AppendNothing(hashed);
      buffer, part := decoder.buf, Footer;
    }

    /** Fills the buffer to at least 128 octets; a read may come up short, but not empty before the end. */
    method FillFooter()
      requires Valid() && part == Footer
      modifies this, reader
      ensures Valid() && part == Footer && (|buffer| >= 128 || reader.stream == [])
    {
      var b, s := TopUp(buffer, reader.stream);
      buffer := b;
      reader.stream := s;
    }

    static method TopUp(buffer: bytes, stream: bytes) returns (b: bytes, s: bytes)
      ensures b + s == buffer + stream && (|b| >= 128 || s == [])
    {
      b, s := buffer, stream;
      while |b| < 128 && s != []
        invariant b + s == buffer + stream
        decreases |s|
      {
        var k: nat :| 1 <= k <= |s| && |b| + k <= BUF_SIZE;
        Regroup(b, s[..k], s[k..]);
        b, s := b + s[..k], s[k..];
      }
    }

    /** `read_footer`: nothing but an unusable state is left of a footer that does not parse. */
    method ReadFooter() returns (ok: bool, ghost e: End)
      requires Valid() && part == Footer && (|buffer| >= 128 || reader.stream == [])
      modifies this
      ensures Valid() && IsEnd(text, tail, foot, e)
      ensures if e.footer.None? then !ok && part == Temp
              else part == Done && buffer + reader.stream == e.left + e.hidden && (ok <==> Accepts(e.footer.value))
      ensures ok ==> checksum == e.footer.value.0
    {
      var footer, rest := TryFooter(buffer);
      e := End(buffer, reader.stream, footer, rest);
      assert IsEnd(text, tail, foot, e);
      var same := footer.Some? && footer.value.1 == typ;
      var sum := if same then footer.value.0 else checksum;
      ok := same && (sum.None? || sum.value == crc(hashed));
      buffer, part, checksum := rest, if footer.Some? then Done else Temp, sum;
    }
  }

  /** `footer_parser` on the buffer */
  method TryFooter(buffer: bytes) returns (footer: Option<(Option<nat>, BlockType)>, rest: bytes)
    ensures FooterIs(buffer, footer, rest)
  {
    var p := ParseFooter(buffer);
    if p.Parsed? {
      return Some(p.value), p.rest;
    }
    return None, buffer;
  }

  /** After reads that asked for so much together: all they asked for of a block's data, up to all there is, has been
      delivered, and the end has been reached if they asked for more. */
  ghost predicate Delivered(d: Dearmor, block: Block, asked: nat, out: bytes)
    reads d, d.decoder, d.reader
  {
    && d.Valid() && block.data == out + d.Left() && |out| == Min(asked, |block.data|)
    && d.part == (if asked <= |block.data| then Body else Done)
    && (d.part == Done ==> d.buffer + d.reader.stream == block.rest)
  }

  /** The block is what the reader reads, and its footer is right. */
  ghost predicate Reads(d: Dearmor, block: Block) {
    && block.Valid() && block.text == d.text && block.tail == d.tail && block.foot == d.foot && block.data == d.data
    && d.Accepts((block.crc, block.typ))
  }

  /** One more read */
  method ReadPiece(d: Dearmor, ghost block: Block, ghost asked: nat, out: bytes, size: nat) returns (all: bytes)
    requires Reads(d, block) && Delivered(d, block, asked, out)
    modifies d, d.decoder, d.reader
    ensures Delivered(d, block, asked + size, all)
  {
    ghost var left := d.Left();
    var r, e := d.Read(size);
    assert r.Got? && left == r.octets + d.Left();
    Regroup(out, r.octets, d.Left());
    all := out + r.octets;
  }

  lemma NothingRead(d: Dearmor, block: Block)
    requires d.Valid() && d.part == Body && d.Left() == d.data && block.data == d.data
    ensures Delivered(d, block, 0, [])
  {
    assert [] + d.Left() == d.Left();
  }

  method Behind(d: Dearmor, ghost block: Block, ghost asked: nat, out: bytes) returns (after: Option<bytes>)
    requires Delivered(d, block, asked, out)
    ensures out == block.data[..Min(asked, |block.data|)]
    ensures after == if asked > |block.data| then Some(block.rest) else None
  {
    Split(out, d.Left());
    after := if d.part == Done then Some(d.buffer + d.reader.stream) else None;
  }

  /** Reads with any sizes, also empty ones, deliver as much of a block's data as they ask for together. The block has
      been read to its end, its footer accepted and what follows it left untouched, if and only if they ask for more
      than there is. */
  method ReadInPieces(d: Dearmor, ghost block: Block, sizes: seq<nat>) returns (out: bytes, after: Option<bytes>)
    requires Reads(d, block) && Delivered(d, block, 0, [])
    modifies d, d.decoder, d.reader
    ensures out == block.data[..Min(Total(sizes), |block.data|)]
    ensures after == if Total(sizes) > |block.data| then Some(block.rest) else None
  {
    out := [];
    for k := 0 to |sizes|
      invariant Delivered(d, block, Total(sizes[..k]), out)
    {
      TotalAppend(sizes, k);
      out := ReadPiece(d, block, Total(sizes[..k]), out, sizes[k]);
    }
    assert sizes[..|sizes|] == sizes;
    after := Behind(d, block, Total(sizes), out);
  }

  /** Written armor, with or without a checksum and followed by anything, delivers its data. */
  method WriteAndRead(data: bytes, pieces: seq<bytes>, typ: BlockType, crc: bytes -> nat, includeChecksum: bool,
                      rest: bytes, sizes: seq<nat>)
    returns (out: bytes, after: Option<bytes>)
    requires Concat(pieces) == Encode(data) && crc(data) < 0x100_0000
    ensures out == data[..Min(Total(sizes), |data|)]
    ensures after == if Total(sizes) > |data| then Some(rest) else None
  {
    var text := WriteArmor(data, pieces, typ, crc, includeChecksum);
    ghost var sum := if includeChecksum then Some(crc(data)) else None;
    ghost var armor := Written(data, sum, typ, rest);
    WrittenIsValid(data, sum, typ, rest);
    FollowedBy(armor);
    ArmorIsBlock(armor);
    ghost var block := BlockOf(armor);
    var d := new Dearmor(typ, crc, text + rest, block.data, block.tail);
    NothingRead(d, block);
    out, after := ReadInPieces(d, block, sizes);
  }

  lemma FollowedBy(a: Armor)
    ensures a.(rest := []).Bytes() + a.rest == a.Bytes()
  {
    var f := FooterText(a.typ, a.ending);
    AppendNothing(f);
    Regroup(a.body, ChecksumText(a.crc) + (a.nl + f), a.rest);
    Regroup(ChecksumText(a.crc), a.nl + f, a.rest);
    Regroup(a.nl, f, a.rest);
  }

  /** Every text decodes to something, so that a reader can be made for it. */
  lemma EveryTextDecodes(text: bytes)
    ensures var c := Chars(0, [], Tokens(text)); Leads(c, [], c.Decoded(), c.Undecoded())
  {
    var c := Chars(0, [], Tokens(text));
    assert [] + c.Decoded() == c.Decoded();
    LeadsTo(c, [], c.Decoded(), c.Undecoded());
  }
}

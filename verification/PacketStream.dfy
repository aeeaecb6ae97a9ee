/** Whole runs of the packet parser: what it visits, what it yields, and when it stops. */
module PacketStream {
  import opened Bytes
  import opened PacketLength
  import opened SignatureTypes
  import opened PacketHeader
  import opened PacketParser

  /** Everything the parser returns until it is finished (or panics) */
  function Run<P>(bp: BodyParser<P>, i: bytes): seq<Item<P>>
    decreases |i|
  {
    var s := Next(bp, i, false);
    if s.item.Finished? then []
    else if s.done || s.item.Panicked? then [s.item]
    else [s.item] + Run(bp, s.rest)
  }

  /** The parser yields at most one item per octet of input. */
  lemma {:induction false} AtMostOneItemPerOctet<P>(bp: BodyParser<P>, i: bytes)
    ensures |Run(bp, i)| <= |i|
    decreases |i|
  {
    var s := Next(bp, i, false);
    if !s.done {
      AtMostOneItemPerOctet(bp, s.rest);
    }
  }

  lemma Append<T>(a: seq<T>, x: T, b: seq<T>)
    ensures a + [x] + b == a + ([x] + b)
  {
  }

  /** Driving the parser to its end returns the items of `Run`, whatever its buffer shows; unless it panics, it is
      then finished for good. */
  method Drain<P>(parser: PacketParser<P>) returns (items: seq<Item<P>>)
    requires !parser.done
    modifies parser
    ensures items == Run(parser.bp, old(parser.stream))
    ensures items == [] || !items[|items| - 1].Panicked? ==> parser.done
  {
    items := [];
    while true
      invariant !parser.done && items + Run(parser.bp, parser.stream) == Run(parser.bp, old(parser.stream))
      decreases |parser.stream|
    {
      ghost var before := parser.stream;
      var item := parser.NextItem();
      if item.Finished? {
        assert items + [] == items;
        return;
      }
      if !item.Panicked? && !parser.done {
        Append(items, item, Run(parser.bp, parser.stream));
      }
      items := items + [item];
      if item.Panicked? {
        return;
      }
      if parser.done {
        assert Next(parser.bp, parser.stream, true).item.Finished?;
        return;
      }
    }
  }

  // ---- Streams of packets that are not partial

  datatype Frame = Frame(header: Header, body: bytes)

  /** The packets of a stream as the encoded lengths fix them, without looking into any body; `None` when the
      stream is truncated, malformed or has a partial packet. */
  function Frames(i: bytes): Option<seq<Frame>>
    decreases |i|
  {
    if i == [] then Some([]) else
      match ParseHeader(i)
      case Parsed(h, after) => (
        ParsedHeaderFits(i);
        if h.length.Partial? then None else
          var (body, rest) :- ReadBody(h, after);
          var others :- Frames(rest);
          Some([Frame(h, body)] + others))
      case _ => None
  }

  function FrameItem<P>(bp: BodyParser<P>, f: Frame): Item<P> {
    var r := bp(f.header.version, f.header.tag, f.body);
    if f.header.length.Indeterminate? then Ending(r) else Skipping(r)
  }

  function FrameItems<P>(bp: BodyParser<P>, fs: seq<Frame>): (r: seq<Item<P>>)
    ensures |r| == |fs|
  {
    if fs == [] then [] else [FrameItem(bp, fs[0])] + FrameItems(bp, fs[1..])
  }

  /** Over any complete stream the parser visits exactly the packets fixed by the encoded lengths, one item each,
      even when bodies fail to parse. */
  lemma {:induction false} CompleteStream<P>(bp: BodyParser<P>, i: bytes)
    requires Frames(i).Some?
    ensures Run(bp, i) == FrameItems(bp, Frames(i).value)
    decreases |i|
  {
    if i != [] {
      var h, after := ParseHeader(i).value, ParseHeader(i).rest;
      ParsedHeaderFits(i);
      var (body, rest) := ReadBody(h, after).value;
      var fs := Frames(i).value;
      assert fs[0] == Frame(h, body) && fs[1..] == Frames(rest).value;
      CompleteStream(bp, rest);
      if h.length.Indeterminate? {
        assert rest == [] && Run(bp, rest) == [];
      }
    }
  }

  /** `write_packet` */
  datatype Record = Record(version: Version, tag: byte, body: bytes)

  predicate Writable(r: Record) {
    TagFits(r.version, r.tag) && |r.body| < 0x1_0000_0000
  }

  function Print(rs: seq<Record>): bytes {
    if rs == [] then [] else
      var r := rs[0];
      WriteHeader(r.version, r.tag, |r.body|) + (r.body + Print(rs[1..]))
  }

  function Printed(rs: seq<Record>): seq<Frame> {
    if rs == [] then [] else
      var r := rs[0];
      [Frame(Header(r.version, r.tag, Fixed(|r.body|)), r.body)] + Printed(rs[1..])
  }

  /** A printed packet sequence comes back in order: the same formats, tags and bodies. */
  lemma {:induction false} PrintedStream(rs: seq<Record>)
    requires forall k :: 0 <= k < |rs| ==> Writable(rs[k])
    ensures Frames(Print(rs)) == Some(Printed(rs))
  {
    if rs != [] {
      var r := rs[0];
      var others := Print(rs[1..]);
      HeaderParses(r.version, r.tag, |r.body|, r.body + others);
      Split(r.body, others);
      PrintedStream(rs[1..]);
    }
  }

  /** A printed packet is yielded as its body parser says, and the parser goes on behind it. */
  lemma PrintedStep<P>(bp: BodyParser<P>, r: Record, rest: bytes)
    requires Writable(r)
    ensures Next(bp, WriteHeader(r.version, r.tag, |r.body|) + (r.body + rest), false)
            == Step(Skipping(bp(r.version, r.tag, r.body)), rest, false)
  {
    HeaderParses(r.version, r.tag, |r.body|, r.body + rest);
    Split(r.body, rest);
  }

  // ---- Partial bodies

  /** A partial chunk: its length is two to the power in its length octet. */
  datatype Chunk = Chunk(power: nat, data: bytes)

  predicate Legal(c: Chunk) { c.power <= 30 && |c.data| == Pow2(c.power) }

  /** The body cut into chunks, with a last part of fixed length */
  function Whole(chunks: seq<Chunk>, last: bytes): bytes {
    if chunks == [] then last else chunks[0].data + Whole(chunks[1..], last)
  }

  /** Octets that the parser reads as a fixed length, whatever follows: the shortest ones or longer ones */
  ghost predicate EncodesLength(octets: bytes, n: nat) {
    forall x :: ReadLength(octets + x) == Parsed(Fixed(n), x)
  }

  /** There are three ways to encode a length, each for the lengths that have room in it. */
  lemma LengthEncodings(n: nat)
    ensures n < 192 ==> EncodesLength([n], n)
    ensures 192 <= n < 8384 ==> EncodesLength([(n - 192) / 256 + 192, (n - 192) % 256], n)
    ensures n < 0x1_0000_0000 ==> EncodesLength([0xFF] + Be32(n), n) && EncodesLength(WriteLength(n), n)
  {
    if n < 0x1_0000_0000 {
      forall x ensures ReadLength([0xFF] + Be32(n) + x) == Parsed(Fixed(n), x) {
        FiveOctetLength(n, x);
      }
      forall x ensures ReadLength(WriteLength(n) + x) == Parsed(Fixed(n), x) {
        NewLengthParses(n, x);
      }
    }
  }

  lemma FiveOctetLength(n: nat, x: bytes)
    requires n < 0x1_0000_0000
    ensures ReadLength([0xFF] + Be32(n) + x) == Parsed(Fixed(n), x)
  {
    Regroup([0xFF], Be32(n), x);
    assert ([0xFF] + (Be32(n) + x))[1..] == Be32(n) + x;
    U32Append(n, x);
    ModSmall(n, 0x1_0000_0000);
  }

  /** The chunks with their lengths, the last one's length in the given octets, followed by the rest of the stream */
  function ChunkBytes(chunks: seq<Chunk>, length: bytes, last: bytes, rest: bytes): bytes
    requires forall k :: 0 <= k < |chunks| ==> Legal(chunks[k])
  {
    if chunks == [] then length + (last + rest)
    else PartialBytes(chunks[0], ChunkBytes(chunks[1..], length, last, rest))
  }

  function PartialBytes(c: Chunk, more: bytes): bytes
    requires Legal(c)
  {
    [224 + c.power] + (c.data + more)
  }

  lemma PartialLengthParses(c: Chunk, more: bytes)
    requires Legal(c)
    ensures ReadLength(PartialBytes(c, more)) == Parsed(Partial(|c.data|), c.data + more)
  {
    assert PartialBytes(c, more)[1..] == c.data + more;
  }

  lemma PartialChunkRead(acc: bytes, c: Chunk, more: bytes)
    requires Legal(c)
    ensures ReadChunks(acc, PartialBytes(c, more)) == ReadChunks(acc + c.data, more)
  {
    PartialLengthParses(c, more);
    Split(c.data, more);
  }

  lemma LastChunkRead(acc: bytes, length: bytes, last: bytes, rest: bytes)
    requires EncodesLength(length, |last|)
    ensures ReadChunks(acc, length + (last + rest)) == Some((acc + last, rest))
  {
    Split(last, rest);
  }

  lemma {:induction false} ChunksRead(acc: bytes, chunks: seq<Chunk>, length: bytes, last: bytes, rest: bytes)
    requires (forall k :: 0 <= k < |chunks| ==> Legal(chunks[k])) && EncodesLength(length, |last|)
    ensures ReadChunks(acc, ChunkBytes(chunks, length, last, rest)) == Some((acc + Whole(chunks, last), rest))
    decreases |chunks|
  {
    if chunks == [] {
      LastChunkRead(acc, length, last, rest);
    } else {
      PartialChunkRead(acc, chunks[0], ChunkBytes(chunks[1..], length, last, rest));
      ChunksRead(acc + chunks[0].data, chunks[1..], length, last, rest);
      Regroup(acc, chunks[0].data, Whole(chunks[1..], last));
    }
  }

  lemma {:induction false} AtLeast512(power: nat)
    requires power >= 9
    ensures Pow2(power) >= 512
  {
    if power > 9 {
      AtLeast512(power - 1);
    } else {
      assert Pow2(3) == 8;
      assert Pow2(6) == 64;
    }
  }

  lemma PartialHeaderParses(tag: byte, c: Chunk, more: bytes)
    requires tag < 64 && Legal(c)
    ensures ParseHeader([192 + tag] + PartialBytes(c, more))
            == Parsed(Header(New, tag, Partial(|c.data|)), c.data + more)
  {
    assert ([192 + tag] + PartialBytes(c, more))[1..] == PartialBytes(c, more);
    PartialLengthParses(c, more);
  }

  lemma FixedStep<P>(bp: BodyParser<P>, tag: byte, length: bytes, body: bytes, rest: bytes)
    requires tag < 64 && EncodesLength(length, |body|)
    ensures Next(bp, [192 + tag] + (length + (body + rest)), false) == Step(Skipping(bp(New, tag, body)), rest, false)
  {
    var i := [192 + tag] + (length + (body + rest));
    assert i[1..] == length + (body + rest);
    assert ParseHeader(i) == Parsed(Header(New, tag, Fixed(|body|)), body + rest);
    Split(body, rest);
  }

  lemma PartialNext<P>(bp: BodyParser<P>, i: bytes, h: Header, after: bytes, body: bytes, rest: bytes)
    requires ParseHeader(i) == Parsed(h, after) && h.length.Partial? && ReadBody(h, after) == Some((body, rest))
    ensures var r := bp(h.version, h.tag, body);
            Next(bp, i, false) == Step(Skipping(r), rest, r.BodyInvalid?)
  {
  }

  lemma PartialBodyRead(tag: byte, c: Chunk, more: bytes)
    requires tag in {8, 9, 11, 18} && Legal(c) && c.power >= 9
    ensures ReadBody(Header(New, tag, Partial(|c.data|)), c.data + more) == ReadChunks(c.data, more)
  {
    AtLeast512(c.power);
    Split(c.data, more);
  }

  /** A data packet sent in partial chunks, the first of at least 512 octets, is the same item and is followed by
      the same header as the packet sent in one piece, however the lengths are encoded. Only what happens after an
      invalid body differs: the parser goes on after a fixed length and stops after a partial one. */
  lemma PartialEqualsFixed<P>(bp: BodyParser<P>, tag: byte, chunks: seq<Chunk>, lastLength: bytes, last: bytes,
                              wholeLength: bytes, rest: bytes)
    requires tag in {8, 9, 11, 18} && EncodesLength(lastLength, |last|)
    requires EncodesLength(wholeLength, |Whole(chunks, last)|)
    requires chunks != [] && chunks[0].power >= 9 && forall k :: 0 <= k < |chunks| ==> Legal(chunks[k])
    ensures var body := Whole(chunks, last);
            var whole := Next(bp, [192 + tag] + (wholeLength + (body + rest)), false);
            var parts := Next(bp, [192 + tag] + ChunkBytes(chunks, lastLength, last, rest), false);
            && parts.item == whole.item == Skipping(bp(New, tag, body))
            && parts.rest == whole.rest == rest
            && !whole.done && parts.done == bp(New, tag, body).BodyInvalid?
  {
    var body := Whole(chunks, last);
    FixedStep(bp, tag, wholeLength, body, rest);
    var c, more := chunks[0], ChunkBytes(chunks[1..], lastLength, last, rest);
    PartialHeaderParses(tag, c, more);
    PartialBodyRead(tag, c, more);
    ChunksRead(c.data, chunks[1..], lastLength, last, rest);
    PartialNext(bp, [192 + tag] + PartialBytes(c, more), Header(New, tag, Partial(|c.data|)), c.data + more, body, rest);
  }

  lemma {:induction false} Below512(power: nat)
    requires power < 9
    ensures Pow2(power) < 512
    decreases 9 - power
  {
    if power < 8 {
      Below512(power + 1);
    } else {
      assert Pow2(4) == 16 && Pow2(8) == 16 * Pow2(4);
    }
  }

  /** A body in parts is read if and only if the packet is compressed, encrypted, literal or integrity protected data and
      the first part has at least 512 octets; everything else ends the stream, whatever the parts and whatever follows. */
  lemma PartialBodies<P>(bp: BodyParser<P>, tag: byte, chunks: seq<Chunk>, length: bytes, last: bytes, rest: bytes)
    requires tag < 64 && EncodesLength(length, |last|)
    requires chunks != [] && forall k :: 0 <= k < |chunks| ==> Legal(chunks[k])
    ensures var r := bp(New, tag, Whole(chunks, last));
            Next(bp, [192 + tag] + ChunkBytes(chunks, length, last, rest), false)
            == if tag in {8, 9, 11, 18} && chunks[0].power >= 9 then Step(Skipping(r), rest, r.BodyInvalid?)
               else Step(Failed(false), [], true)
  {
    var c, more := chunks[0], ChunkBytes(chunks[1..], length, last, rest);
    var i, h := [192 + tag] + PartialBytes(c, more), Header(New, tag, Partial(|c.data|));
    PartialHeaderParses(tag, c, more);
    if tag in {8, 9, 11, 18} && c.power >= 9 {
      PartialBodyRead(tag, c, more);
      ChunksRead(c.data, chunks[1..], length, last, rest);
      PartialNext(bp, i, h, c.data + more, Whole(chunks, last), rest);
    } else if c.power < 9 {
      Below512(c.power);
    }
  }

  // ---- Bodies that end too early, and bodies without a length

  /** A packet of which less is there than its length says panics up to 1024 octets and ends the stream beyond. */
  lemma TruncatedStep<P>(bp: BodyParser<P>, tag: byte, length: bytes, n: nat, body: bytes)
    requires tag < 64 && EncodesLength(length, n) && |body| < n
    ensures Next(bp, [192 + tag] + (length + body), false)
         == if n <= 1024 then Step(Panicked, body, false) else Step(Failed(false), [], true)
  {
    var i := [192 + tag] + (length + body);
    assert i[1..] == length + body;
    assert ParseHeader(i) == Parsed(Header(New, tag, Fixed(n)), body);
  }

  /** What is yielded for a body that is there as a whole: the packet, or what its parser says of it. */
  lemma WholeStep<P>(bp: BodyParser<P>, tag: byte, length: bytes, body: bytes, rest: bytes)
    requires tag < 64 && EncodesLength(length, |body|)
    ensures var s := Next(bp, [192 + tag] + (length + (body + rest)), false);
            && s.rest == rest && !s.done
            && match bp(New, tag, body)
               case BodyOk(p) => s.item == Yielded(p)
               case BodyIncomplete => s.item == PacketIncomplete
               case BodyInvalid(ignorable) => s.item == Failed(ignorable)
  {
    FixedStep(bp, tag, length, body, rest);
  }

  /** A body without a length is all that is left, below 2^30 octets; if it is not parsed, the stream ends, and an
      incomplete one is an error. */
  lemma IndeterminateStep<P>(bp: BodyParser<P>, tag: byte, body: bytes)
    requires tag < 16
    ensures var s := Next(bp, [131 + 4 * tag] + body, false);
            && s.rest == []
            && if |body| >= 0x4000_0000 then s.item == Failed(false) && s.done
               else match bp(Old, tag, body)
                 case BodyOk(p) => s.item == Yielded(p) && !s.done
                 case BodyIncomplete => s.item == Failed(false) && s.done
                 case BodyInvalid(ignorable) => s.item == Failed(ignorable) && s.done
  {
    var i := [131 + 4 * tag] + body;
    assert i[1..] == body;
    assert ParseHeader(i) == Parsed(Header(Old, tag, Indeterminate), body);
  }

  /** Octets below 128 start no packet: the stream ends with an error. */
  lemma NoPacket<P>(bp: BodyParser<P>, i: bytes)
    requires i != [] && i[0] < 128
    ensures Next(bp, i, false).item == Failed(false) && Next(bp, i, false).done
  {
  }
}

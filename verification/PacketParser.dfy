/** The streaming packet parser (`src/packet/many.rs`, `write_packet` of `src/packet/packet_sum.rs`).

    The body parsers are one parameter `bp`. The buffered reader is the octets not yet consumed; `fill_buf` shows
    some prefix of them, at least 1024 octets or all that is left. */
module PacketParser {
  import opened Bytes
  import opened SignatureTypes
  import opened PacketHeader

  /** What `body_parser` returns; an invalid body may be one that callers ignore (an unsupported version, say). */
  datatype BodyResult<P> = BodyOk(packet: P) | BodyIncomplete | BodyInvalid(ignorable: bool)
  type BodyParser<!P> = (Version, byte, bytes) -> BodyResult<P>

  /** What `next` returns; `Panicked` is the slice `body[..len]` out of range. */
  datatype Item<P> = Finished | Yielded(packet: P) | PacketIncomplete | Failed(ignorable: bool) | Panicked

  datatype Step<P> = Step(item: Item<P>, rest: bytes, done: bool)

  const MIN_BUFFERED: nat := 1024
  const MAX_CAPACITY: nat := 1024 * 1024 * 1024

  predicate DataTag(tag: byte) { tag == 11 || tag == 8 || tag == 9 || tag == 18 }

  function Skipping<P>(r: BodyResult<P>): Item<P> {
    match r
    case BodyOk(p) => Yielded(p)
    case BodyIncomplete => PacketIncomplete
    case BodyInvalid(ignorable) => Failed(ignorable)
  }

  /** A body of indeterminate length: an incomplete one is an error like any other. */
  function Ending<P>(r: BodyResult<P>): Item<P> {
    if r.BodyIncomplete? then Failed(false) else Skipping(r)
  }

  /** The chunks after the first partial one: any number of partial chunks, then one of fixed length. */
  function ReadChunks(body: bytes, i: bytes): (r: Option<(bytes, bytes)>)
    ensures r.Some? ==> |r.value.1| < |i|
    decreases |i|
  {
    match ReadLength(i)
    case Parsed(Partial(n), i) => if |i| < n then None else ReadChunks(body + i[..n], i[n..])
    case Parsed(Fixed(n), i) => if |i| < n then None else Some((body + i[..n], i[n..]))
    case _ => None
  }

  /** The body of a packet after its header, and what follows it; `None` when the stream ends too early or the
      chunking is illegal. */
  function ReadBody(h: Header, i: bytes): (r: Option<(bytes, bytes)>)
    ensures r.Some? ==> |r.value.1| <= |i|
  {
    match h.length
    case Fixed(n) => if |i| < n then None else Some((i[..n], i[n..]))
    case Indeterminate => if |i| >= MAX_CAPACITY then None else Some((i, []))
    case Partial(n) =>
      if !DataTag(h.tag) || n < 512 || |i| < n then None else ReadChunks(i[..n], i[n..])
  }

  /** What `next` does after a header. The three length kinds treat a body that fails to parse differently:
      a fixed length only skips it, an indeterminate one ends the stream, and partial ones end it unless the body
      was incomplete. Once `done` is set, what is left of the stream no longer matters. */
  function AfterHeader<P>(bp: BodyParser<P>, h: Header, i: bytes): Step<P> {
    match ReadBody(h, i)
    case None =>
      if h.length.Fixed? && h.length.len <= MIN_BUFFERED then Step(Panicked, i, false) else Step(Failed(false), [], true)
    case Some((body, rest)) =>
      var r := bp(h.version, h.tag, body);
      match h.length
      case Fixed(_) => Step(Skipping(r), rest, false)
      case Indeterminate => Step(Ending(r), rest, !r.BodyOk?)
      case Partial(_) => Step(Skipping(r), rest, r.BodyInvalid?)
  }

  /** `next` */
  function Next<P>(bp: BodyParser<P>, i: bytes, done: bool): (s: Step<P>)
    ensures s.item.Finished? ==> s.done
    ensures !s.done ==> |s.rest| < |i|
  {
    if done || i == [] then Step(Finished, i, true) else
      match ParseHeader(i)
      case Incomplete => Step(PacketIncomplete, i, true)
      case Error => Step(Failed(false), i, true)
      case Parsed(h, after) =>
        ParsedHeaderFits(i);
        AfterHeader(bp, h, after)
  }

  /** Consuming what was parsed of the buffer leaves what was not parsed and what was not shown. */
  lemma SuffixLeft(buf: bytes, rest: bytes, more: bytes)
    requires |rest| <= |buf| && rest == buf[|buf| - |rest|..]
    ensures (buf + more)[|buf| - |rest|..] == rest + more
  {
  }

  class PacketParser<!P> {
    const bp: BodyParser<P>
    var stream: bytes
    var done: bool

    constructor (stream: bytes, bp: BodyParser<P>)
      ensures this.stream == stream && !done && this.bp == bp
    {
      this.stream, this.done, this.bp := stream, false, bp;
    }

    method FillBuf() returns (buf: bytes)
      ensures buf <= stream && (|buf| >= MIN_BUFFERED || buf == stream)
    {
      var k: nat :| k <= |stream| && (k >= MIN_BUFFERED || k == |stream|);
      buf := stream[..k];
    }

    method Consume(n: nat)
      requires n <= |stream|
      modifies `stream
      ensures stream == old(stream)[n..]
    {
      stream := stream[n..];
    }

    /** `read_exact`, with or without `read_fixed` appending to what is already there */
    method ReadExact(n: nat) returns (r: Option<bytes>)
      modifies `stream
      ensures r.Some? <==> n <= old(|stream|)
      ensures r.Some? ==> r.value == old(stream)[..n] && stream == old(stream)[n..]
    {
      if n <= |stream| {
        r := Some(stream[..n]);
        stream := stream[n..];
      } else {
        stream := [];
        r := None;
      }
    }

    /** The bounded `read_to_end` for a packet of indeterminate length, in reads of up to 1024 octets */
    method ReadToEnd() returns (r: Option<bytes>)
      modifies `stream
      ensures r.Some? <==> old(|stream|) < MAX_CAPACITY
      ensures r.Some? ==> r.value == old(stream) && stream == []
    {
      var body: bytes := [];
      while stream != []
        invariant body + stream == old(stream) && |body| < MAX_CAPACITY
        decreases |stream|
      {
        var k: nat :| 1 <= k <= |stream| && k <= 1024;
        body := body + stream[..k];
        stream := stream[k..];
        if |body| >= MAX_CAPACITY {
          return None;
        }
      }
      r := Some(body);
    }

    /** `read_packet_len` on the buffer, which decides it */
    method TakeLength() returns (r: Option<Length>)
      modifies `stream
      ensures r.Some? <==> ReadLength(old(stream)).Parsed?
      ensures r.Some? ==> ReadLength(old(stream)) == Parsed(r.value, stream)
    {
      var buf := FillBuf();
      ghost var more := stream[|buf|..];
      assert buf + more == stream;
      LengthNeedsFive(buf, more);
      match ReadLength(buf)
      case Parsed(length, rest) =>
        ReadLengthShortens(buf);
        SuffixLeft(buf, rest, more);
        Consume(|buf| - |rest|);
        return Some(length);
      case _ =>
        return None;
    }

    /** The loop over the chunks of a partial packet */
    method Chunks(first: bytes) returns (r: Option<bytes>)
      modifies `stream
      ensures r.Some? <==> ReadChunks(first, old(stream)).Some?
      ensures r.Some? ==> ReadChunks(first, old(stream)).value == (r.value, stream)
    {
      var body := first;
      while true
        invariant ReadChunks(body, stream) == ReadChunks(first, old(stream))
        decreases |stream|
      {
        ghost var before := stream;
        var length := TakeLength();
        if length.None? || length.value.Indeterminate? {
          return None;
        }
        ReadLengthShortens(before);
        var chunk := ReadExact(length.value.len);
        if chunk.None? {
          return None;
        }
        body := body + chunk.value;
        if length.value.Fixed? {
          return Some(body);
        }
      }
    }

    /** A body of fixed length: up to 1024 octets it is taken from the buffer, above that it is read exactly. */
    method FixedBody(n: nat) returns (r: Option<bytes>)
      modifies `stream
      ensures r.Some? <==> n <= old(|stream|)
      ensures r.Some? ==> r.value == old(stream)[..n] && stream == old(stream)[n..]
      ensures r.None? && n <= MIN_BUFFERED ==> stream == old(stream)
    {
      if n <= MIN_BUFFERED {
        var buf := FillBuf();
        if |buf| < n {
          return None;
        }
        r := Some(buf[..n]);
        Consume(n);
      } else {
        r := ReadExact(n);
      }
    }

    /** `next`, with whatever the buffered reader happens to show */
    method NextItem() returns (item: Item<P>)
      modifies `stream, `done
      ensures item == Next(bp, old(stream), old(done)).item
      ensures done == Next(bp, old(stream), old(done)).done
      ensures !done ==> stream == Next(bp, old(stream), old(done)).rest
    {
      if done {
        return Finished;
      }
      var buf := FillBuf();
      if buf == [] {
        done := true;
        return Finished;
      }
      ghost var more := stream[|buf|..];
      assert buf + more == stream;
      HeaderNeedsSix(buf, more);
      match ParseHeader(buf)
      case Incomplete =>
        done := true;
        return PacketIncomplete;
      case Error =>
        done := true;
        return Failed(false);
      case Parsed(h, rest) =>
        ParsedHeaderIsSuffix(buf);
        SuffixLeft(buf, rest, more);
        Consume(|buf| - |rest|);
        item := Body(h);
    }

    method Body(h: Header) returns (item: Item<P>)
      requires !done
      modifies `stream, `done
      ensures item == AfterHeader(bp, h, old(stream)).item
      ensures done == AfterHeader(bp, h, old(stream)).done
      ensures !done ==> stream == AfterHeader(bp, h, old(stream)).rest
    {
      var body: Option<bytes>;
      match h.length {
        case Fixed(n) =>
          body := FixedBody(n);
          if body.None? && n <= MIN_BUFFERED {
            return Panicked;
          }
        case Indeterminate =>
          body := ReadToEnd();
        case Partial(n) =>
          if !DataTag(h.tag) || n < 512 {
            done := true;
            return Failed(false);
          }
          body := ReadExact(n);
          if body.Some? {
            body := Chunks(body.value);
          }
      }
      if body.None? {
        done := true;
        return Failed(false);
      }
      var r := bp(h.version, h.tag, body.value);
      if h.length.Indeterminate? {
        done := !r.BodyOk?;
        return Ending(r);
      }
      done := h.length.Partial? && r.BodyInvalid?;
      item := Skipping(r);
    }
  }
}

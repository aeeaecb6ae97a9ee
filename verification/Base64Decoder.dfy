/** Decoding base64 characters as they are read (`src/base64_decoder.rs`). */
module Base64Decoder {
  import opened Bytes
  import opened Base64
  import opened Base64Reader

  const BUF_SIZE: nat := 1024

  /** The buffer's characters, their offset in it, and the characters still to be read */
  datatype Chars = Chars(start: nat, buf: bytes, more: bytes) {

    /** The offset is a whole number of groups, and so is what is buffered while there is more to read. */
    ghost predicate Valid() {
      && start % 4 == 0 && start + |buf| <= BUF_SIZE && (buf == [] ==> start == 0)
      && (more != [] ==> |buf| % 4 == 0)
    }

    function All(): bytes { buf + more }

    /** Less than a group is topped up as far as there is room and there are characters. */
    function Fill(): Chars {
      if |buf| >= 4 || more == [] then this else Chars(start, buf + more[..Room()], more[Room()..])
    }

    /** What is read into the rest of the buffer */
    function Room(): (k: nat)
      ensures k <= |more|
    {
      if start + |buf| < BUF_SIZE then Min(BUF_SIZE - start - |buf|, |more|) else 0
    }

    /** What `try_decode_engine_slice` finds in the buffer */
    function Found(): (r: (nat, bytes))
      ensures r.0 <= |buf| && r.0 % 4 == 0
    {
      LongestDecodable(buf, Groups(|buf|))
    }

    function Consume(n: nat): Chars
      requires n <= |buf|
    {
      Chars(if n == |buf| then 0 else start + n, buf[n..], more)
    }

    /** Everything that will be decoded, round after round, until nothing in the buffer decodes */
    function Decoded(): bytes
      decreases |All()|
    {
      var c := Fill();
      FillKeepsAll(this);
      var (n, out) := c.Found();
      if n == 0 then [] else out + c.Consume(n).Decoded()
    }

    /** The characters that are then left */
    function Undecoded(): bytes
      decreases |All()|
    {
      var c := Fill();
      FillKeepsAll(this);
      var n := c.Found().0;
      if n == 0 then c.All() else c.Consume(n).Undecoded()
    }
  }

  lemma FillKeepsAll(c: Chars)
    ensures c.Fill().All() == c.All()
  {
  }

  lemma FillValid(c: Chars)
    requires c.Valid()
    ensures c.Fill().Valid() && (c.Fill().more == [] || |c.Fill().buf| >= 4)
  {
  }

  lemma ConsumeValid(c: Chars, n: nat)
    requires c.Valid() && n <= |c.buf| && n % 4 == 0
    ensures c.Consume(n).Valid()
  {
  }

  lemma FillTwice(c: Chars)
    requires c.Valid()
    ensures c.Fill().Fill() == c.Fill()
  {
    FillValid(c);
  }

  // ---- Properties of one round

  lemma DecodeShape(s: bytes)
    requires Decode(s).Some?
    ensures |Decode(s).value| <= |s| / 4 * 3 && (s != [] ==> Decode(s).value != [])
  {
    if |s| > 4 {
      DecodeShape(s[4..]);
    }
  }

  /** Something is decoded whenever characters are consumed, and it fits three octets for each group. */
  lemma FoundShape(c: Chars)
    ensures var (n, out) := c.Found(); |out| <= |c.buf| / 4 * 3 && (n == 0 <==> out == [])
  {
    var (n, out) := c.Found();
    DecodeShape(c.buf[..n]);
  }

  // ---- Encoded data

  /** The characters `chars` encode `data`, up to a `tail` that no decoder accepts. */
  ghost predicate Encodes(chars: bytes, data: bytes, tail: bytes) {
    (tail != [] ==> tail[0] == PAD) && chars == Encode(data) + tail
  }

  lemma SameInLonger(b: bytes, s: bytes, n: nat)
    requires n % 4 == 0 && n <= |b| && b <= s
    ensures LongestDecodable(b, n) == LongestDecodable(s, n)
  {
    var f, h := Prefixes(b), Prefixes(s);
    forall j | 0 <= j <= n / 4 ensures f(4 * j) == h(4 * j) {
      assert b[..4 * j] == s[..4 * j];
    }
    SameLongest(f, h, n / 4);
  }

  lemma {:induction false} SameLongest(f: nat -> Option<bytes>, h: nat -> Option<bytes>, g: nat)
    requires f(0) == h(0) == Some([]) && forall j :: 0 <= j <= g ==> f(4 * j) == h(4 * j)
    ensures Longest(f, g) == Longest(h, g)
  {
    if g > 0 {
      SameLongest(f, h, g - 1);
    }
  }

  /** Decoding whole groups of encoded data delivers data, and some of it unless there is none. */
  lemma Decodable(chars: bytes, data: bytes, tail: bytes, n: nat)
    requires n % 4 == 0 && n <= |chars| && Encodes(chars, data, tail)
    ensures var r := LongestDecodable(chars, n);
            r.1 <= data && Encodes(chars[r.0..], data[|r.1|..], tail)
            && (n >= 4 && data != [] ==> r.0 > 0) && (data == [] ==> r.0 == 0)
  {
    var m := Min(n, |Encode(data)|);
    DecodableIsData(data, tail, n);
    CutFront(Encode(data), tail, m);
  }

  lemma FoundIsData(c: Chars, data: bytes, tail: bytes)
    requires Encodes(c.All(), data, tail) && (c.more == [] || |c.buf| >= 4)
    ensures var (n, out) := c.Found();
            out <= data && Encodes(c.Consume(n).All(), data[|out|..], tail) && (n == 0 <==> data == [])
  {
    var k := Groups(|c.buf|);
    SameInLonger(c.buf, c.All(), k);
    Decodable(c.All(), data, tail, k);
    CutFront(c.buf, c.more, c.Found().0);
    if |c.All()| < 4 {
      NoData(c.All(), data, tail);
    }
  }

  lemma NoData(chars: bytes, data: bytes, tail: bytes)
    requires Encodes(chars, data, tail) && |chars| < 4
    ensures data == []
  {
  }

  /** Whatever the decoder has buffered, from encoded data it decodes exactly the data and leaves what follows. */
  lemma DecodesTheData(c: Chars, data: bytes, tail: bytes)
    requires c.Valid() && Encodes(c.All(), data, tail)
    ensures c.Decoded() == data && c.Undecoded() == tail
    decreases |c.All()|
  {
    var f := c.Fill();
    FillKeepsAll(c);
    FillValid(c);
    FillTwice(c);
    SameAfterFill(c);
    FoundIsData(f, data, tail);
    OneRound(f);
    var (n, out) := f.Found();
    if n > 0 {
      ConsumeValid(f, n);
      DecodesTheData(f.Consume(n), data[|out|..], tail);
      assert out + data[|out|..] == data;
    } else {
      NothingLeft(f.All(), tail);
    }
  }

  lemma SameAfterFill(c: Chars)
    requires c.Valid() && c.Fill().Fill() == c.Fill()
    ensures c.Decoded() == c.Fill().Decoded() && c.Undecoded() == c.Fill().Undecoded()
  {
  }

  lemma NothingLeft(chars: bytes, tail: bytes)
    requires Encodes(chars, [], tail)
    ensures chars == tail
  {
    assert [] + tail == tail;
  }

  // ---- The decoder

  /** From `c` on, and with `out` held back, `data` will be delivered and `tail` left. The bound variable keeps the
      definitions folded where only this fact matters. */
  ghost predicate Leads(c: Chars, out: bytes, data: bytes, tail: bytes) {
    forall x: Chars {:trigger x.Decoded()} :: x == c ==> data == out + x.Decoded() && tail == x.Undecoded()
  }

  lemma LeadsTo(c: Chars, out: bytes, data: bytes, tail: bytes)
    ensures Leads(c, out, data, tail) <==> data == out + c.Decoded() && tail == c.Undecoded()
  {
  }

  class Base64Decoder {
    const inner: Base64Reader
    /** The characters in the buffer, and their offset in it */
    var buf: bytes
    var start: nat
    /** Decoded octets that the caller had no room for */
    var out: bytes

    /** What is still to be delivered, and the characters that will be left behind it */
    ghost var data: bytes
    ghost var tail: bytes

    ghost function State(): Chars
      reads this, inner
    {
      Chars(start, buf, Tokens(inner.stream))
    }

    ghost predicate Valid()
      reads this, inner
    {
      State().Valid() && Leads(State(), out, data, tail)
    }

    constructor (inner: Base64Reader, ghost data: bytes, ghost tail: bytes)
      requires Leads(Chars(0, [], Tokens(inner.stream)), [], data, tail)
      ensures Valid() && this.inner == inner && this.data == data && this.tail == tail
    {
      this.inner, buf, start, out, this.data, this.tail := inner, [], 0, [], data, tail;
    }

    /** `read` into a destination of any size, on any stream: the next octets of what decodes. Nothing is delivered to
        a nonempty destination only at the end, and then the characters that do not decode are still there, in the
        buffer and behind it. */
    method Read(size: nat) returns (into: bytes)
      requires Valid()
      modifies this, inner
      ensures Valid() && |into| <= size && old(data) == into + data && tail == old(tail)
      ensures StopsIn(inner.stream, old(inner.stream)) && Foreign(inner.stream) == Foreign(old(inner.stream))
      ensures into == [] && size > 0 ==> data == [] && buf + Tokens(inner.stream) == tail
      ensures into == [] && size > 0 && buf == [] ==> inner.stream == Foreign(inner.stream)
    {
      if out != [] {
        var n := Min(|out|, size);
        LeadsTo(State(), out, data, tail);
        LeadsTo(State(), out[n..], data[n..], tail);
        CutDecoded(out, n, State().Decoded());
        into, out, data := out[..n], out[n..], data[n..];
        return;
      }
      Refill();
      if buf == [] {
        LeadsTo(State(), [], data, tail);
        NothingDecodes(State());
        return [];
      }
      into := DecodeBuffer(size);
    }

    /** `read_into_buf` when there is less than a group: fills the free space, or takes all the characters left. */
    method Refill()
      requires Valid() && out == []
      modifies this, inner
      ensures Valid() && out == [] && State() == old(State().Fill()) && State().Fill() == State()
      ensures data == old(data) && tail == old(tail)
      ensures StopsIn(inner.stream, old(inner.stream)) && Foreign(inner.stream) == Foreign(old(inner.stream))
      ensures buf == [] ==> inner.stream == Foreign(inner.stream)
    {
      ghost var before := State();
      FillValid(before);
      FillTwice(before);
      SameAfterFill(before);
      LeadsTo(before, [], data, tail);
      LeadsTo(before.Fill(), [], data, tail);
      if |buf| < 4 {
        RoomLeft(before);
        var chunk := inner.Read(BUF_SIZE - start - |buf|);
        ReadIsFill(before, chunk.value, Tokens(inner.stream));
        buf := buf + chunk.value;
      }
    }

    method DecodeBuffer(size: nat) returns (into: bytes)
      requires Valid() && out == [] && State().Fill() == State()
      modifies this
      ensures Valid() && |into| <= size && old(data) == into + data && tail == old(tail)
      ensures into == [] && size > 0 ==> data == [] && buf == old(buf) && buf + Tokens(inner.stream) == tail
    {
      ghost var before := State();
      var consumed, decoded, n := DecodeRound(buf, size, before, data, tail);
      into, out := decoded[..n], decoded[n..];
      start := if consumed == |buf| then 0 else start + consumed;
      buf := buf[consumed..];
      data := data[n..];
      assert State() == before.Consume(consumed);
    }
  }

  /** One round: what is consumed and decoded, and how much of it there is room for */
  method DecodeRound(buf: bytes, size: nat, ghost c: Chars, ghost data: bytes, ghost tail: bytes)
    returns (consumed: nat, decoded: bytes, n: nat)
    requires c.Valid() && c.Fill() == c && buf == c.buf && Leads(c, [], data, tail)
    ensures consumed <= |buf| && c.Consume(consumed).Valid() && n <= |decoded| && n <= size && n <= |data|
    ensures data == decoded[..n] + data[n..] && Leads(c.Consume(consumed), decoded[n..], data[n..], tail)
    ensures n == 0 && size > 0 ==> decoded == [] && c.Consume(consumed) == c && data == [] && c.All() == tail
  {
    var nw := |buf| / 4 * 3;
    consumed, decoded := DecodeGroups(buf, c);
    n := if nw > size then Min(|decoded|, size) else |decoded|;
    Delivers(c, consumed, decoded, n, data, tail);
  }

  /** Delivering `n` of the octets decoded in one round, and holding back the others */
  lemma Delivers(c: Chars, consumed: nat, decoded: bytes, n: nat, data: bytes, tail: bytes)
    requires consumed <= |c.buf| && n <= |decoded| && Leads(c, [], data, tail)
    requires c.Decoded() == decoded + c.Consume(consumed).Decoded() && c.Undecoded() == c.Consume(consumed).Undecoded()
    ensures n <= |data| && data == decoded[..n] + data[n..] && Leads(c.Consume(consumed), decoded[n..], data[n..], tail)
    ensures c.Decoded() == data && c.Undecoded() == tail
  {
    var after := c.Consume(consumed);
    LeadsTo(c, [], data, tail);
    assert [] + c.Decoded() == c.Decoded();
    CutDecoded(decoded, n, after.Decoded());
    LeadsTo(after, decoded[n..], data[n..], tail);
  }

  lemma CutDecoded(decoded: bytes, n: nat, rest: bytes)
    requires n <= |decoded|
    ensures decoded + rest == decoded[..n] + (decoded[n..] + rest) && (decoded + rest)[n..] == decoded[n..] + rest
  {
  }

  /** `try_decode_engine_slice` on the whole groups of the buffer: one round of what decodes */
  method DecodeGroups(buf: bytes, ghost c: Chars) returns (consumed: nat, decoded: bytes)
    requires c.Valid() && c.Fill() == c && buf == c.buf
    ensures consumed <= |buf| && |decoded| <= |buf| / 4 * 3 && c.Consume(consumed).Valid()
    ensures c.Decoded() == decoded + c.Consume(consumed).Decoded() && c.Undecoded() == c.Consume(consumed).Undecoded()
    ensures decoded == [] ==> c.Consume(consumed) == c && c.Decoded() == [] && c.Undecoded() == c.All()
  {
    WholeGroups(c);
    FoundShape(c);
    consumed, decoded := TryDecode(buf[..|buf| / 4 * 4]);
    ConsumeValid(c, consumed);
    OneRound(c);
  }

  lemma OneRound(c: Chars)
    requires c.Valid() && c.Fill() == c
    ensures var (n, out) := c.Found();
            && c.Decoded() == out + c.Consume(n).Decoded() && c.Undecoded() == c.Consume(n).Undecoded()
            && (n == 0 ==> c.Consume(n) == c && c.Decoded() == [] && c.Undecoded() == c.All())
  {
    var (n, out) := c.Found();
    FoundShape(c);
    if n == 0 {
      assert c.buf[0..] == c.buf;
      assert c.Consume(0) == c;
    }
  }

  lemma NothingDecodes(c: Chars)
    requires c.Fill() == c && c.buf == []
    ensures c.Decoded() == [] && c.Undecoded() == c.All()
  {
  }

  lemma RoomLeft(c: Chars)
    requires c.Valid() && |c.buf| < 4
    ensures c.start + |c.buf| < BUF_SIZE
  {
  }

  /** Reading as much as there is room for fills the buffer. */
  lemma ReadIsFill(c: Chars, chunk: bytes, more: bytes)
    requires c.Valid() && |c.buf| < 4 && c.more == chunk + more
    requires |chunk| <= BUF_SIZE - c.start - |c.buf| && (|chunk| < BUF_SIZE - c.start - |c.buf| ==> more == [])
    ensures c.Fill() == Chars(c.start, c.buf + chunk, more)
  {
    if c.more != [] {
      assert c.Room() == |chunk|;
      Split(chunk, more);
    } else {
      assert c.buf + chunk == c.buf;
    }
  }

  lemma WholeGroups(c: Chars)
    ensures var n := |c.buf| / 4 * 4; LongestDecodable(c.buf[..n], Groups(|c.buf[..n]|)) == c.Found()
  {
    var n := |c.buf| / 4 * 4;
    SameInLonger(c.buf[..n], c.buf, n);
  }
}

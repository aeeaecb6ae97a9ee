/** Reading base64 characters from a byte stream (`src/base64_reader.rs`). */
module Base64Reader {
  import opened Bytes

  predicate IsNewline(c: byte) { c == 13 || c == 10 }

  /** `is_base64_token`, which also accepts the padding character and line endings */
  predicate IsToken(c: byte) {
    48 <= c <= 57 || 65 <= c <= 90 || 97 <= c <= 122 || c == 47 || c == 43 || c == 61 || IsNewline(c)
  }

  /** The characters up to the first foreign octet, without line endings */
  function Tokens(s: bytes): (r: bytes)
    ensures |r| <= |s|
  {
    if s == [] || !IsToken(s[0]) then [] else (if IsNewline(s[0]) then [] else [s[0]]) + Tokens(s[1..])
  }

  /** The stream from the first foreign octet on */
  function Foreign(s: bytes): (r: bytes)
    ensures |r| <= |s|
  {
    if s == [] || !IsToken(s[0]) then s else Foreign(s[1..])
  }

  predicate IsSuffix(t: bytes, s: bytes) {
    |t| <= |s| && t == s[|s| - |t|..]
  }

  /** `into` has been read from `s`, and `left` is left. */
  ghost predicate Progress(s: bytes, into: bytes, left: bytes) {
    Tokens(s) == into + Tokens(left) && Foreign(left) == Foreign(s) && IsSuffix(left, s)
  }

  /** Nothing but a foreign octet, or nothing at all, comes next. */
  predicate AtForeign(t: bytes) { t == [] || !IsToken(t[0]) }

  /** The octet in front of the suffix `t` is a character. */
  predicate AfterToken(t: bytes, s: bytes) { |t| < |s| && !IsNewline(s[|s| - |t| - 1]) }

  /** Where reading may stop in `s`: not among line endings */
  predicate StopsIn(t: bytes, s: bytes) { IsSuffix(t, s) && (t == s || AtForeign(t) || AfterToken(t, s)) }

  lemma StopsTrans(t: bytes, s: bytes, r: bytes)
    requires StopsIn(t, s) && StopsIn(s, r)
    ensures StopsIn(t, r)
  {
  }

  lemma NoTokens(s: bytes)
    requires s == Foreign(s)
    ensures AtForeign(s) && Tokens(s) == []
  {
  }

  lemma Skipped(s: bytes, into: bytes, left: bytes, k: nat)
    requires Progress(s, into, left) && k <= |left|
    requires Tokens(left[k..]) == Tokens(left) && Foreign(left[k..]) == Foreign(left)
    ensures Progress(s, into, left[k..])
  {
  }

  lemma OneToken(s: bytes, into: bytes, left: bytes)
    requires Progress(s, into, left) && left != [] && IsToken(left[0]) && !IsNewline(left[0])
    ensures Progress(s, into + [left[0]], left[1..]) && AfterToken(left[1..], s) && Tokens(s) != []
  {
    Regroup(into, [left[0]], Tokens(left[1..]));
  }

  class Base64Reader {
    /** The octets not yet consumed from the inner reader */
    var stream: bytes

    constructor (stream: bytes)
      ensures this.stream == stream
    {
      this.stream := stream;
    }

    /** `fill_buf` of the inner reader shows any nonempty prefix of what is left. */
    method FillBuf() returns (buf: bytes)
      ensures buf <= stream && (buf == [] <==> stream == [])
    {
      if stream == [] {
        return [];
      }
      var k: nat :| 1 <= k <= |stream|;
      buf := stream[..k];
    }

    /** `read` into a destination of `size` octets: as many characters as fit, or all that are left, whatever the
        refill pattern. Foreign octets are never consumed, and line endings only in front of a character or of a
        foreign octet. An empty destination panics in front of a character. */
    method Read(size: nat) returns (r: Option<bytes>)
      modifies this
      ensures r.None? <==> size == 0 && Tokens(old(stream)) != []
      ensures r.Some? ==> Tokens(old(stream)) == r.value + Tokens(stream) && |r.value| <= size
      ensures r.Some? && (|r.value| < size || size == 0) ==> stream == Foreign(old(stream))
      ensures r.Some? ==> Foreign(stream) == Foreign(old(stream)) && StopsIn(stream, old(stream))
    {
      var buf := FillBuf();
      var into: bytes := [];
      if buf == [] {
        return Some(into);
      }
      var i: nat, done := 0, false;
      ghost var left := stream;
      while !done
        invariant buf <= stream && i <= |buf| && |into| <= size
        invariant left == stream[i..] && Progress(old(stream), into, left)
        invariant !done ==> i < |buf| && (|into| < size || size == 0)
        invariant done ==> if |into| < size || size == 0 then AtForeign(left) else AfterToken(left, old(stream))
        decreases !done, |stream|, |buf| - i
      {
        var k, panics;
        assert buf[i..] <= left;
        k, into, done, panics := Step(buf[i..], into, size, old(stream), left);
        if panics {
          return None;
        }
        assert left[k..] == stream[i + k..];
        i, left := i + k, left[k..];
        if !done && i == |buf| {
          stream := stream[i..];
          buf := FillBuf();
          i := 0;
          done := buf == [];
        }
      }
      stream := stream[i..];
      return Some(into);
    }

    /** One round of the loop on what is left in the buffer: skips line endings, then takes one character. */
    static method Step(buf: bytes, into0: bytes, size: nat, ghost s: bytes, ghost left: bytes)
      returns (i: nat, into: bytes, done: bool, panics: bool)
      requires buf != [] && buf <= left && |into0| <= size && (|into0| < size || size == 0) && Progress(s, into0, left)
      ensures panics <==> size == 0 && i < |buf| && IsToken(buf[i])
      ensures panics ==> Tokens(s) != []
      ensures i <= |buf| && (!done && !panics ==> i > 0) && Progress(s, into, left[i..]) && |into| <= size
      ensures !done ==> |into| < size || size == 0
      ensures done ==> if |into| < size || size == 0 then i < |buf| && AtForeign(left[i..]) else AfterToken(left[i..], s)
    {
      into, done, panics := into0, false, false;
      i := SkipNewlines(buf, left);
      Skipped(s, into, left, i);
      if i < |buf| {
        if !IsToken(buf[i]) {
          return i, into, true, false;
        }
        OneToken(s, into, left[i..]);
        if |into| == size {
          return i, into, false, true;
        }
        assert left[i..][1..] == left[i + 1..];
        into := into + [buf[i]];
        i := i + 1;
        done := |into| == size;
      }
    }

    /** Skips the line endings at the front of `buf`, a prefix of what is left. */
    static method SkipNewlines(buf: bytes, ghost left: bytes) returns (i: nat)
      requires buf <= left
      ensures i <= |buf| && (i < |buf| ==> !IsNewline(buf[i]))
      ensures Tokens(left[i..]) == Tokens(left) && Foreign(left[i..]) == Foreign(left)
    {
      i := 0;
      while i < |buf| && IsNewline(buf[i])
        invariant i <= |buf|
        invariant Tokens(left[i..]) == Tokens(left) && Foreign(left[i..]) == Foreign(left)
      {
        ghost var s := left[i..];
        assert s[0] == buf[i] && s[1..] == left[i + 1..];
        assert [] + Tokens(s[1..]) == Tokens(s[1..]);
        i := i + 1;
      }
    }
  }

  /** No read is empty while there are some of `n` characters left. */
  ghost predicate NeverEmpty(sizes: seq<nat>, n: nat) {
    forall k :: 0 <= k < |sizes| && sizes[k] == 0 ==> Total(sizes[..k]) >= n
  }

  /** What reads have delivered: all they asked for, up to all there is */
  ghost predicate Delivered(start: bytes, asked: nat, all: bytes, stream: bytes) {
    && all + Tokens(stream) == Tokens(start) && |all| == Min(asked, |Tokens(start)|)
    && Foreign(stream) == Foreign(start) && StopsIn(stream, start)
  }

  lemma NothingDelivered(start: bytes)
    ensures Delivered(start, 0, [], start)
  {
    assert [] + Tokens(start) == Tokens(start);
  }

  lemma DeliveredMore(start: bytes, asked: nat, all: bytes, before: bytes, size: nat, piece: bytes, stream: bytes)
    requires Delivered(start, asked, all, before) && Tokens(before) == piece + Tokens(stream) && |piece| <= size
    requires |piece| < size || size == 0 ==> stream == Foreign(before)
    requires Foreign(stream) == Foreign(before) && StopsIn(stream, before)
    ensures Delivered(start, asked + size, all + piece, stream)
  {
    Regroup(all, piece, Tokens(stream));
    StopsTrans(stream, before, start);
    ForeignIsEnd(before);
  }

  /** One more read */
  method ReadPiece(reader: Base64Reader, size: nat, all: bytes, ghost start: bytes, ghost asked: nat)
    returns (out: Option<bytes>)
    requires Delivered(start, asked, all, reader.stream)
    modifies reader
    ensures out.None? <==> size == 0 && asked < |Tokens(start)|
    ensures out.Some? ==> Delivered(start, asked + size, out.value, reader.stream)
  {
    ghost var before := reader.stream;
    var piece := reader.Read(size);
    if piece.None? {
      return None;
    }
    DeliveredMore(start, asked, all, before, size, piece.value, reader.stream);
    return Some(all + piece.value);
  }

  /** Any sequence of reads yields the characters in order, without line endings, and stops at the first foreign
      octet: the reads deliver as many characters as they ask for together, up to all of them. They panic if and only
      if an empty one comes while there are characters left. */
  method ReadInPieces(reader: Base64Reader, sizes: seq<nat>) returns (out: Option<bytes>)
    modifies reader
    ensures out.Some? <==> NeverEmpty(sizes, |Tokens(old(reader.stream))|)
    ensures out.Some? ==> Delivered(old(reader.stream), Total(sizes), out.value, reader.stream)
  {
    out := Some([]);
    ghost var start := reader.stream;
    ghost var n, asked: nat := |Tokens(start)|, 0;
    NothingDelivered(start);
    for k := 0 to |sizes|
      invariant forall j :: 0 <= j < k && sizes[j] == 0 ==> Total(sizes[..j]) >= n
      invariant asked == Total(sizes[..k])
      invariant out.Some? && Delivered(start, asked, out.value, reader.stream)
    {
      TotalAppend(sizes, k);
      out := ReadPiece(reader, sizes[k], out.value, start, asked);
      if out.None? {
        return;
      }
      asked := asked + sizes[k];
    }
    assert sizes[..|sizes|] == sizes;
  }

  lemma {:induction false} ForeignIsEnd(s: bytes)
    ensures Tokens(Foreign(s)) == [] && Foreign(Foreign(s)) == Foreign(s)
  {
    if s != [] && IsToken(s[0]) {
      ForeignIsEnd(s[1..]);
    }
  }
}

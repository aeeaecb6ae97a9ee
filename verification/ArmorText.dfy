/** What the armor writer writes after the header, and the characters in it (`src/armor/writer.rs`). */
module ArmorText {
  import opened Bytes
  import opened Base64
  import opened Base64Reader
  import opened Base64Decoder
  import opened ArmorFooter
  import opened LineWriter

  const LINE: nat := 64

  // ---- An armored block after its header

  ghost predicate AllTokens(s: bytes) { forall k :: 0 <= k < |s| ==> IsToken(s[k]) }
  ghost predicate NoNewlines(s: bytes) { forall k :: 0 <= k < |s| ==> !IsNewline(s[k]) }

  /** An armored block: its data and their encoding with line endings anywhere in it, the checksum if there is one and
      the line endings behind it, the type in the footer, how the footer line ends, and what follows */
  datatype Armor = Armor(data: bytes, body: bytes, crc: Option<nat>, nl: bytes, typ: BlockType, ending: bytes,
                         rest: bytes)
  {

    /** From the checksum on, all fits the 128 octets that the reader makes sure to have. */
    ghost predicate Valid() {
      && AllTokens(body) && Tokens(body) == Encode(data)
      && (crc.Some? ==> crc.value < 0x100_0000) && LineEndings(nl) && (crc.None? ==> nl == []) && Ends(ending, rest)
      && |ChecksumText(crc)| + |nl| + |FooterText(typ, ending)| <= 128
    }

    function Footer(): bytes { FooterText(typ, ending) + rest }

    function Bytes(): bytes { body + (ChecksumText(crc) + (nl + Footer())) }
  }

  /** What the writer makes of data: lines of 64 characters, all line endings line feeds */
  function Written(data: bytes, crc: Option<nat>, typ: BlockType, rest: bytes): Armor {
    Armor(data, Wrapped(Encode(data), LINE, [10]), crc, if crc.None? then [] else [10], typ, [10], rest)
  }

  /** `write_body` and `write_footer`; the base64 encoder hands the encoding to the line writer in `pieces`, and
      `crc` is the checksum function. */
  method WriteArmor(data: bytes, pieces: seq<bytes>, typ: BlockType, crc: bytes -> nat, includeChecksum: bool)
    returns (out: bytes)
    requires Concat(pieces) == Encode(data)
    ensures out == Written(data, if includeChecksum then Some(crc(data)) else None, typ, []).Bytes()
  {
    ghost var a := Written(data, if includeChecksum then Some(crc(data)) else None, typ, []);
    out := WrapPieces(pieces, LINE, [10]);
    if includeChecksum {
      var c := crc(data);
      var group: bytes := [c / 0x1_0000 % 0x100, c / 0x100 % 0x100, c % 0x100];
      var text := Encode(group);
      assert Encode(group[3..]) == [];
      AppendNothing(EncodeGroup(group[0], group[1], group[2]));
      assert [PAD] + text == ChecksumText(a.crc);
      out := out + [PAD] + text + [10];
      Regroup(a.body, [PAD], text);
      Regroup(a.body, ChecksumText(a.crc), [10]);
    }
    out := out + FooterText(typ, [10]);
    AppendNothing(FooterText(typ, [10]));
    Regroup(a.body, ChecksumText(a.crc) + a.nl, a.Footer());
    Regroup(ChecksumText(a.crc), a.nl, a.Footer());
    AppendNothing(a.body);
    AppendNothing(a.body + []);
  }

  // ---- The characters of an armored block

  lemma {:induction false} TokensAppend(x: bytes, s: bytes)
    requires AllTokens(x)
    ensures Tokens(x + s) == Tokens(x) + Tokens(s) && Foreign(x + s) == Foreign(s)
  {
    if x == [] {
      assert x + s == s;
      assert Tokens(x) + Tokens(s) == Tokens(s);
    } else {
      assert (x + s)[1..] == x[1..] + s;
      TokensAppend(x[1..], s);
      Regroup(if IsNewline(x[0]) then [] else [x[0]], Tokens(x[1..]), Tokens(s));
    }
  }

  lemma {:induction false} TokensOnly(x: bytes)
    requires AllTokens(x) && NoNewlines(x)
    ensures Tokens(x) == x
  {
    if x != [] {
      TokensOnly(x[1..]);
      assert [x[0]] + x[1..] == x;
    }
  }

  lemma CharIsToken(v: sextet)
    ensures IsToken(Char(v)) && !IsNewline(Char(v))
  {
  }

  lemma GroupIsTokens(a: byte, b: byte, c: byte)
    ensures var g := EncodeGroup(a, b, c); AllTokens(g) && NoNewlines(g)
  {
    CharIsToken(a / 4);
    CharIsToken(a % 4 * 16 + b / 16);
    CharIsToken(b % 16 * 4 + c / 64);
    CharIsToken(c % 64);
  }

  lemma LastIsTokens(s: bytes)
    requires |s| == 1 || |s| == 2
    ensures AllTokens(EncodeLast(s)) && NoNewlines(EncodeLast(s))
  {
    CharIsToken(s[0] / 4);
    if |s| == 1 {
      CharIsToken(s[0] % 4 * 16);
    } else {
      CharIsToken(s[0] % 4 * 16 + s[1] / 16);
      CharIsToken(s[1] % 16 * 4);
    }
  }

  lemma {:induction false} EncodedIsTokens(s: bytes)
    ensures AllTokens(Encode(s)) && NoNewlines(Encode(s))
  {
    if s == [] {
    } else if |s| < 3 {
      LastIsTokens(s);
    } else {
      GroupIsTokens(s[0], s[1], s[2]);
      EncodedIsTokens(s[3..]);
    }
  }

  /** Wrapping adds nothing but line endings. */
  lemma {:induction false} WrappedTokens(e: bytes, n: nat)
    requires n > 0 && AllTokens(e) && NoNewlines(e)
    ensures AllTokens(Wrapped(e, n, [10])) && Tokens(Wrapped(e, n, [10])) == e
    decreases |e|
  {
    if e == [] {
      assert Wrapped(e, n, [10]) == [];
    } else if |e| < n {
      assert Wrapped(e, n, [10]) == e + [10];
      LineTokens(e);
    } else {
      var line, w := e[..n], Wrapped(e[n..], n, [10]);
      WrappedUnfold(e, n, [10]);
      WrappedTokens(e[n..], n);
      LineTokens(line);
      TokensAppend(line + [10], w);
      assert line + e[n..] == e;
    }
  }

  lemma LineTokens(line: bytes)
    requires AllTokens(line) && NoNewlines(line)
    ensures AllTokens(line + [10]) && Tokens(line + [10]) == line
  {
    TokensOnly(line);
    TokensAppend(line, [10]);
    assert Tokens([10]) == [] by {
      assert [10][1..] == [];
    }
    AppendNothing(line);
  }

  lemma ChecksumIsTokens(crc: Option<nat>)
    ensures AllTokens(ChecksumText(crc)) && NoNewlines(ChecksumText(crc))
  {
    if crc.Some? {
      var c := crc.value;
      GroupIsTokens(c / 0x1_0000 % 0x100, c / 0x100 % 0x100, c % 0x100);
    }
  }

  lemma {:induction false} NewlinesAreTokens(nl: bytes)
    requires LineEndings(nl)
    ensures AllTokens(nl) && Tokens(nl) == [] && (forall k :: 0 <= k < |nl| ==> IsNewline(nl[k]))
    decreases |nl|
  {
    if nl != [] {
      var k := if nl[0] == 10 then 1 else 2;
      NewlinesAreTokens(nl[k..]);
      assert forall j :: k <= j < |nl| ==> nl[j] == nl[k..][j - k];
      OnlyNewlines(nl);
    }
  }

  lemma {:induction false} OnlyNewlines(nl: bytes)
    requires forall k :: 0 <= k < |nl| ==> IsNewline(nl[k])
    ensures Tokens(nl) == []
  {
    if nl != [] {
      OnlyNewlines(nl[1..]);
    }
  }

  /** The checksum, its line endings, then the footer: the characters end where the footer begins. */
  lemma EndTokens(x: bytes, nl: bytes, foot: bytes)
    requires AllTokens(x) && NoNewlines(x) && LineEndings(nl) && foot != [] && foot[0] == 45
    ensures Tokens(x + (nl + foot)) == x && Foreign(x + (nl + foot)) == foot
  {
    assert Tokens(foot) == [] && Foreign(foot) == foot;
    NewlinesAreTokens(nl);
    TokensAppend(nl, foot);
    TokensOnly(x);
    TokensAppend(x, nl + foot);
    AppendNothing(x);
  }

  /** The block's characters encode its data, and the first foreign octet is the footer's first dash. */
  lemma ArmorTokens(a: Armor)
    requires a.Valid()
    ensures Encodes(Tokens(a.Bytes()), a.data, ChecksumText(a.crc)) && Foreign(a.Bytes()) == a.Footer()
  {
    ChecksumIsTokens(a.crc);
    EndTokens(ChecksumText(a.crc), a.nl, a.Footer());
    TokensAppend(a.body, ChecksumText(a.crc) + (a.nl + a.Footer()));
  }

  /** Decoding the block from its start delivers its data and leaves its checksum. */
  lemma ArmorDecodes(a: Armor)
    requires a.Valid()
    ensures var c := Chars(0, [], Tokens(a.Bytes())); c.Decoded() == a.data && c.Undecoded() == ChecksumText(a.crc)
    ensures Foreign(a.Bytes()) == a.Footer()
  {
    var c := Chars(0, [], Tokens(a.Bytes()));
    ArmorTokens(a);
    assert c.All() == Tokens(a.Bytes());
    DecodesTheData(c, a.data, ChecksumText(a.crc));
  }

  /** What the writer writes is such a block, with any octets behind it. */
  lemma WrittenIsValid(data: bytes, crc: Option<nat>, typ: BlockType, rest: bytes)
    requires crc.Some? ==> crc.value < 0x100_0000
    ensures Written(data, crc, typ, rest).Valid()
  {
    EncodedIsTokens(data);
    WrappedTokens(Encode(data), LINE);
    FooterLength(typ, [10]);
    assert [10][1..] == [];
    assert LineEndings([]) && LineEndings([10]);
  }

  // ---- The end of the body

  lemma SplitSuffix(x: bytes, y: bytes, t: bytes)
    requires IsSuffix(t, x + y)
    ensures |t| <= |y| ==> t == y[|y| - |t|..]
    ensures |t| > |y| ==> |t| - |y| <= |x| && t == x[|x| - (|t| - |y|)..] + y
  {
  }

  /** When the decoder has delivered everything, its buffer and the unread stream together start at the checksum
      or at the footer, except that the line endings behind the checksum may have been skipped. */
  lemma Boundary(body: bytes, x: bytes, nl: bytes, foot: bytes, buf: bytes, stream: bytes) returns (m: bytes)
    requires AllTokens(body) && AllTokens(x) && NoNewlines(x) && LineEndings(nl) && foot != [] && foot[0] == 45
    requires StopsIn(stream, body + (x + (nl + foot))) && Foreign(stream) == foot
    requires buf + Tokens(stream) == x && (buf == [] ==> stream == foot)
    ensures (m == [] || m == nl) && buf + stream == x + (m + foot)
  {
    if buf == [] {
      m := [];
      assert [] + foot == foot;
    } else if |stream| >= |x + (nl + foot)| {
      InsideBody(body, x, nl, foot, stream);
      assert false;
    } else if |stream| > |nl + foot| {
      m := nl;
      InsideChecksum(body, x, nl, foot, buf, stream);
    } else {
      m := BehindChecksum(body, x, nl, foot, buf, stream);
    }
  }

  /** While something of the body is unread, all of the checksum is. */
  lemma InsideBody(body: bytes, x: bytes, nl: bytes, foot: bytes, stream: bytes)
    requires AllTokens(body) && AllTokens(x) && NoNewlines(x) && LineEndings(nl) && foot != [] && foot[0] == 45
    requires IsSuffix(stream, body + (x + (nl + foot))) && |stream| >= |x + (nl + foot)|
    ensures |Tokens(stream)| >= |x|
  {
    var end := x + (nl + foot);
    EndTokens(x, nl, foot);
    SplitSuffix(body, end, stream);
    if |stream| > |end| {
      TokensAppend(body[|body| - (|stream| - |end|)..], end);
    } else {
      assert stream == end;
    }
  }

  lemma InsideChecksum(body: bytes, x: bytes, nl: bytes, foot: bytes, buf: bytes, stream: bytes)
    requires AllTokens(x) && NoNewlines(x) && LineEndings(nl) && foot != [] && foot[0] == 45
    requires IsSuffix(stream, body + (x + (nl + foot))) && |nl + foot| < |stream| <= |x + (nl + foot)|
    requires buf + Tokens(stream) == x
    ensures buf + stream == x + (nl + foot)
  {
    SuffixWithin(body, x + (nl + foot), stream);
    SuffixAt(x, nl + foot, stream);
    var k := |x| - (|stream| - |nl + foot|);
    TokensAt(x[k..], nl, foot, buf, x[..k]);
    Rejoined(x, k, nl + foot);
  }

  lemma SuffixWithin(x: bytes, y: bytes, t: bytes)
    requires IsSuffix(t, x + y) && |t| <= |y|
    ensures IsSuffix(t, y)
  {
  }

  lemma SuffixAt(x: bytes, y: bytes, t: bytes)
    requires IsSuffix(t, x + y) && |t| >= |y|
    ensures var k := |x| - (|t| - |y|); 0 <= k <= |x| && t == x[k..] + y && x == x[..k] + x[k..]
  {
  }

  lemma Rejoined(x: bytes, k: nat, y: bytes)
    requires k <= |x|
    ensures x[..k] + (x[k..] + y) == x + y
  {
  }

  lemma TokensAt(y: bytes, nl: bytes, foot: bytes, buf: bytes, front: bytes)
    requires AllTokens(y) && NoNewlines(y) && LineEndings(nl) && foot != [] && foot[0] == 45
    requires buf + Tokens(y + (nl + foot)) == front + y
    ensures buf == front
  {
    EndTokens(y, nl, foot);
    SplitEqualEnd(buf, y, front, y);
  }

  /** Reading never stops among the line endings behind the checksum. */
  lemma BehindChecksum(body: bytes, x: bytes, nl: bytes, foot: bytes, buf: bytes, stream: bytes) returns (m: bytes)
    requires LineEndings(nl) && foot != [] && foot[0] == 45 && |stream| <= |nl + foot|
    requires StopsIn(stream, body + (x + (nl + foot))) && Foreign(stream) == foot && buf + Tokens(stream) == x
    ensures (m == [] || m == nl) && buf + stream == x + (m + foot)
  {
    Regroup(body, x, nl + foot);
    m := InNewlines(body + x, nl, foot, stream);
    EndTokens([], m, foot);
    assert [] + (m + foot) == m + foot;
    AppendNothing(buf);
  }

  lemma InNewlines(front: bytes, nl: bytes, foot: bytes, stream: bytes) returns (m: bytes)
    requires LineEndings(nl) && |foot| <= |stream| <= |nl + foot| && StopsIn(stream, front + (nl + foot))
    ensures (m == [] || m == nl) && stream == m + foot
  {
    SplitSuffix(front, nl + foot, stream);
    NewlinesAreTokens(nl);
    m := SuffixOfEnd(front, nl, foot, stream, |nl + foot| - |stream|);
  }

  lemma SuffixOfEnd(front: bytes, nl: bytes, foot: bytes, stream: bytes, j: nat) returns (m: bytes)
    requires j <= |nl| && stream == (nl + foot)[j..] && StopsIn(stream, front + (nl + foot))
    requires forall k :: 0 <= k < |nl| ==> IsNewline(nl[k])
    ensures (m == [] || m == nl) && stream == m + foot
  {
    CutFront(nl, foot, j);
    m := nl[j..];
    if 0 < j < |nl| {
      AmongNewlines(front, nl, foot, stream, j);
    }
  }

  lemma AmongNewlines(front: bytes, nl: bytes, foot: bytes, stream: bytes, j: nat)
    requires 0 < j < |nl| && stream == (nl + foot)[j..] && forall k :: 0 <= k < |nl| ==> IsNewline(nl[k])
    ensures !StopsIn(stream, front + (nl + foot))
  {
    var whole := front + (nl + foot);
    assert stream[0] == nl[j];
    assert whole[|whole| - |stream| - 1] == nl[j - 1];
  }

  /** A buffer of 128 octets, or of all that is left, shows the whole footer. */
  lemma WindowParses(a: Armor, nl: bytes, buffer: bytes, stream: bytes)
    requires a.Valid() && (nl == [] || nl == a.nl)
    requires buffer + stream == ChecksumText(a.crc) + (nl + a.Footer())
    requires |buffer| >= 128 || stream == []
    ensures var p := ParseFooter(buffer); p.Parsed? && p.value == (a.crc, a.typ) && p.rest + stream == a.rest
  {
    var c, f := ChecksumText(a.crc), FooterText(a.typ, a.ending);
    Regroup4(c, nl, f, a.rest);
    Window(c + nl + f, a.rest, buffer, stream);
    var w := buffer[|c + nl + f|..];
    Regroup4(c, nl, f, w);
    StillEnds(a.ending, w, stream);
    FooterParses(a.crc, nl, a.typ, a.ending, w);
  }

  lemma StillEnds(ending: bytes, w: bytes, stream: bytes)
    requires Ends(ending, w + stream)
    ensures Ends(ending, w)
  {
  }

  lemma Regroup4(a: bytes, b: bytes, c: bytes, d: bytes)
    ensures a + b + c + d == a + (b + (c + d))
  {
  }

  lemma Window(head: bytes, rest: bytes, buffer: bytes, stream: bytes)
    requires buffer + stream == head + rest && (|head| <= 128 <= |buffer| || stream == [])
    ensures |head| <= |buffer| && buffer == head + buffer[|head|..] && buffer[|head|..] + stream == rest
  {
    assert |head| <= |head + rest| == |buffer + stream|;
    Split(head, rest);
    CutFront(buffer, stream, |head|);
  }

  // ---- What the reader meets at the end of the body

  /** The decoder's buffer and its stream when all of a text has been decoded that can be: `tail` are the characters
      that do not decode, `foot` is the text from its first foreign octet on. */
  ghost predicate BodyDelivered(text: bytes, tail: bytes, foot: bytes, buffer: bytes, stream: bytes) {
    && StopsIn(stream, text) && Foreign(stream) == foot
    && buffer + Tokens(stream) == tail && (buffer == [] ==> stream == foot)
  }

  /** What is then left to read */
  ghost predicate LeftAtEnd(text: bytes, tail: bytes, foot: bytes, end: bytes) {
    exists buffer, stream :: BodyDelivered(text, tail, foot, buffer, stream) && end == buffer + stream
  }

  /** The footer that is read there: what the buffer shows and what it does not, and what the footer parser makes of
      it, a checksum and a type or nothing */
  datatype End = End(shown: bytes, hidden: bytes, footer: Option<(Option<nat>, BlockType)>, left: bytes)

  /** The footer parser's result. The bound variable keeps it folded where only this fact matters. */
  ghost predicate FooterIs(shown: bytes, footer: Option<(Option<nat>, BlockType)>, left: bytes) {
    forall x: bytes {:trigger ParseFooter(x)} :: x == shown ==>
      match ParseFooter(x)
      case Parsed(v, rest) => footer == Some(v) && left == rest
      case _ => footer == None && left == x
  }

  /** The buffer shows 128 octets at least, or all that is left. */
  ghost predicate IsEnd(text: bytes, tail: bytes, foot: bytes, e: End) {
    && LeftAtEnd(text, tail, foot, e.shown + e.hidden) && (|e.shown| >= 128 || e.hidden == [])
    && FooterIs(e.shown, e.footer, e.left)
  }

  /** A text that is an armored block: it decodes to its data, and however its end is met, the footer is found there and
      what follows is left. */
  datatype Block = Block(data: bytes, text: bytes, tail: bytes, foot: bytes, crc: Option<nat>, typ: BlockType,
                         rest: bytes)
  {
    ghost predicate Valid() {
      && Leads(Chars(0, [], Tokens(text)), [], data, tail) && Foreign(text) == foot
      && forall e: End {:trigger IsEnd(text, tail, foot, e)} ::
           IsEnd(text, tail, foot, e) ==> e.footer == Some((crc, typ)) && e.left + e.hidden == rest
    }
  }

  ghost function BlockOf(a: Armor): Block {
    Block(a.data, a.Bytes(), ChecksumText(a.crc), a.Footer(), a.crc, a.typ, a.rest)
  }

  lemma EndIsFooter(a: Armor, e: End)
    requires a.Valid() && IsEnd(a.Bytes(), ChecksumText(a.crc), a.Footer(), e)
    ensures e.footer == Some((a.crc, a.typ)) && e.left + e.hidden == a.rest
  {
    var buf, stream :| BodyDelivered(a.Bytes(), ChecksumText(a.crc), a.Footer(), buf, stream)
                       && e.shown + e.hidden == buf + stream;
    ChecksumIsTokens(a.crc);
    var m := Boundary(a.body, ChecksumText(a.crc), a.nl, a.Footer(), buf, stream);
    WindowParses(a, m, e.shown, e.hidden);
  }

  /** Every armored block, with any line lengths and line endings, is such a text. */
  lemma ArmorIsBlock(a: Armor)
    requires a.Valid()
    ensures BlockOf(a).Valid()
  {
    var b := BlockOf(a);
    var c := Chars(0, [], Tokens(a.Bytes()));
    ArmorDecodes(a);
    assert [] + c.Decoded() == c.Decoded();
    LeadsTo(c, [], b.data, b.tail);
    forall e: End | IsEnd(b.text, b.tail, b.foot, e)
      ensures e.footer == Some((b.crc, b.typ)) && e.left + e.hidden == b.rest
    {
      EndIsFooter(a, e);
    }
  }

  // ---- The characters and names of the standards

  /** The alphabet of section 4 of RFC 4648 */
  lemma Alphabet(v: sextet)
    ensures v < 26 ==> Char(v) == "ABCDEFGHIJKLMNOPQRSTUVWXYZ"[v] as int
    ensures 26 <= v < 52 ==> Char(v) == "abcdefghijklmnopqrstuvwxyz"[v - 26] as int
    ensures 52 <= v ==> Char(v) == "0123456789+/"[v - 52] as int
  {
  }

  /** The reader stops at everything that is not a character of the alphabet, a padding character or a line ending. */
  lemma TokensAre(c: byte)
    ensures IsToken(c) <==> Value(c).Some? || c in {61, 13, 10}
  {
  }

  /** What is written: lines of 64 characters, the checksum's three octets encoded behind a padding character, and the
      footer, each with a line feed behind it */
  lemma WrittenLines(data: bytes, crc: Option<nat>, typ: BlockType)
    requires crc.Some? ==> crc.value < 0x100_0000
    ensures Written(data, crc, typ, []).Bytes()
         == Joined(Lines(Encode(data), 64), [10])
            + (if crc.None? then []
               else
                 var c := crc.value;
                 [61] + Encode([c / 0x1_0000, c / 0x100 % 0x100, c % 0x100]) + [10])
            + (Text("-----END ") + NameText(typ) + (Text("-----") + [10]))
  {
    var a := Written(data, crc, typ, []);
    NoEmptyLine(Encode(data), 64, [10]);
    AppendNothing(FooterText(typ, [10]));
    if crc.Some? {
      var c := crc.value;
      var g: bytes := [c / 0x1_0000, c / 0x100 % 0x100, c % 0x100];
      ModSmall(c / 0x1_0000, 0x100);
      assert g[3..] == [];
      AppendNothing(EncodeGroup(g[0], g[1], g[2]));
      assert ChecksumText(crc) == [61] + Encode(g);
      Regroup(ChecksumText(crc), [10], FooterText(typ, [10]));
      Regroup(a.body, ChecksumText(crc) + [10], FooterText(typ, [10]));
    } else {
      assert [] + ([] + FooterText(typ, [10])) == FooterText(typ, [10]);
      AppendNothing(a.body);
    }
  }
}

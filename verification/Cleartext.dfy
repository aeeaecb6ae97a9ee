/** The cleartext signature framework (`src/composed/cleartext.rs`): dash escaping, the text that is signed and
    verified, and finding the end of the text. Texts are their UTF-8 octets. */
module Cleartext {
  import opened Bytes
  import opened NormalizeLines
  import opened ArmorFooter
  import opened ArmorText
  import opened Base64
  import opened LineWriter

  const DASH: byte := 45
  const SPACE: byte := 32

  // ---- Lines

  /** Length of the first line with its line feed (`split_inclusive`) */
  function LineLength(s: bytes): (n: nat)
    requires s != []
    ensures 1 <= n <= |s|
  {
    if s[0] == LF || |s| == 1 then 1 else 1 + LineLength(s[1..])
  }

  /** A line: it is not empty, and its only line feed may be its last octet. */
  ghost predicate IsLine(l: bytes) {
    l != [] && forall k :: 0 <= k < |l| - 1 ==> l[k] != LF
  }

  /** The first line is the longest prefix that is a line. */
  lemma {:induction false} FirstLine(s: bytes)
    requires s != []
    ensures var n := LineLength(s); IsLine(s[..n]) && (s[n - 1] == LF || n == |s|)
  {
    if s[0] != LF && |s| > 1 {
      FirstLine(s[1..]);
      var n := LineLength(s);
      forall k | 0 <= k < n - 1 ensures s[k] != LF {
        if k > 0 {
          assert s[k] == s[1..][..n - 1][k - 1];
        }
      }
    }
  }

  lemma {:induction false} LineOf(l: bytes, rest: bytes)
    requires IsLine(l) && (l[|l| - 1] == LF || rest == [])
    ensures LineLength(l + rest) == |l|
  {
    if |l| > 1 {
      assert l[0] != LF;
      assert (l + rest)[1..] == l[1..] + rest;
      LineOf(l[1..], rest);
    } else {
      assert (l + rest)[0] == l[0];
    }
  }

  // ---- Dash escaping

  function EscapeLine(l: bytes): bytes {
    if l != [] && l[0] == DASH then [DASH, SPACE] + l else l
  }

  function UnescapeLine(l: bytes): bytes {
    if |l| >= 2 && l[0] == DASH && l[1] == SPACE then l[2..] else l
  }

  function Escape(s: bytes): bytes
    decreases |s|
  {
    if s == [] then [] else EscapeLine(s[..LineLength(s)]) + Escape(s[LineLength(s)..])
  }

  function Unescape(s: bytes): bytes
    decreases |s|
  {
    if s == [] then [] else UnescapeLine(s[..LineLength(s)]) + Unescape(s[LineLength(s)..])
  }

  /** `dash_escape`: one line after the other */
  method DashEscape(text: bytes) returns (out: bytes)
    ensures out == Escape(text)
  {
    out := [];
    var rest := text;
    assert [] + Escape(rest) == Escape(rest);
    while rest != []
      invariant out + Escape(rest) == Escape(text)
      decreases |rest|
    {
      var n := LineLength(rest);
      Regroup(out, EscapeLine(rest[..n]), Escape(rest[n..]));
      var line := rest[..n];
      ghost var before := out;
      if line[0] == DASH {
        out := out + [DASH, SPACE];
        Regroup(before, [DASH, SPACE], line);
      }
      out := out + line;
      rest := rest[n..];
    }
    AppendNothing(out);
  }

  /** `dash_unescape` */
  method DashUnescape(text: bytes) returns (out: bytes)
    ensures out == Unescape(text)
  {
    out := [];
    var rest := text;
    assert [] + Unescape(rest) == Unescape(rest);
    while rest != []
      invariant out + Unescape(rest) == Unescape(text)
      decreases |rest|
    {
      var n := LineLength(rest);
      Regroup(out, UnescapeLine(rest[..n]), Unescape(rest[n..]));
      var line := rest[..n];
      if [DASH, SPACE] <= line {
        out := out + line[2..];
      } else {
        out := out + line;
      }
      rest := rest[n..];
    }
    AppendNothing(out);
  }

  lemma EscapedLine(l: bytes)
    requires IsLine(l)
    ensures IsLine(EscapeLine(l)) && UnescapeLine(EscapeLine(l)) == l
    ensures EscapeLine(l)[|EscapeLine(l)| - 1] == l[|l| - 1]
  {
  }

  lemma UnescapeFirst(e: bytes, rest: bytes)
    requires IsLine(e) && (e[|e| - 1] == LF || rest == [])
    ensures Unescape(e + rest) == UnescapeLine(e) + Unescape(rest)
  {
    LineOf(e, rest);
    Split(e, rest);
  }

  lemma EscapeStep(s: bytes) returns (l: bytes, rest: bytes)
    requires s != []
    ensures s == l + rest && |rest| < |s| && Escape(s) == EscapeLine(l) + Escape(rest)
    ensures IsLine(l) && (l[|l| - 1] == LF || (rest == [] && Escape(rest) == []))
  {
    var n := LineLength(s);
    FirstLine(s);
    l, rest := s[..n], s[n..];
  }

  /** Unescaping undoes escaping, on every text. */
  lemma {:induction false} UnescapeEscape(s: bytes)
    ensures Unescape(Escape(s)) == s
    decreases |s|
  {
    if s != [] {
      var l, rest := EscapeStep(s);
      EscapedLine(l);
      UnescapeFirst(EscapeLine(l), Escape(rest));
      UnescapeEscape(rest);
    }
  }

  // ---- Octet by octet

  /** Escaping octet by octet: a dash and a space in front of each dash that starts a line */
  function EscapeFrom(s: bytes, atStart: bool): bytes {
    if s == [] then []
    else if atStart && s[0] == 45 then [45, 32, 45] + EscapeFrom(s[1..], false)
    else [s[0]] + EscapeFrom(s[1..], s[0] == 10)
  }

  /** Unescaping octet by octet: a dash and a space that start a line are left out. */
  function UnescapeFrom(s: bytes, atStart: bool): bytes {
    if s == [] then []
    else if atStart && [45, 32] <= s then UnescapeFrom(s[2..], false)
    else [s[0]] + UnescapeFrom(s[1..], s[0] == 10)
  }

  /** The rest of a line is kept, and the next line starts behind it. */
  lemma {:induction false} RestOfLine(l: bytes, rest: bytes)
    requires IsLine(l) && (l[|l| - 1] == LF || rest == [])
    ensures EscapeFrom(l + rest, false) == l + EscapeFrom(rest, true)
    ensures UnescapeFrom(l + rest, false) == l + UnescapeFrom(rest, true)
  {
    var s := l + rest;
    assert s[0] == l[0] && s[1..] == l[1..] + rest;
    if |l| > 1 {
      RestOfLine(l[1..], rest);
      assert l == [l[0]] + l[1..];
      Regroup([l[0]], l[1..], EscapeFrom(rest, true));
      Regroup([l[0]], l[1..], UnescapeFrom(rest, true));
    } else {
      assert l == [l[0]] && l[1..] + rest == rest;
    }
  }

  lemma {:induction false} EscapedFirst(l: bytes, rest: bytes)
    requires IsLine(l) && (l[|l| - 1] == LF || rest == [])
    ensures EscapeFrom(l + rest, true) == EscapeLine(l) + EscapeFrom(rest, true)
  {
    var s := l + rest;
    assert s[0] == l[0] && s[1..] == l[1..] + rest;
    RestOfLine(l, rest);
    if l[0] == DASH {
      if |l| == 1 {
        assert l == [45] && s[1..] == [] && EscapeLine(l) == [45, 32, 45];
      } else {
        RestOfLine(l[1..], rest);
        assert EscapeLine(l) == [45, 32, 45] + l[1..];
        Regroup([45, 32, 45], l[1..], EscapeFrom(rest, true));
      }
    }
  }

  /** A line that starts with a dash and a space does so whatever follows it. */
  lemma StartsWithDashSpace(l: bytes, rest: bytes)
    requires IsLine(l) && (l[|l| - 1] == LF || rest == [])
    ensures [45, 32] <= l + rest <==> |l| >= 2 && l[0] == 45 && l[1] == 32
  {
    var s := l + rest;
    assert |s| >= 2 ==> s[..2] == [s[0], s[1]];
    assert s[0] == l[0] && (|l| >= 2 ==> s[1] == l[1]);
  }

  lemma {:induction false} UnescapedFirst(l: bytes, rest: bytes)
    requires IsLine(l) && (l[|l| - 1] == LF || rest == [])
    ensures UnescapeFrom(l + rest, true) == UnescapeLine(l) + UnescapeFrom(rest, true)
  {
    var s := l + rest;
    StartsWithDashSpace(l, rest);
    if [45, 32] <= s {
      assert s[2..] == l[2..] + rest;
      if |l| > 2 {
        RestOfLine(l[2..], rest);
      } else {
        assert l[2..] + rest == rest == [];
      }
    } else {
      RestOfLine(l, rest);
      assert UnescapeFrom(s, true) == UnescapeFrom(s, false);
    }
  }

  /** The loops over lines escape exactly the dashes that start a line, and unescape exactly what starts a line with a
      dash and a space; all other octets are kept. */
  lemma {:induction false} LineByLine(s: bytes)
    ensures Escape(s) == EscapeFrom(s, true) && Unescape(s) == UnescapeFrom(s, true)
    decreases |s|
  {
    if s != [] {
      var n := LineLength(s);
      FirstLine(s);
      assert s == s[..n] + s[n..];
      EscapedFirst(s[..n], s[n..]);
      UnescapedFirst(s[..n], s[n..]);
      LineByLine(s[n..]);
    }
  }

  /** `signed_text`: what is hashed again for verification */
  function SignedText(encoded: bytes): bytes {
    Normal(Unescape(encoded), Crlf)
  }

  /** What a message is verified against is what was signed, `Normal(text)`. */
  lemma VerifiesWhatWasSigned(text: bytes)
    ensures SignedText(Escape(text)) == Normal(text, Crlf)
  {
    UnescapeEscape(text);
  }

  /** In an escaped text, a dash at the start of a line is followed by a space. */
  lemma {:induction false} LineInitialDash(s: bytes, p: nat)
    requires p < |Escape(s)| && Escape(s)[p] == DASH && (p == 0 || Escape(s)[p - 1] == LF)
    ensures p + 1 < |Escape(s)| && Escape(s)[p + 1] == SPACE
    decreases |s|
  {
    var l, more := EscapeStep(s);
    EscapedLine(l);
    var e, rest := EscapeLine(l), Escape(more);
    if p >= |e| {
      var q := p - |e|;
      assert rest[q] == DASH && (q == 0 || rest[q - 1] == LF);
      LineInitialDash(more, q);
      assert (e + rest)[p + 1] == rest[q + 1];
    } else {
      assert p == 0;
    }
  }

  /** The last octet is kept, and nothing comes of nothing. */
  lemma {:induction false} EscapeKeepsLast(s: bytes)
    ensures Escape(s) == [] <==> s == []
    ensures s != [] ==> Escape(s)[|Escape(s)| - 1] == s[|s| - 1]
    decreases |s|
  {
    if s != [] {
      var l, rest := EscapeStep(s);
      EscapedLine(l);
      EscapeKeepsLast(rest);
    }
  }

  // ---- The end of the text

  const DASHES: bytes := [DASH, DASH, DASH, DASH, DASH]
  const LF_DASHES: bytes := [LF, DASH, DASH, DASH, DASH, DASH]
  const CRLF_DASHES: bytes := [CR, LF, DASH, DASH, DASH, DASH, DASH]

  /** First position of a pattern */
  function Find(pat: bytes, s: bytes): (r: Option<nat>)
    ensures r.Some? ==> r.value <= |s|
  {
    if pat <= s then Some(0)
    else if s == [] then None
    else
      var k :- Find(pat, s[1..]);
      Some(k + 1)
  }

  /** `take_until1`: what is in front of the pattern, if anything */
  function TakeUntil1(pat: bytes, i: bytes): Parse<bytes> {
    var k := Find(pat, i);
    if k.None? then Incomplete else if k.value == 0 then Error else Parsed(i[..k.value], i[k.value..])
  }

  /** `cleartext_body` */
  function CleartextBody(i: bytes): Parse<bytes> {
    var crlf := TakeUntil1(CRLF_DASHES, i);
    var lines := if crlf.Parsed? then crlf else TakeUntil1(LF_DASHES, i);
    if !lines.Parsed? then Error
    else
      var (_, rest) :- LineEnding(lines.rest);
      Parsed(lines.value, rest)
  }

  /** A pattern that does not start in `x` is first found in `y`. */
  lemma {:induction false} FindSkip(pat: bytes, x: bytes, y: bytes)
    requires pat != [] && forall j :: 0 <= j < |x| ==> !(pat <= (x + y)[j..])
    ensures Find(pat, x + y) == if Find(pat, y).None? then None else Some(|x| + Find(pat, y).value)
  {
    if x == [] {
      assert x + y == y;
    } else {
      assert (x + y)[0..] == x + y;
      assert (x + y)[1..] == x[1..] + y;
      forall j | 0 <= j < |x[1..]| ensures !(pat <= (x[1..] + y)[j..]) {
        assert (x[1..] + y)[j..] == (x + y)[j + 1..];
      }
      FindSkip(pat, x[1..], y);
    }
  }

  /** No line of the escaped text looks like an armor header. */
  lemma NoArmorInside(text: bytes, y: bytes, j: nat)
    requires j < |Escape(text)| && y != [] && y[0] == LF
    ensures !(LF_DASHES <= (Escape(text) + y)[j..])
  {
    var e, i := Escape(text), Escape(text) + y;
    if LF_DASHES <= i[j..] {
      assert i[j] == i[j..][0] == LF && i[j + 1] == i[j..][1] == DASH && i[j + 2] == i[j..][2] == DASH;
      if j + 1 < |e| {
        LineInitialDash(text, j + 1);
      }
      assert false;
    }
  }

  lemma NoCrlfArmorInside(text: bytes, y: bytes, j: nat)
    requires j < |Escape(text)| && y != [] && y[0] == LF
    requires j == |Escape(text)| - 1 ==> Escape(text)[j] != CR
    ensures !(CRLF_DASHES <= (Escape(text) + y)[j..])
  {
    var i := Escape(text) + y;
    if CRLF_DASHES <= i[j..] {
      assert i[j] == i[j..][0] == CR;
      assert i[j + 1..] == i[j..][1..];
      assert LF_DASHES == CRLF_DASHES[1..];
      NoArmorInside(text, y, j + 1);
      assert false;
    }
  }

  // ---- The written form: the escaped text, a line feed, then armor

  lemma {:induction false} FindsLf(text: bytes, tail: bytes)
    requires DASHES <= tail
    ensures Find(LF_DASHES, Escape(text) + ([LF] + tail)) == Some(|Escape(text)|)
  {
    var e, y := Escape(text), [LF] + tail;
    forall j | 0 <= j < |e| ensures !(LF_DASHES <= (e + y)[j..]) {
      NoArmorInside(text, y, j);
    }
    assert LF_DASHES == [LF] + DASHES;
    FindSkip(LF_DASHES, e, y);
  }

  lemma FoundAtOnce(tail: bytes)
    requires DASHES <= tail
    ensures Find(CRLF_DASHES, [CR] + ([LF] + tail)) == Some(0)
  {
    assert CRLF_DASHES == [CR] + ([LF] + DASHES);
  }

  lemma FindsCrlf(text: bytes, tail: bytes)
    requires DASHES <= tail && text != [] && text[|text| - 1] == CR
    ensures Escape(text) != [] && Find(CRLF_DASHES, Escape(text) + ([LF] + tail)) == Some(|Escape(text)| - 1)
  {
    var e, y := Escape(text), [LF] + tail;
    EscapeKeepsLast(text);
    var x := WithoutLast(e, CR);
    Regroup(x, [CR], y);
    NoneInFront(text, y, x, [CR] + y);
    FoundAtOnce(tail);
    FindSkip(CRLF_DASHES, x, [CR] + y);
  }

  lemma WithoutLast(e: bytes, b: byte) returns (x: bytes)
    requires e != [] && e[|e| - 1] == b
    ensures e == x + [b] && |x| == |e| - 1
  {
    x := e[..|e| - 1];
  }

  lemma NoneInFront(text: bytes, y: bytes, x: bytes, z: bytes)
    requires y != [] && y[0] == LF && |x| < |Escape(text)| && x + z == Escape(text) + y
    ensures forall j :: 0 <= j < |x| ==> !(CRLF_DASHES <= (x + z)[j..])
  {
    forall j | 0 <= j < |x| ensures !(CRLF_DASHES <= (x + z)[j..]) {
      NoCrlfArmorInside(text, y, j);
    }
  }

  /** Otherwise it is found in what follows the text, if at all. */
  lemma {:induction false} FindsCrlfBehind(text: bytes, tail: bytes)
    requires text == [] || text[|text| - 1] != CR
    ensures Find(CRLF_DASHES, Escape(text) + ([LF] + tail))
         == if Find(CRLF_DASHES, tail).None? then None else Some(|Escape(text)| + 1 + Find(CRLF_DASHES, tail).value)
  {
    var e, y := Escape(text), [LF] + tail;
    EscapeKeepsLast(text);
    var x := e + [LF];
    Regroup(e, [LF], tail);
    forall j | 0 <= j < |x| ensures !(CRLF_DASHES <= (x + tail)[j..]) {
      if j < |e| {
        NoCrlfArmorInside(text, y, j);
      } else {
        assert (x + tail)[j..][0] == LF;
      }
    }
    FindSkip(CRLF_DASHES, x, tail);
  }

  lemma EndsLine(tail: bytes)
    ensures LineEnding([LF] + tail) == Parsed([LF], tail)
  {
    TagAppend([LF], tail);
  }

  /** The text is found again exactly when it is a lone carriage return, or is not empty, does not end with a carriage
      return, and no CRLF with dashes comes later: the parser looks for that first, in all of its input. */
  lemma BodyRecovered(text: bytes, tail: bytes)
    requires DASHES <= tail
    ensures CleartextBody(Escape(text) + ([LF] + tail)) == Parsed(Escape(text), tail)
            <==> text == [CR] || (text != [] && text[|text| - 1] != CR && Find(CRLF_DASHES, tail).None?)
  {
    if text != [] && text[|text| - 1] == CR {
      BodyBeforeCrlf(text, tail);
    } else {
      BodyBeforeLf(text, tail);
    }
  }

  /** The first place of a CRLF with dashes decides: nowhere or at once leaves the choice to the line feed. */
  lemma BodyCut(e: bytes, tail: bytes, crlf: Option<nat>)
    requires Find(LF_DASHES, e + ([LF] + tail)) == Some(|e|) && Find(CRLF_DASHES, e + ([LF] + tail)) == crlf
    requires crlf.Some? ==> crlf.value != |e|
    ensures CleartextBody(e + ([LF] + tail)) == Parsed(e, tail) <==> e != [] && (crlf.None? || crlf == Some(0))
  {
    var i := e + ([LF] + tail);
    Split(e, [LF] + tail);
    EndsLine(tail);
    if crlf.Some? && crlf.value > 0 {
      assert |i[..crlf.value]| != |e|;
    }
  }

  lemma BodyBeforeCrlf(text: bytes, tail: bytes)
    requires DASHES <= tail && text != [] && text[|text| - 1] == CR
    ensures CleartextBody(Escape(text) + ([LF] + tail)) == Parsed(Escape(text), tail) <==> text == [CR]
  {
    FindsLf(text, tail);
    FindsCrlf(text, tail);
    CrOnly(text);
    BodyCut(Escape(text), tail, Some(|Escape(text)| - 1));
  }

  lemma BodyBeforeLf(text: bytes, tail: bytes)
    requires DASHES <= tail && (text == [] || text[|text| - 1] != CR)
    ensures CleartextBody(Escape(text) + ([LF] + tail)) == Parsed(Escape(text), tail)
            <==> text != [] && Find(CRLF_DASHES, tail).None?
  {
    EscapeKeepsLast(text);
    FindsLf(text, tail);
    FindsCrlfBehind(text, tail);
    BodyCut(Escape(text), tail, Find(CRLF_DASHES, Escape(text) + ([LF] + tail)));
  }

  lemma CrOnly(text: bytes)
    requires text != [] && text[|text| - 1] == CR
    ensures |Escape(text)| == 1 <==> text == [CR]
  {
    if text == [CR] {
      assert text[..LineLength(text)] == [CR] && text[LineLength(text)..] == [];
    } else if |Escape(text)| == 1 {
      EscapeGrows(text);
    }
  }

  lemma {:induction false} EscapeGrows(s: bytes)
    ensures |Escape(s)| >= |s|
    decreases |s|
  {
    if s != [] {
      EscapeGrows(s[LineLength(s)..]);
    }
  }

  // ---- What one look into the buffer shows

  /** `read_from_buf`: the parser sees what `fill_buf` shows. A parser that asks for more is called once more on the
      same buffer, since nothing has been consumed. The result is the value and the number of octets consumed. */
  method ReadFromBuf<T>(buf: bytes, parser: bytes -> Parse<T>) returns (r: Option<(T, int)>)
    ensures r == match parser(buf)
                 case Parsed(v, rest) => if buf == [] then None else Some((v, |buf| - |rest|))
                 case _ => None
  {
    var lastWasIncomplete := false;
    while true
      decreases !lastWasIncomplete
    {
      if buf == [] {
        return None;
      }
      match parser(buf) {
        case Parsed(v, rest) =>
          return Some((v, |buf| - |rest|));
        case Incomplete =>
          if lastWasIncomplete {
            return None;
          }
          lastWasIncomplete := true;
        case Error =>
          return None;
      }
    }
  }

  lemma {:induction false} NotFound(pat: bytes, s: bytes)
    requires pat != [] && forall j :: 0 <= j < |s| ==> !(pat <= s[j..])
    ensures Find(pat, s).None?
  {
    if s != [] {
      assert s[0..] == s;
      forall j | 0 <= j < |s| - 1 ensures !(pat <= s[1..][j..]) {
        assert s[1..][j..] == s[j + 1..];
      }
      NotFound(pat, s[1..]);
    }
  }

  /** In a buffer that does not reach past the line feed and the five dashes, nothing is found. */
  lemma NothingShown(text: bytes, tail: bytes, buf: bytes, j: nat)
    requires buf <= Escape(text) + ([LF] + tail) && |buf| < |Escape(text)| + 6 && j < |buf|
    ensures !(LF_DASHES <= buf[j..])
  {
    var i := Escape(text) + ([LF] + tail);
    if LF_DASHES <= buf[j..] {
      assert j < |Escape(text)|;
      assert buf[j..] <= i[j..];
      NoArmorInside(text, [LF] + tail, j);
      assert false;
    }
  }

  lemma CrlfShown(buf: bytes, j: nat)
    requires j < |buf| && CRLF_DASHES <= buf[j..]
    ensures j + 1 < |buf| && LF_DASHES <= buf[j + 1..]
  {
    assert buf[j + 1..] == buf[j..][1..];
    assert LF_DASHES == CRLF_DASHES[1..];
  }

  /** A buffer that ends too early is refused: the parser does not ask for more. */
  lemma ShortBufferFails(text: bytes, tail: bytes, buf: bytes)
    requires buf <= Escape(text) + ([LF] + tail) && |buf| < |Escape(text)| + 6
    ensures CleartextBody(buf) == Error
  {
    forall j | 0 <= j < |buf| ensures !(LF_DASHES <= buf[j..]) && !(CRLF_DASHES <= buf[j..]) {
      NothingShown(text, tail, buf, j);
      if CRLF_DASHES <= buf[j..] {
        CrlfShown(buf, j);
        NothingShown(text, tail, buf, j + 1);
      }
    }
    NotFound(LF_DASHES, buf);
    NotFound(CRLF_DASHES, buf);
  }

  /** Exactly when the body is found in what the buffer shows: the buffer must reach past the line feed and the five
      dashes behind the text, and the conditions on the text hold for what the buffer shows of the rest. */
  lemma BodyInBuffer(text: bytes, tail: bytes, buf: bytes)
    requires DASHES <= tail && buf <= Escape(text) + ([LF] + tail)
    ensures var n := |Escape(text)| + 1;
            CleartextBody(buf) == Parsed(Escape(text), if |buf| < n then [] else buf[n..])
            <==> && |buf| >= n + 5
                 && (text == [CR]
                     || (text != [] && text[|text| - 1] != CR && Find(CRLF_DASHES, buf[n..]).None?))
  {
    var e := Escape(text);
    var n := |e| + 1;
    if |buf| < n + 5 {
      ShortBufferFails(text, tail, buf);
    } else {
      var shown := buf[n..];
      Regroup(e, [LF], tail);
      Shown(e + [LF], tail, buf, shown);
      Regroup(e, [LF], shown);
      BodyRecovered(text, shown);
    }
  }

  lemma Shown(front: bytes, tail: bytes, buf: bytes, shown: bytes)
    requires buf <= front + tail && |buf| >= |front| + 5 && DASHES <= tail && shown == buf[|front|..]
    ensures buf == front + shown && DASHES <= shown
  {
    assert forall k :: 0 <= k < 5 ==> shown[k] == (front + tail)[|front| + k] == tail[k];
    assert shown[..5] == tail[..5];
  }

  // ---- A message that this library writes

  lemma FirstOfPrefix(p: bytes, s: bytes)
    requires p != [] && p <= s
    ensures p[0] in s
  {
    assert s[0] == p[0];
  }

  lemma {:induction false} NothingFound(s: bytes)
    requires CR !in s
    ensures Find(CRLF_DASHES, s).None?
  {
    if CRLF_DASHES <= s {
      FirstOfPrefix(CRLF_DASHES, s);
      assert false;
    } else if s != [] {
      NothingFound(s[1..]);
    }
  }

  lemma {:induction false} WrappedHasNoCr(e: bytes, n: nat)
    requires n > 0 && CR !in e
    ensures CR !in Wrapped(e, n, [LF])
    decreases |e|
  {
    if |e| >= n {
      WrappedUnfold(e, n, [LF]);
      WrappedHasNoCr(e[n..], n);
    }
  }

  /** The armored signature, with its header line and no armor headers */
  function SignatureArmor(data: bytes, crc: Option<nat>): bytes {
    SIGNATURE_HEADER + Written(data, crc, Signature, []).Bytes()
  }

  lemma FooterHasNoCr()
    ensures CR !in FooterText(Signature, [LF])
  {
    assert CR !in Text("-----END ") && CR !in Text(Name(Signature)) && CR !in Text("-----");
  }

  lemma ArmorHasNoCr(data: bytes, crc: Option<nat>)
    ensures CR !in Written(data, crc, Signature, []).Bytes()
  {
    var a := Written(data, crc, Signature, []);
    EncodedIsTokens(data);
    WrappedHasNoCr(Encode(data), LINE);
    ChecksumIsTokens(crc);
    assert CR !in ChecksumText(crc);
    FooterHasNoCr();
    AppendNothing(FooterText(Signature, [LF]));
    NoCrTogether(a.nl, a.Footer());
    NoCrTogether(ChecksumText(crc), a.nl + a.Footer());
    NoCrTogether(a.body, ChecksumText(crc) + (a.nl + a.Footer()));
  }

  lemma NoCrTogether(a: bytes, b: bytes)
    requires CR !in a && CR !in b
    ensures CR !in a + b
  {
  }

  const SIGNATURE_HEADER: bytes := Text("-----") + (Text("BEGIN PGP SIGNATURE") + Text("-----\n\n"))

  lemma HeaderStarts()
    ensures DASHES <= SIGNATURE_HEADER && CR !in SIGNATURE_HEADER
  {
    var name, close := Text("BEGIN PGP SIGNATURE"), Text("-----\n\n");
    assert Text("-----") == DASHES;
    assert CR !in name && CR !in close;
    StartsAppend(DASHES, name + close);
  }

  lemma StartsAppend(a: bytes, b: bytes)
    requires DASHES <= a && CR !in a && CR !in b
    ensures DASHES <= a + b && CR !in a + b
  {
  }

  lemma SignatureArmorStarts(data: bytes, crc: Option<nat>)
    ensures DASHES <= SignatureArmor(data, crc) && CR !in SignatureArmor(data, crc)
  {
    HeaderStarts();
    ArmorHasNoCr(data, crc);
    StartsAppend(SIGNATURE_HEADER, Written(data, crc, Signature, []).Bytes());
  }

  /** `to_armored_writer` after the header: the escaped text, a line feed and the signatures */
  function WrittenMessage(text: bytes, data: bytes, crc: Option<nat>): bytes {
    Escape(text) + ([LF] + SignatureArmor(data, crc))
  }

  /** The reader finds a written body again, verifies what was signed, and leaves exactly the signature's armor, if and
      only if its buffer shows the whole body, the line feed and five dashes, and the text is not empty and does not
      end with a carriage return, unless it is one. `left` is what remains of the stream. */
  lemma WrittenMessageVerifies(text: bytes, data: bytes, crc: Option<nat>, buf: bytes, left: bytes)
    requires buf + left == WrittenMessage(text, data, crc)
    ensures var r := CleartextBody(buf);
            (r.Parsed? && r.value == Escape(text) && r.rest + left == SignatureArmor(data, crc))
            <==> |buf| >= |Escape(text)| + 6 && text != [] && (text == [CR] || text[|text| - 1] != CR)
    ensures SignedText(Escape(text)) == Normal(text, Crlf)
  {
    var tail, n := SignatureArmor(data, crc), |Escape(text)| + 1;
    SignatureArmorStarts(data, crc);
    VerifiesWhatWasSigned(text);
    BodyInBuffer(text, tail, buf);
    if |buf| >= n {
      Regroup(Escape(text), [LF], tail);
      Remainder(Escape(text) + [LF], tail, buf, left);
      assert forall b :: b in buf[n..] ==> b in tail;
      NothingFound(buf[n..]);
    } else {
      ShortBufferFails(text, tail, buf);
    }
  }

  lemma Remainder(front: bytes, tail: bytes, buf: bytes, left: bytes)
    requires buf + left == front + tail && |front| <= |buf|
    ensures buf[|front|..] + left == tail && forall rest :: rest + left == tail <==> rest == buf[|front|..]
  {
    CutFront(buf, left, |front|);
    Split(front, tail);
    forall rest ensures rest + left == tail <==> rest == buf[|front|..] {
      if rest + left == tail {
        SplitEqualEnd(rest, left, buf[|front|..], left);
      }
    }
  }
}

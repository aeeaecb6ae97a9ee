/** Line ending normalization (`src/normalize_lines.rs`): an iterator with one octet of lookahead. */
module NormalizeLines {
  import opened Bytes

  const CR: byte := 13
  const LF: byte := 10

  datatype LineBreak = Crlf | Cr

  function BreakBytes(b: LineBreak): bytes {
    if b.Crlf? then [CR, LF] else [CR]
  }

  /** The octets after one line feed, if there is one. */
  function DropLf(s: bytes): (r: bytes)
    ensures |r| <= |s|
  {
    if s != [] && s[0] == LF then s[1..] else s
  }

  /** What normalization means: each CRLF, lone CR and lone LF becomes one line break. */
  function Normal(s: bytes, b: LineBreak): bytes
    decreases |s|
  {
    if s == [] then []
    else if s[0] == CR then BreakBytes(b) + Normal(DropLf(s[1..]), b)
    else if s[0] == LF then BreakBytes(b) + Normal(s[1..], b)
    else [s[0]] + Normal(s[1..], b)
  }

  class Normalized {
    const lineBreak: LineBreak
    var iter: bytes
    var prevWasCr: bool

    constructor (input: bytes, lineBreak: LineBreak)
      ensures iter == input && !prevWasCr && this.lineBreak == lineBreak
    {
      this.iter, this.prevWasCr, this.lineBreak := input, false, lineBreak;
    }

    /** Everything the iterator has still to deliver. */
    ghost function Pending(): bytes
      reads this
    {
      if !prevWasCr then Normal(iter, lineBreak)
      else if lineBreak.Crlf? then [LF] + Normal(DropLf(iter), Crlf)
      else Normal(DropLf(iter), Cr)
    }

    /** Steps left that consume no octet are at most one per octet: this makes `Next` reach the end. */
    ghost function Steps(): nat
      reads this
    {
      2 * |iter| + if (iter != [] && iter[0] == LF) != prevWasCr then 1 else 0
    }

    /** `next`: the first pending octet, or nothing once all are delivered. */
    method Next() returns (r: Option<byte>)
      modifies this
      ensures old(Pending()) == [] <==> r.None?
      ensures r.Some? ==> old(Pending()) == [r.value] + Pending() && Steps() < old(Steps())
      ensures r.None? ==> Pending() == [] && iter == []
      decreases |iter|
    {
      if iter != [] && iter[0] == LF {
        if lineBreak.Cr? {
          iter := iter[1..];
          if prevWasCr {
            prevWasCr := false;
            r := Next();
          } else {
            r := Some(CR);
          }
        } else if prevWasCr {
          prevWasCr := false;
          r := Some(iter[0]);
          iter := iter[1..];
        } else {
          prevWasCr := true;
          r := Some(CR);
        }
      } else if iter != [] && iter[0] == CR {
        if lineBreak.Cr? {
          prevWasCr := true;
          r := Some(iter[0]);
          iter := iter[1..];
        } else if prevWasCr {
          prevWasCr := false;
          r := Some(LF);
        } else {
          prevWasCr := true;
          r := Some(iter[0]);
          iter := iter[1..];
        }
      } else if lineBreak.Crlf? && prevWasCr {
        prevWasCr := false;
        r := Some(LF);
      } else {
        prevWasCr := false;
        if iter == [] {
          r := None;
        } else {
          r := Some(iter[0]);
          iter := iter[1..];
        }
      }
    }

    /** `collect()`: the iterator stops, and delivers the normal form of its input. */
    method Collect() returns (out: bytes)
      modifies this
      ensures out == old(Pending()) && iter == []
    {
      out := [];
      var r := Next();
      while r.Some?
        invariant old(Pending()) == out + if r.Some? then [r.value] + Pending() else []
        invariant r.None? ==> iter == []
        decreases r.Some?, Steps()
      {
        Regroup(out, [r.value], Pending());
        out := out + [r.value];
        r := Next();
      }
    }
  }

  /** Normalizing to CRLF once more, or after normalizing to CR, changes nothing. */
  lemma {:induction false} NormalAbsorbs(s: bytes, b: LineBreak)
    ensures Normal(Normal(s, b), Crlf) == Normal(s, Crlf)
    decreases |s|
  {
    if s == [] {
    } else if s[0] == CR || s[0] == LF {
      var rest := if s[0] == CR then DropLf(s[1..]) else s[1..];
      var n := Normal(rest, b);
      NormalAbsorbs(rest, b);
      if b.Crlf? {
        assert ([CR, LF] + n)[1..][1..] == n;
      } else {
        NormalStartsWithCr(rest);
        assert ([CR] + n)[1..] == n;
      }
    } else {
      NormalAbsorbs(s[1..], b);
      assert ([s[0]] + Normal(s[1..], b))[1..] == Normal(s[1..], b);
    }
  }

  /** A CR-normalized text has no line feed to be dropped after a CR. */
  lemma NormalStartsWithCr(s: bytes)
    ensures DropLf(Normal(s, Cr)) == Normal(s, Cr)
  {
  }

  // ---- Texts as lines

  /** A line and the line break behind it */
  datatype Line = Line(text: bytes, end: bytes)

  ghost predicate Plain(s: bytes) { forall k :: 0 <= k < |s| ==> s[k] != 13 && s[k] != 10 }

  function Assembled(lines: seq<Line>, last: bytes): bytes {
    if lines == [] then last else lines[0].text + (lines[0].end + Assembled(lines[1..], last))
  }

  /** Lines end with CRLF, LF or CR, a CR not in front of an LF. */
  ghost predicate AreLines(lines: seq<Line>, last: bytes) {
    if lines == [] then Plain(last)
    else
      var next := Assembled(lines[1..], last);
      && Plain(lines[0].text) && lines[0].end in {[13, 10], [10], [13]}
      && (lines[0].end == [13] && next != [] ==> next[0] != 10) && AreLines(lines[1..], last)
  }

  function WithEnds(lines: seq<Line>, end: bytes): seq<Line> {
    if lines == [] then [] else [Line(lines[0].text, end)] + WithEnds(lines[1..], end)
  }

  lemma {:induction false} PlainKept(t: bytes, s: bytes, b: LineBreak)
    requires Plain(t)
    ensures Normal(t + s, b) == t + Normal(s, b)
  {
    if t == [] {
      assert t + s == s;
    } else {
      assert (t + s)[1..] == t[1..] + s;
      PlainKept(t[1..], s, b);
      assert t == [t[0]] + t[1..];
      Regroup([t[0]], t[1..], Normal(s, b));
    }
  }

  lemma EndReplaced(end: bytes, s: bytes, b: LineBreak)
    requires end in {[13, 10], [10], [13]} && (end == [13] && s != [] ==> s[0] != 10)
    ensures Normal(end + s, b) == BreakBytes(b) + Normal(s, b)
  {
    var t := end + s;
    if end == [13, 10] {
      assert t[1..] == [10] + s && ([10] + s)[1..] == s;
    } else {
      assert t[1..] == s;
    }
  }

  /** Normalizing replaces the end of each line, CRLF, LF or CR alike, and keeps the lines. */
  lemma {:induction false} NormalReplacesEnds(lines: seq<Line>, last: bytes, b: LineBreak)
    requires AreLines(lines, last)
    ensures Normal(Assembled(lines, last), b) == Assembled(WithEnds(lines, if b.Crlf? then [13, 10] else [13]), last)
  {
    if lines == [] {
      PlainKept(last, [], b);
      AppendNothing(last);
    } else {
      var l, next := lines[0], Assembled(lines[1..], last);
      PlainKept(l.text, l.end + next, b);
      EndReplaced(l.end, next, b);
      NormalReplacesEnds(lines[1..], last, b);
      var w := WithEnds(lines, BreakBytes(b));
      assert w[1..] == WithEnds(lines[1..], BreakBytes(b));
    }
  }

  /** Every text is made of such lines. */
  lemma {:induction false} EveryTextHasLines(s: bytes) returns (lines: seq<Line>, last: bytes)
    ensures AreLines(lines, last) && s == Assembled(lines, last)
    decreases |s|
  {
    if s == [] {
      lines, last := [], [];
    } else if s[0] == 13 || s[0] == 10 {
      var n := if s[0] == 13 && |s| > 1 && s[1] == 10 then 2 else 1;
      var more;
      more, last := EveryTextHasLines(s[n..]);
      lines := [Line([], s[..n])] + more;
      assert lines[1..] == more;
      assert s == s[..n] + s[n..];
      assert s[..n] == if n == 2 then [13, 10] else [s[0]];
    } else {
      lines, last := EveryTextHasLines(s[1..]);
      assert s == [s[0]] + s[1..];
      if lines == [] {
        last := [s[0]] + last;
      } else {
        var l, more := lines[0], lines[1..];
        lines := [Line([s[0]] + l.text, l.end)] + more;
        assert lines[1..] == more;
        Regroup([s[0]], l.text, l.end + Assembled(more, last));
      }
    }
  }
}

/** Splitting written octets into lines (`src/line_writer.rs`, `write_all` of `src/util.rs`). */
module LineWriter {
  import opened Bytes

  // ---- What the output should be

  /** The full lines of `s`, each with its line break */
  function FullLines(s: bytes, n: nat, lb: bytes): bytes
    requires n > 0
  {
    if |s| < n then [] else s[..n] + lb + FullLines(s[n..], n, lb)
  }

  /** `s` in lines of `n` octets, the last one possibly shorter, each ended by a line break */
  function Wrapped(s: bytes, n: nat, lb: bytes): bytes
    requires n > 0
  {
    FullLines(s, n, lb) + if Tail(s, n) == [] then [] else Tail(s, n) + lb
  }

  lemma {:induction false} ShortWrite(s: bytes, x: bytes, n: nat, lb: bytes)
    requires n > 0 && |Tail(s, n)| + |x| < n
    ensures FullLines(s + x, n, lb) == FullLines(s, n, lb) && Tail(s + x, n) == Tail(s, n) + x
  {
    if |s| >= n {
      assert (s + x)[..n] == s[..n] && (s + x)[n..] == s[n..] + x;
      ShortWrite(s[n..], x, n, lb);
    }
  }

  lemma {:induction false} LineWrite(s: bytes, x: bytes, n: nat, lb: bytes)
    requires n > 0 && |Tail(s, n)| + |x| == n
    ensures FullLines(s + x, n, lb) == FullLines(s, n, lb) + (Tail(s, n) + x + lb) && Tail(s + x, n) == []
  {
    if |s| >= n {
      assert (s + x)[..n] == s[..n] && (s + x)[n..] == s[n..] + x;
      LineWrite(s[n..], x, n, lb);
      Regroup(s[..n] + lb, FullLines(s[n..], n, lb), Tail(s, n) + x + lb);
    } else {
      assert (s + x)[..n] == s + x && (s + x)[n..] == [];
    }
  }

  // ---- The lines of the output

  function Lines(s: bytes, n: nat): seq<bytes>
    requires n > 0
  {
    if s == [] then [] else if |s| < n then [s] else [s[..n]] + Lines(s[n..], n)
  }

  function Joined(lines: seq<bytes>, lb: bytes): bytes {
    if lines == [] then [] else lines[0] + lb + Joined(lines[1..], lb)
  }

  /** For every line break and all data, also data with line breaks in it, the wrapping is a sequence of lines, each
      with a line break behind it. No line is empty or longer than `n`, all but the last are exactly `n` long, and
      without the line breaks they are the data. */
  lemma {:induction false} NoEmptyLine(s: bytes, n: nat, lb: bytes)
    requires n > 0
    ensures Wrapped(s, n, lb) == Joined(Lines(s, n), lb) && Concat(Lines(s, n)) == s
    ensures forall k :: 0 <= k < |Lines(s, n)| ==>
              0 < |Lines(s, n)[k]| <= n && (k < |Lines(s, n)| - 1 ==> |Lines(s, n)[k]| == n)
    decreases |s|
  {
    if |s| < n {
      OneLine(s, n, lb);
    } else {
      var line, rest := s[..n], Lines(s[n..], n);
      WrappedUnfold(s, n, lb);
      NoEmptyLine(s[n..], n, lb);
      assert ([line] + rest)[1..] == rest;
      assert line + s[n..] == s;
    }
  }

  lemma OneLine(s: bytes, n: nat, lb: bytes)
    requires |s| < n
    ensures Wrapped(s, n, lb) == Joined(Lines(s, n), lb) && Concat(Lines(s, n)) == s
  {
    if s != [] {
      assert [s][1..] == [];
      AppendNothing(s);
      AppendNothing(s + lb);
      assert [] + (s + lb) == s + lb;
    }
  }

  lemma WrappedUnfold(s: bytes, n: nat, lb: bytes)
    requires n > 0 && |s| >= n
    ensures Wrapped(s, n, lb) == s[..n] + lb + Wrapped(s[n..], n, lb)
  {
    Regroup(s[..n] + lb, FullLines(s[n..], n, lb), if Tail(s, n) == [] then [] else Tail(s, n) + lb);
  }

  // ---- The writer

  datatype FinishResult = FinishOk | FirstFailed | SecondFailed

  class LineWriter {
    const n: nat
    const lineBreak: bytes
    const extra: array<byte>
    const buffer: array<byte>
    var extraLen: nat
    var finished: bool
    /** What the inner writer has received */
    var sink: bytes
    /** What the callers of `Write` have been told is accepted */
    ghost var accepted: bytes

    ghost predicate Valid()
      reads this, extra
    {
      && n > 0 && |lineBreak| <= 2 && extra.Length == n && buffer.Length == n + 2 && extra != buffer
      && extraLen < n
      && (!finished ==> extra[..extraLen] == Tail(accepted, n) && sink == FullLines(accepted, n, lineBreak))
      && (finished ==> sink == Wrapped(accepted, n, lineBreak))
    }

    constructor (n: nat, lineBreak: bytes)
      requires n > 0 && |lineBreak| <= 2
      ensures Valid() && !finished && accepted == [] && fresh(extra) && fresh(buffer)
      ensures this.n == n && this.lineBreak == lineBreak
    {
      this.n, this.lineBreak := n, lineBreak;
      extra, buffer := new byte[n](_ => 0), new byte[n + 2](_ => 0);
      extraLen, finished, sink, accepted := 0, false, [], [];
    }

    /** `write`; `fails` says whether the inner writer refuses this call. It accepts a nonempty part of a nonempty
        input, or fails and leaves the logical state unchanged. The buffers are never overrun. */
    method Write(input: bytes, fails: bool) returns (r: Option<nat>)
      requires Valid() && !finished
      modifies this, extra, buffer
      ensures Valid() && !finished
      ensures r.Some? ==> r.value <= |input| && (input != [] ==> r.value > 0)
                          && accepted == old(accepted) + input[..r.value]
      ensures r.None? ==> fails && accepted == old(accepted) && sink == old(sink)
                          && extraLen == old(extraLen) && extra[..] == old(extra[..])
    {
      if input == [] {
        AppendNothing(accepted);
        return Some(0);
      }
      if extraLen + |input| < n {
        ShortWrite(accepted, input, n, lineBreak);
        CopyFromSlice(extra, extraLen, input);
        extraLen := extraLen + |input|;
        accepted := accepted + input;
        assert input[..|input|] == input;
        return Some(|input|);
      }
      var missing := n - extraLen;
      FillBuffer(input[..missing]);
      if fails {
        return None;
      }
      LineWrite(accepted, input[..missing], n, lineBreak);
      sink := sink + buffer[..n + |lineBreak|];
      accepted := accepted + input[..missing];
      extraLen := 0;
      return Some(missing);
    }

    /** The held-back octets, the missing ones and the line break make one line. */
    method FillBuffer(missing: bytes)
      requires Valid() && extraLen + |missing| == n
      modifies buffer
      ensures buffer[..n + |lineBreak|] == extra[..extraLen] + missing + lineBreak
    {
      CopyFromSlice(buffer, 0, extra[..extraLen]);
      assert buffer[..extraLen] == extra[..extraLen];
      CopyFromSlice(buffer, extraLen, missing);
      CopyFromSlice(buffer, n, lineBreak);
    }

    /** `finish`, whose first or second write to the inner writer may fail. The second failure leaves the last
        line in the output and in the buffer, so that `Valid` is lost. */
    method Finish(fails: FinishResult) returns (r: FinishResult)
      requires extra.Length == n && extraLen < n
      modifies this
      ensures accepted == old(accepted) && (r == FinishOk || r == fails)
      ensures r.FinishOk? ==> finished
      ensures r.FinishOk? ==>
                sink == old(sink) + if old(finished) || old(extraLen) == 0 then [] else old(extra[..extraLen]) + lineBreak
      ensures r.FirstFailed? ==> !finished && sink == old(sink) && extraLen == old(extraLen)
      ensures r.SecondFailed? ==> !finished && sink == old(sink) + old(extra[..extraLen]) && extraLen == old(extraLen)
      ensures fails.FinishOk? || old(finished) || old(extraLen) == 0 ==> r.FinishOk?
      ensures old(finished) || old(extraLen) == 0 || r == fails
      ensures extraLen <= old(extraLen)
    {
      if finished {
        AppendNothing(sink);
        return FinishOk;
      }
      if extraLen > 0 {
        if fails.FirstFailed? {
          return FirstFailed;
        }
        Regroup(sink, extra[..extraLen], lineBreak);
        sink := sink + extra[..extraLen];
        if fails.SecondFailed? {
          return SecondFailed;
        }
        sink := sink + lineBreak;
        extraLen := 0;
      } else {
        AppendNothing(sink);
      }
      finished := true;
      r := FinishOk;
    }
  }

  /** What the inner writer does when it is called: it works, is interrupted, or fails for good. */
  datatype Fault = NoFault | Interrupted | Broken

  /** `write_all`, where `faults` are met by one call of `write` after the other: it tries again after interruptions,
      and stops with everything accepted or at a failure, with a part of the data accepted and the writer intact. */
  method WriteAll(w: LineWriter, data: bytes, faults: seq<Fault>) returns (ok: bool, n: nat)
    requires w.Valid() && !w.finished
    modifies w, w.extra, w.buffer
    ensures w.Valid() && !w.finished && n <= |data| && w.accepted == old(w.accepted) + data[..n]
    ensures ok ==> n == |data|
    ensures !ok ==> n < |data| && Broken in faults
  {
    n := 0;
    var k := 0;
    AppendNothing(w.accepted);
    while n < |data|
      invariant w.Valid() && !w.finished && n <= |data| && k <= |faults|
      invariant w.accepted == old(w.accepted) + data[..n]
      decreases |data| - n, |faults| - k
    {
      var fault := if k < |faults| then faults[k] else NoFault;
      k := if k < |faults| then k + 1 else k;
      var r := w.Write(data[n..], fault != NoFault);
      if r.Some? {
        Extended(old(w.accepted), data, n, r.value);
        n := n + r.value;
      } else if fault.Broken? {
        return false, n;
      }
    }
    return true, n;
  }

  lemma Extended(a: bytes, data: bytes, n: nat, m: nat)
    requires n + m <= |data|
    ensures a + data[..n] + data[n..][..m] == a + data[..n + m]
  {
    assert data[..n] + data[n..][..m] == data[..n + m];
    Regroup(a, data[..n], data[n..][..m]);
  }

  /** However the writes are cut, the finished output is the wrapping of all that was written. */
  method WrapPieces(pieces: seq<bytes>, n: nat, lineBreak: bytes) returns (out: bytes)
    requires n > 0 && |lineBreak| <= 2
    ensures out == Wrapped(Concat(pieces), n, lineBreak)
  {
    var w := new LineWriter(n, lineBreak);
    for k := 0 to |pieces|
      invariant w.Valid() && !w.finished && fresh(w) && fresh(w.extra) && fresh(w.buffer)
      invariant w.n == n && w.lineBreak == lineBreak && w.accepted == Concat(pieces[..k])
    {
      var ok, n := WriteAll(w, pieces[k], []);
      assert pieces[k][..n] == pieces[k];
      ConcatAppend(pieces[..k], pieces[k]);
      assert pieces[..k + 1] == pieces[..k] + [pieces[k]];
    }
    assert pieces[..|pieces|] == pieces;
    assert w.extraLen == |Tail(w.accepted, n)|;
    var _ := w.Finish(FinishOk);
    out := w.sink;
  }

  /** Retrying `finish` after a failure gives the wrapped output exactly when nothing had been written: the
      documentation promises it for every failure, but the second write's failure repeats the last line. */
  method RetryFinish(w: LineWriter, fails: FinishResult) returns (first: FinishResult)
    requires w.Valid() && !w.finished && w.lineBreak != []
    modifies w
    ensures w.finished
    ensures w.sink == Wrapped(w.accepted, w.n, w.lineBreak)
            <==> !fails.SecondFailed? || Tail(w.accepted, w.n) == []
  {
    ghost var tail := w.extra[..w.extraLen];
    assert w.extraLen == |tail|;
    first := w.Finish(fails);
    ghost var before := w.sink;
    var _ := w.Finish(FinishOk);
    if first.SecondFailed? {
      assert |w.sink| == |FullLines(w.accepted, w.n, w.lineBreak)| + 2 * |tail| + |w.lineBreak|;
      assert |Wrapped(w.accepted, w.n, w.lineBreak)|
          == |FullLines(w.accepted, w.n, w.lineBreak)| + |tail| + |w.lineBreak|;
    } else {
      AppendNothing(before);
    }
  }
}

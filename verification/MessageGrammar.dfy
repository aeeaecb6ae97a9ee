/** The language of the message parser (`src/composed/message/parser.rs`), with markers and padding where they are
    allowed, and what it makes of everything else. */
module MessageGrammar {
  import opened Bytes
  import opened PacketItems
  import opened Messages

  // ---- Where markers and padding may stand

  /** Nothing but markers and padding */
  ghost predicate Fill(s: seq<Item>) {
    forall k :: 0 <= k < |s| ==> s[k].Ok? && (s[k].packet.Marker? || s[k].packet.Padding?)
  }

  /** The number of markers and padding packets at the front */
  function FillLength(s: seq<Item>): (n: nat)
    ensures n <= |s|
  {
    if s != [] && s[0].Ok? && (s[0].packet.Marker? || s[0].packet.Padding?) then 1 + FillLength(s[1..]) else 0
  }

  /** The packets of a message, with any number of markers and padding packets in front of it and of each message in
      it; a signature that signs nothing has only such packets behind it. */
  ghost predicate Spells(m: Message, t: seq<Item>)
    decreases m, 1
  {
    SpellsCore(m, t[FillLength(t)..])
  }

  ghost predicate SpellsCore(m: Message, t: seq<Item>)
    decreases m, 0
  {
    match m
    case Literal(d) => t == [Ok(LiteralData(d))]
    case Compressed(d) => t == [Ok(CompressedData(d))]
    case Encrypted(esk, edata) => esk != [] && t == Items<Packet>(esk) + [Ok(edata)]
    case Signed(None, None, sig) => t != [] && t[0] == Ok(Signature(sig)) && Fill(t[1..])
    case Signed(Some(inner), None, sig) => t != [] && t[0] == Ok(Signature(sig)) && Spells(inner, t[1..])
    case Signed(None, Some(_), _) => false
    case Signed(Some(inner), Some(ops), sig) =>
      && |t| >= 2 && t[0] == Ok(OnePassSignature(ops)) && t[|t| - 1] == Ok(Signature(sig))
      && !Open(inner) && Spells(inner, t[1..|t| - 1])
  }

  lemma {:induction false} FillSkipped(s: seq<Item>)
    ensures Next(s) == Next(s[FillLength(s)..]) && Fill(s[..FillLength(s)])
  {
    if FillLength(s) > 0 {
      FillSkipped(s[1..]);
      assert s[1..][FillLength(s[1..])..] == s[FillLength(s)..];
      assert s[..FillLength(s)] == [s[0]] + s[1..][..FillLength(s[1..])];
    }
  }

  /** Behind the markers and padding at the front comes something else. */
  lemma {:induction false} FillEnds(s: seq<Item>)
    ensures var n := FillLength(s);
            n < |s| ==> s[n].Err? || (!s[n].packet.Marker? && !s[n].packet.Padding?)
    ensures FillLength(s) == |s| <==> Fill(s)
    ensures FillLength(s[FillLength(s)..]) == 0
  {
    if FillLength(s) > 0 {
      FillEnds(s[1..]);
      assert s[1..][FillLength(s[1..])..] == s[FillLength(s)..];
      if Fill(s[1..]) {
        assert forall k :: 0 <= k < |s| ==> s[k] == if k == 0 then s[0] else s[1..][k - 1];
      }
      if Fill(s) {
        assert forall k :: 0 <= k < |s[1..]| ==> s[1..][k] == s[k + 1];
      }
    }
  }

  lemma {:induction false} FillLengthAppend(t: seq<Item>, rest: seq<Item>)
    requires FillLength(t) < |t|
    ensures FillLength(t + rest) == FillLength(t) && (t + rest)[FillLength(t)..] == t[FillLength(t)..] + rest
  {
    if FillLength(t) > 0 {
      assert (t + rest)[1..] == t[1..] + rest;
      FillLengthAppend(t[1..], rest);
    }
  }

  // ---- The end of the packets

  /** There is no message if and only if there are only markers and padding. */
  lemma EndIsFill(s: seq<Item>)
    ensures Next(s).0.End? <==> Fill(s)
    ensures Fill(s) ==> Next(s).1 == []
  {
    FillSkipped(s);
    FillEnds(s);
    if FillLength(s) < |s| {
      EndOnlyAtEnd(s[FillLength(s)..]);
    }
  }

  lemma EndOnlyAtEnd(s: seq<Item>)
    requires FillLength(s) == 0 && s != []
    ensures !Next(s).0.End?
  {
  }

  // ---- Messages

  lemma {:induction false} SpelledIsFound(m: Message, t: seq<Item>, rest: seq<Item>)
    requires Spells(m, t) && (Open(m) ==> rest == [])
    ensures Next(t + rest) == (Found(m), rest)
    decreases m, 1
  {
    var n := FillLength(t);
    FillEnds(t);
    assert t[n..] != [];
    FillLengthAppend(t, rest);
    FillSkipped(t + rest);
    CoreIsFound(m, t[n..], rest);
  }

  lemma {:induction false} CoreIsFound(m: Message, t: seq<Item>, rest: seq<Item>)
    requires SpellsCore(m, t) && (Open(m) ==> rest == [])
    ensures Next(t + rest) == (Found(m), rest)
    decreases m, 0
  {
    var s := t + rest;
    assert s[0] == t[0] && s[1..] == t[1..] + rest;
    match m
    case Literal(d) =>
    case Compressed(d) =>
    case Encrypted(esk, edata) =>
      assert t == Items<Packet>(esk + [edata]);
      EncryptedParses(esk, edata, rest);
    case Signed(None, _, sig) =>
      assert s[1..] == t[1..];
      EndIsFill(t[1..]);
    case Signed(Some(inner), None, sig) =>
      SpelledIsFound(inner, t[1..], rest);
    case Signed(Some(inner), Some(ops), sig) =>
      var tail := [Ok(Signature(sig))] + rest;
      assert s[1..] == t[1..|t| - 1] + tail;
      SpelledIsFound(inner, t[1..|t| - 1], tail);
      assert tail[1..] == rest;
  }

  lemma {:induction false} FoundIsSpelled(s: seq<Item>) returns (t: seq<Item>)
    requires Next(s).0.Found?
    ensures var (o, rest) := Next(s); s == t + rest && Spells(o.message, t) && (Open(o.message) ==> rest == [])
    decreases |s|, 2
  {
    var n := FillLength(s);
    FillSkipped(s);
    FillEnds(s);
    var core := CoreIsSpelled(s[n..]);
    t := s[..n] + core;
    Together(s[..n], core, Next(s).1, s);
    FrontAppend(s[..n], core);
  }

  lemma Together(a: seq<Item>, b: seq<Item>, rest: seq<Item>, s: seq<Item>)
    requires |a| <= |s| && a == s[..|a|] && s[|a|..] == b + rest
    ensures s == a + b + rest
  {
    assert s == s[..|a|] + s[|a|..];
  }

  lemma {:induction false} FrontAppend(f: seq<Item>, t: seq<Item>)
    requires Fill(f) && FillLength(t) == 0
    ensures FillLength(f + t) == |f| && (f + t)[|f|..] == t
  {
    if f == [] {
      assert f + t == t;
    } else {
      assert (f + t)[1..] == f[1..] + t;
      FrontAppend(f[1..], t);
    }
  }

  lemma {:induction false} CoreIsSpelled(s: seq<Item>) returns (t: seq<Item>)
    requires FillLength(s) == 0 && Next(s).0.Found?
    ensures var (o, rest) := Next(s);
            s == t + rest && FillLength(t) == 0 && SpellsCore(o.message, t) && (Open(o.message) ==> rest == [])
    decreases |s|, 1
  {
    var p := s[0].packet;
    if p.IsEsk() {
      t := EncryptedIsSpelled(s);
    } else if p.Signature? {
      t := SignatureIsSpelled(s);
    } else if p.OnePassSignature? {
      t := OnePassIsSpelled(s);
    } else {
      t := [s[0]];
    }
  }

  lemma {:induction false} EncryptedIsSpelled(s: seq<Item>) returns (t: seq<Item>)
    requires s != [] && s[0].Ok? && s[0].packet.IsEsk() && NextEncrypted(s).0.Found?
    ensures var (o, rest) := NextEncrypted(s);
            s == t + rest && FillLength(t) == 0 && SpellsCore(o.message, t) && !Open(o.message)
  {
    var (more, tail) := TakeEsks(s[1..]);
    TakenEsks(s[1..]);
    ItemsCons(s[0].packet, more);
    var front := [s[0]] + Items<Packet>(more);
    t := front + [tail[0]];
    Together([s[0]], Items<Packet>(more), tail, s);
    OneMore(front, tail);
  }

  lemma OneMore(front: seq<Item>, tail: seq<Item>)
    requires tail != []
    ensures front + tail == front + [tail[0]] + tail[1..]
  {
  }

  lemma {:induction false} SignatureIsSpelled(s: seq<Item>) returns (t: seq<Item>)
    requires s != [] && s[0].Ok? && s[0].packet.Signature? && Next(s).0.Found?
    ensures var (o, rest) := Next(s);
            s == t + rest && FillLength(t) == 0 && SpellsCore(o.message, t) && (Open(o.message) ==> rest == [])
    decreases |s|, 0
  {
    var (inner, rest) := Next(s[1..]);
    if inner.End? {
      EndIsFill(s[1..]);
      t := s;
      assert s + [] == s;
    } else {
      var c := FoundIsSpelled(s[1..]);
      t := [s[0]] + c;
      Together([s[0]], c, rest, s);
      assert t[1..] == c;
    }
  }

  lemma {:induction false} OnePassIsSpelled(s: seq<Item>) returns (t: seq<Item>)
    requires s != [] && s[0].Ok? && s[0].packet.OnePassSignature? && Next(s).0.Found?
    ensures var (o, rest) := Next(s);
            s == t + rest && FillLength(t) == 0 && SpellsCore(o.message, t) && !Open(o.message)
    decreases |s|, 0
  {
    var (inner, behind) := Next(s[1..]);
    EndIsFill(s[1..]);
    var c := FoundIsSpelled(s[1..]);
    t := [s[0]] + c + [behind[0]];
    Together([s[0]], c, behind, s);
    OneMore([s[0]] + c, behind);
    assert t[1..|t| - 1] == c;
  }

  /** What has been taken from the front */
  function Taken(s: seq<Item>, rest: seq<Item>): seq<Item> {
    if |rest| <= |s| then s[..|s| - |rest|] else []
  }

  /** The parser finds a message and leaves a rest if and only if the packets in front of the rest spell the message,
      and nothing follows a message that signs nothing. */
  lemma FindsExactlyTheSpelled(s: seq<Item>, m: Message, rest: seq<Item>)
    ensures Next(s) == (Found(m), rest)
            <==> s == Taken(s, rest) + rest && Spells(m, Taken(s, rest)) && (Open(m) ==> rest == [])
  {
    if Next(s) == (Found(m), rest) {
      var t := FoundIsSpelled(s);
      assert t == Taken(s, rest);
    } else if s == Taken(s, rest) + rest && Spells(m, Taken(s, rest)) && (Open(m) ==> rest == []) {
      SpelledIsFound(m, Taken(s, rest), rest);
    }
  }

  /** Every message of the grammar is spelled by its packets alone. */
  lemma YieldSpells(m: Message)
    requires Grammatical(m)
    ensures Spells(m, Items(Yield(m)))
  {
    var s := Items(Yield(m));
    Complete(m, []);
    assert s + [] == s;
    var t := FoundIsSpelled(s);
    assert t + [] == t;
  }

  /** Both kinds of session key packets go with both kinds of encrypted data. */
  lemma EveryEncryption(p: Packet, e: Packet, rest: seq<Item>)
    requires p.PublicKeyEncryptedSessionKey? || p.SymKeyEncryptedSessionKey?
    requires e.SymEncryptedData? || e.SymEncryptedProtectedData?
    ensures var r := Next([Ok(p), Ok(e)] + rest);
            r.0.Found? && r.0.message.Encrypted? && r.0.message.esk == [p] && r.0.message.edata == e && r.1 == rest
  {
    EncryptedParses([p], e, rest);
    assert Items<Packet>([p] + [e]) == [Ok(p), Ok(e)];
  }

  // ---- Failures, and what they leave

  /** What may stand in front of a message that has not begun: markers, padding and the starts of signed layers */
  ghost predicate Openers(s: seq<Item>) {
    forall k :: 0 <= k < |s| ==>
      s[k].Ok? && (s[k].packet.Marker? || s[k].packet.Padding? || s[k].packet.Signature? || s[k].packet.OnePassSignature?)
  }

  /** A failure inside is a failure of the whole, and leaves the same. */
  lemma {:induction false} FailsInside(openers: seq<Item>, s: seq<Item>)
    requires Openers(openers) && Next(s).0.Failure?
    ensures Next(openers + s) == Next(s)
  {
    if openers == [] {
      assert openers + s == s;
    } else {
      assert (openers + s)[1..] == openers[1..] + s;
      FailsInside(openers[1..], s);
    }
  }

  /** An error, encrypted data without session keys or any other packet where a message should begin: the parser fails
      right behind it. */
  lemma UnexpectedStart(openers: seq<Item>, x: Item, rest: seq<Item>)
    requires Openers(openers)
    requires x.Ok? ==> x.packet.SymEncryptedData? || x.packet.SymEncryptedProtectedData? || x.packet.Other?
    ensures Next(openers + ([x] + rest)) == (Failure, rest)
  {
    assert ([x] + rest)[1..] == rest;
    FailsInside(openers, [x] + rest);
  }

  /** Anything but encrypted data behind session keys, also a marker or padding: the parser fails right behind it. */
  lemma NoEncryptedData(openers: seq<Item>, esk: seq<Esk>, tail: seq<Item>)
    requires Openers(openers) && esk != []
    requires tail != [] && tail[0].Ok? ==>
               var p := tail[0].packet;
               && !p.PublicKeyEncryptedSessionKey? && !p.SymKeyEncryptedSessionKey?
               && !p.SymEncryptedData? && !p.SymEncryptedProtectedData?
    ensures Next(openers + (Items<Packet>(esk) + tail)) == (Failure, if tail == [] then [] else tail[1..])
  {
    var s := Items<Packet>(esk) + tail;
    assert s[0] == Ok(esk[0]) && s[1..] == Items<Packet>(esk[1..]) + tail;
    EsksTaken(esk[1..], tail);
    assert Next(s) == NextEncrypted(s);
    FailsInside(openers, s);
  }

  /** Anything but a signature behind the message of a one-pass layer, also a marker or padding, or no message at all:
      the parser fails in front of it. */
  lemma NoClosingSignature(openers: seq<Item>, ops: bytes, t: seq<Item>, tail: seq<Item>)
    requires Openers(openers) && (tail != [] && tail[0].Ok? ==> !tail[0].packet.Signature?)
    requires (exists m :: Spells(m, t) && (Open(m) ==> tail == [])) || (Fill(t) && tail == [])
    ensures Next(openers + ([Ok(OnePassSignature(ops))] + (t + tail))) == (Failure, tail)
  {
    var s := [Ok(OnePassSignature(ops))] + (t + tail);
    assert s[1..] == t + tail;
    if Fill(t) && tail == [] {
      assert t + tail == t;
      EndIsFill(t);
    } else {
      var m :| Spells(m, t) && (Open(m) ==> tail == []);
      SpelledIsFound(m, t, tail);
    }
    FailsInside(openers, s);
  }
}

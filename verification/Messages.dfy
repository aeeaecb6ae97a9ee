/** The message grammar of section 11.3 of RFC 4880: the recursive parser (`src/composed/message/parser.rs`) and the
    printer (`src/composed/message/types.rs`). */
module Messages {
  import opened Bytes
  import opened PacketItems

  datatype Packet =
    | LiteralData(body: bytes)
    | CompressedData(body: bytes)
    | PublicKeyEncryptedSessionKey(body: bytes)
    | SymKeyEncryptedSessionKey(body: bytes)
    | SymEncryptedData(body: bytes)
    | SymEncryptedProtectedData(body: bytes)
    | Signature(body: bytes)
    | OnePassSignature(body: bytes)
    | Marker(body: bytes)
    | Padding(body: bytes)
    | Other(tag: byte, body: bytes)
  {
    predicate IsEsk() { PublicKeyEncryptedSessionKey? || SymKeyEncryptedSessionKey? }
    predicate IsEdata() { SymEncryptedData? || SymEncryptedProtectedData? }
    predicate IsIgnored() { Marker? || Padding? }
  }

  type Esk = p: Packet | p.IsEsk() witness PublicKeyEncryptedSessionKey([])
  type Edata = p: Packet | p.IsEdata() witness SymEncryptedData([])

  datatype Message =
    | Literal(data: bytes)
    | Compressed(data: bytes)
    | Signed(message: Option<Message>, onePass: Option<bytes>, signature: bytes)
    | Encrypted(esk: seq<Esk>, edata: Edata)

  type Item = Received<Packet>

  datatype Outcome = End | Found(message: Message) | Failure

  // ---- The printer

  function Print(m: Message): seq<Packet> {
    match m
    case Literal(d) => [LiteralData(d)]
    case Compressed(d) => [CompressedData(d)]
    case Signed(message, onePass, signature) =>
      (if onePass.Some? then [OnePassSignature(onePass.value)] else [])
      + (match message case None => [] case Some(inner) => Print(inner))
      + [Signature(signature)]
    case Encrypted(esk, edata) => esk + [edata]
  }

  // ---- The parser

  function TakeEsks(s: seq<Item>): (r: (seq<Esk>, seq<Item>))
    ensures |r.0| + |r.1| == |s|
  {
    if s != [] && s[0].Ok? && s[0].packet.IsEsk() then
      var r := TakeEsks(s[1..]);
      ([s[0].packet] + r.0, r.1)
    else ([], s)
  }

  /** The next message, and the items left for the one after it */
  function Next(s: seq<Item>): (r: (Outcome, seq<Item>))
    ensures |r.1| <= |s| && (s != [] ==> |r.1| < |s|)
    decreases |s|
  {
    if s == [] then (End, [])
    else if s[0].Err? then (Failure, s[1..])
    else match s[0].packet
      case LiteralData(d) => (Found(Literal(d)), s[1..])
      case CompressedData(d) => (Found(Compressed(d)), s[1..])
      case PublicKeyEncryptedSessionKey(_) => NextEncrypted(s)
      case SymKeyEncryptedSessionKey(_) => NextEncrypted(s)
      case Signature(sig) =>
        var r := Next(s[1..]);
        if r.0.Failure? then r
        else (Found(Signed(if r.0.Found? then Some(r.0.message) else None, None, sig)), r.1)
      case OnePassSignature(ops) =>
        var r := Next(s[1..]);
        if r.0.Failure? then r
        else if r.1 != [] && r.1[0].Ok? && r.1[0].packet.Signature? then
          (Found(Signed(if r.0.Found? then Some(r.0.message) else None, Some(ops), r.1[0].packet.body)), r.1[1..])
        else (Failure, r.1)
      case Marker(_) => Next(s[1..])
      case Padding(_) => Next(s[1..])
      case _ => (Failure, s[1..])
  }

  function NextEncrypted(s: seq<Item>): (r: (Outcome, seq<Item>))
    requires s != [] && s[0].Ok? && s[0].packet.IsEsk()
    ensures |r.1| < |s|
  {
    var (more, rest) := TakeEsks(s[1..]);
    if rest == [] then (Failure, [])
    else if rest[0].Ok? && rest[0].packet.IsEdata() then
      (Found(Encrypted([s[0].packet] + more, rest[0].packet)), rest[1..])
    else (Failure, rest[1..])
  }

  /** The peekable packet iterator */
  class Packets {
    var source: seq<Item>

    constructor (source: seq<Item>)
      ensures this.source == source
    {
      this.source := source;
    }

    /** `next` */
    method Parse() returns (o: Outcome)
      modifies this
      ensures (o, source) == Next(old(source))
      decreases |source|
    {
      while source != []
        invariant |source| <= |old(source)| && Next(source) == Next(old(source))
        decreases |source|
      {
        var item := source[0];
        ghost var before := source;
        source := source[1..];
        if item.Err? {
          return Failure;
        }
        match item.packet {
          case LiteralData(d) =>
            return Found(Literal(d));
          case CompressedData(d) =>
            return Found(Compressed(d));
          case PublicKeyEncryptedSessionKey(_) =>
            o := ParseEncrypted(item.packet, before);
            return;
          case SymKeyEncryptedSessionKey(_) =>
            o := ParseEncrypted(item.packet, before);
            return;
          case Signature(sig) =>
            var inner := Parse();
            if inner.Failure? {
              return Failure;
            }
            return Found(Signed(if inner.Found? then Some(inner.message) else None, None, sig));
          case OnePassSignature(ops) =>
            var inner := Parse();
            if inner.Failure? {
              return Failure;
            }
            if source == [] || source[0].Err? || !source[0].packet.Signature? {
              return Failure;
            }
            var sig := source[0].packet.body;
            source := source[1..];
            return Found(Signed(if inner.Found? then Some(inner.message) else None, Some(ops), sig));
          case Marker(_) =>
          case Padding(_) =>
          case _ =>
            return Failure;
        }
      }
      o := End;
    }

    /** The session keys after `first`, then exactly one encrypted data packet */
    method ParseEncrypted(first: Esk, ghost before: seq<Item>) returns (o: Outcome)
      requires before == [Ok(first)] + source
      modifies this
      ensures (o, source) == NextEncrypted(before)
    {
      var esk: seq<Esk> := [first];
      ghost var all := TakeEsks(source);
      assert before[1..] == source;
      while source != [] && source[0].Ok? && source[0].packet.IsEsk()
        invariant [first] + all.0 == esk + TakeEsks(source).0 && all.1 == TakeEsks(source).1
        decreases |source|
      {
        esk := esk + [source[0].packet];
        source := source[1..];
      }
      assert esk + [] == esk;
      if source == [] {
        return Failure;
      }
      var item := source[0];
      source := source[1..];
      if item.Ok? && item.packet.IsEdata() {
        return Found(Encrypted(esk, item.packet));
      }
      return Failure;
    }
  }

  // ---- The grammar

  /** The packets of a message in the order in which the parser meets them: a signature without a one-pass packet
      stands in front of what it signs. */
  function Yield(m: Message): seq<Packet> {
    match m
    case Literal(d) => [LiteralData(d)]
    case Compressed(d) => [CompressedData(d)]
    case Signed(message, None, signature) =>
      [Signature(signature)] + (match message case None => [] case Some(inner) => Yield(inner))
    case Signed(message, Some(ops), signature) =>
      [OnePassSignature(ops)] + (match message case None => [] case Some(inner) => Yield(inner)) + [Signature(signature)]
    case Encrypted(esk, edata) => esk + [edata]
  }

  /** Nothing is signed in the innermost layer. */
  predicate Open(m: Message) {
    match m
    case Signed(None, _, _) => true
    case Signed(Some(inner), _, _) => Open(inner)
    case _ => false
  }

  /** The messages of the grammar */
  predicate Grammatical(m: Message) {
    match m
    case Literal(_) => true
    case Compressed(_) => true
    case Signed(message, onePass, _) =>
      (onePass.Some? ==> !Open(m)) && (match message case None => true case Some(inner) => Grammatical(inner))
    case Encrypted(esk, _) => esk != []
  }

  /** The packets among the items that are not ignored */
  function Significant(s: seq<Item>): seq<Packet> {
    if s == [] then []
    else (if s[0].Ok? && !s[0].packet.IsIgnored() then [s[0].packet] else []) + Significant(s[1..])
  }

  ghost predicate AllOk(s: seq<Item>) { forall k :: 0 <= k < |s| ==> s[k].Ok? }

  lemma {:induction false} SignificantAppend(a: seq<Item>, b: seq<Item>)
    ensures Significant(a + b) == Significant(a) + Significant(b)
  {
    if a == [] {
      assert a + b == b;
      assert Significant(a) + Significant(b) == Significant(b);
    } else {
      assert (a + b)[1..] == a[1..] + b;
      SignificantAppend(a[1..], b);
      var h := if a[0].Ok? && !a[0].packet.IsIgnored() then [a[0].packet] else [];
      assert h + Significant(a[1..]) + Significant(b) == h + (Significant(a[1..]) + Significant(b));
    }
  }

  lemma SignificantOne(i: Item)
    ensures Significant([i]) == if i.Ok? && !i.packet.IsIgnored() then [i.packet] else []
  {
    assert [i][1..] == [];
  }

  lemma {:induction false} TakenEsks(s: seq<Item>)
    ensures var r := TakeEsks(s); s == Items<Packet>(r.0) + r.1 && Significant(Items<Packet>(r.0)) == r.0
    ensures var r := TakeEsks(s); r.1 == [] || r.1[0].Err? || !r.1[0].packet.IsEsk()
  {
    var r := TakeEsks(s);
    if r.0 == [] {
      assert Items<Packet>(r.0) + r.1 == r.1;
    } else {
      TakenEsks(s[1..]);
      var t := TakeEsks(s[1..]);
      Prefixed(s, Items<Packet>(t.0), t.1);
      ItemsCons(s[0].packet, t.0);
    }
  }

  lemma ItemsCons(p: Packet, ps: seq<Packet>)
    ensures Items([p] + ps) == [Ok(p)] + Items(ps)
  {
  }

  /** What an outcome accounts for */
  function Accounted(o: Outcome): seq<Packet> {
    if o.Found? then Yield(o.message) else []
  }

  /** The parser is sound: it consumes exactly the message's packets, markers and padding aside, and the message
      is one of the grammar. It reaches the end only by skipping markers and padding. */
  lemma {:induction false} Sound(s: seq<Item>) returns (consumed: seq<Item>)
    requires !Next(s).0.Failure?
    ensures s == consumed + Next(s).1 && AllOk(consumed) && Significant(consumed) == Accounted(Next(s).0)
    ensures Next(s).0.Found? ==> Grammatical(Next(s).0.message)
    ensures Next(s).0.End? || Open(Next(s).0.message) ==> Next(s).1 == []
    decreases |s|
  {
    if s == [] {
      consumed := [];
    } else {
      var p, r := s[0].packet, Next(s[1..]);
      if p.IsEsk() {
        consumed := SoundEncrypted(s);
      } else if p.Signature? || p.IsIgnored() {
        var c := Sound(s[1..]);
        consumed := [s[0]] + c;
        Prefixed(s, c, r.1);
      } else if p.OnePassSignature? {
        var c := Sound(s[1..]);
        consumed := [s[0]] + c + [r.1[0]];
        Prefixed(s, c, r.1);
        Suffixed([s[0]] + c, r.1);
      } else {
        consumed := [s[0]];
        Prefixed(s, [], s[1..]);
        assert [s[0]] + [] == consumed;
      }
    }
  }

  /** One more item in front */
  lemma Prefixed(s: seq<Item>, c: seq<Item>, rest: seq<Item>)
    requires s != [] && s[0].Ok? && s[1..] == c + rest && AllOk(c)
    ensures s == [s[0]] + c + rest && AllOk([s[0]] + c)
    ensures Significant([s[0]] + c) == (if s[0].packet.IsIgnored() then [] else [s[0].packet]) + Significant(c)
  {
    assert s == [s[0]] + s[1..];
    assert ([s[0]] + c)[1..] == c;
  }

  /** One more item behind */
  lemma Suffixed(c: seq<Item>, rest: seq<Item>)
    requires rest != [] && rest[0].Ok? && !rest[0].packet.IsIgnored() && AllOk(c)
    ensures c + rest == c + [rest[0]] + rest[1..] && AllOk(c + [rest[0]])
    ensures Significant(c + [rest[0]]) == Significant(c) + [rest[0].packet]
  {
    SignificantOne(rest[0]);
    SignificantAppend(c, [rest[0]]);
  }

  lemma SoundEncrypted(s: seq<Item>) returns (consumed: seq<Item>)
    requires s != [] && s[0].Ok? && s[0].packet.IsEsk() && NextEncrypted(s).0.Found?
    ensures var r := NextEncrypted(s);
            s == consumed + r.1 && AllOk(consumed) && Significant(consumed) == Yield(r.0.message)
            && Grammatical(r.0.message) && !Open(r.0.message)
  {
    var (more, rest) := TakeEsks(s[1..]);
    TakenEsks(s[1..]);
    consumed := [s[0]] + Items<Packet>(more) + [rest[0]];
    Prefixed(s, Items<Packet>(more), rest);
    Suffixed([s[0]] + Items<Packet>(more), rest);
  }

  // ---- Completeness

  lemma {:induction false} EsksTaken(esk: seq<Esk>, rest: seq<Item>)
    requires rest == [] || rest[0].Err? || !rest[0].packet.IsEsk()
    ensures TakeEsks(Items<Packet>(esk) + rest) == (esk, rest)
  {
    var s := Items<Packet>(esk) + rest;
    if esk == [] {
      assert s == rest;
    } else {
      assert s[1..] == Items<Packet>(esk[1..]) + rest;
      EsksTaken(esk[1..], rest);
      assert [esk[0]] + esk[1..] == esk;
    }
  }

  lemma EncryptedParses(esk: seq<Esk>, edata: Edata, rest: seq<Item>)
    requires esk != []
    ensures Next(Items<Packet>(esk + [edata]) + rest) == (Found(Encrypted(esk, edata)), rest)
  {
    var s := Items<Packet>(esk + [edata]) + rest;
    var tail := [Ok(edata)] + rest;
    assert s[0] == Ok(esk[0]);
    assert s[1..] == Items<Packet>(esk[1..]) + tail;
    EsksTaken(esk[1..], tail);
    assert [esk[0]] + esk[1..] == esk;
    assert tail[1..] == rest;
    assert Next(s) == NextEncrypted(s);
  }

  /** The parser is complete: it finds every message of the grammar in its packets, and leaves what follows. */
  lemma {:induction false} Complete(m: Message, rest: seq<Item>)
    requires Grammatical(m) && (Open(m) ==> rest == [])
    ensures Next(Items(Yield(m)) + rest) == (Found(m), rest)
    decreases m, 0
  {
    match m
    case Literal(d) =>
      FirstItem(LiteralData(d), rest);
    case Compressed(d) =>
      FirstItem(CompressedData(d), rest);
    case Encrypted(esk, edata) =>
      EncryptedParses(esk, edata, rest);
    case Signed(message, onePass, sig) =>
      if onePass.Some? {
        CompleteOnePass(message.value, onePass.value, sig, rest);
      } else if message.Some? {
        Complete(message.value, rest);
        SignatureFirst(sig, Yield(message.value), rest);
      } else {
        FirstItem(Signature(sig), rest);
      }
  }

  lemma SignatureFirst(sig: bytes, ps: seq<Packet>, rest: seq<Item>)
    ensures var s := Items([Signature(sig)] + ps) + rest;
            s != [] && s[0] == Ok(Signature(sig)) && s[1..] == Items(ps) + rest
  {
    ItemsAppend([Signature(sig)], ps, rest);
    FirstItem(Signature(sig), Items(ps) + rest);
  }

  lemma {:induction false} CompleteOnePass(inner: Message, ops: bytes, sig: bytes, rest: seq<Item>)
    requires Grammatical(inner) && !Open(inner)
    ensures Next(Items([OnePassSignature(ops)] + Yield(inner) + [Signature(sig)]) + rest)
         == (Found(Signed(Some(inner), Some(ops), sig)), rest)
    decreases inner, 1
  {
    var y, tail := Yield(inner), Items([Signature(sig)]) + rest;
    ItemsAppend([OnePassSignature(ops)] + y, [Signature(sig)], rest);
    ItemsAppend([OnePassSignature(ops)], y, tail);
    FirstItem(OnePassSignature(ops), Items(y) + tail);
    FirstItem(Signature(sig), rest);
    Complete(inner, tail);
  }

  // ---- Printed messages

  /** Every signed layer has a one-pass packet and signs something, and there is a session key packet. */
  predicate OnePassed(m: Message) {
    match m
    case Literal(_) => true
    case Compressed(_) => true
    case Signed(message, onePass, _) => onePass.Some? && message.Some? && OnePassed(message.value)
    case Encrypted(esk, _) => esk != []
  }

  lemma {:induction false} PrintedInOrder(m: Message)
    requires OnePassed(m)
    ensures Print(m) == Yield(m) && Grammatical(m) && !Open(m)
  {
    if m.Signed? {
      PrintedInOrder(m.message.value);
    }
  }

  lemma {:induction false} PrintHasNoMarker(m: Message)
    ensures forall k :: 0 <= k < |Print(m)| ==> !Print(m)[k].IsIgnored()
  {
    if m.Signed? && m.message.Some? {
      PrintHasNoMarker(m.message.value);
    }
  }

  lemma {:induction false} AllSignificant(ps: seq<Packet>)
    requires forall k :: 0 <= k < |ps| ==> !ps[k].IsIgnored()
    ensures Significant(Items(ps)) == ps
  {
    if ps != [] {
      assert Items(ps)[1..] == Items(ps[1..]);
      AllSignificant(ps[1..]);
      assert [ps[0]] + ps[1..] == ps;
    }
  }

  /** The number of signature and one-pass packets at the front */
  function Lead(ps: seq<Packet>): (n: nat)
    ensures n <= |ps|
  {
    if ps != [] && (ps[0].Signature? || ps[0].OnePassSignature?) then 1 + Lead(ps[1..]) else 0
  }

  lemma LeadFront(p: Packet, ps: seq<Packet>)
    requires p.Signature? || p.OnePassSignature?
    ensures Lead([p] + ps) == 1 + Lead(ps)
  {
    assert ([p] + ps)[1..] == ps;
  }

  lemma {:induction false} LeadBack(ps: seq<Packet>, qs: seq<Packet>)
    requires Lead(ps) < |ps|
    ensures Lead(ps + qs) == Lead(ps)
  {
    if Lead(ps) > 0 {
      assert (ps + qs)[1..] == ps[1..] + qs;
      LeadBack(ps[1..], qs);
    }
  }

  function Layers(m: Message): nat {
    match m
    case Signed(Some(inner), _, _) => 1 + Layers(inner)
    case _ => 0
  }

  function OnePassLayers(m: Message): nat {
    match m
    case Signed(Some(inner), onePass, _) => (if onePass.Some? then 1 else 0) + OnePassLayers(inner)
    case _ => 0
  }

  lemma {:induction false} LeadOfMessage(m: Message)
    requires Grammatical(m) && !Open(m)
    ensures Lead(Yield(m)) == Layers(m) < |Yield(m)| && Lead(Print(m)) == OnePassLayers(m) < |Print(m)|
    ensures OnePassLayers(m) <= Layers(m) && (OnePassLayers(m) == Layers(m) ==> OnePassed(m))
  {
    if m.Signed? {
      var inner := m.message.value;
      LeadOfMessage(inner);
      LeadBack(Print(inner), [Signature(m.signature)]);
      if m.onePass.Some? {
        var ops := OnePassSignature(m.onePass.value);
        LeadFront(ops, Yield(inner));
        LeadBack([ops] + Yield(inner), [Signature(m.signature)]);
        LeadFront(ops, Print(inner));
        LeadBack([ops] + Print(inner), [Signature(m.signature)]);
      } else {
        LeadFront(Signature(m.signature), Yield(inner));
        assert [] + Print(inner) == Print(inner);
      }
    }
  }

  lemma PrintParses(m: Message, rest: seq<Item>)
    requires OnePassed(m)
    ensures Next(Items(Print(m)) + rest) == (Found(m), rest)
  {
    PrintedInOrder(m);
    Complete(m, rest);
  }

  lemma OnlyOnePassed(m: Message, rest: seq<Item>)
    requires rest != [] && Next(Items(Print(m)) + rest) == (Found(m), rest)
    ensures OnePassed(m)
  {
    var s := Items(Print(m)) + rest;
    var consumed := Sound(s);
    assert |consumed| == |Print(m)|;
    assert consumed == s[..|consumed|] == Items(Print(m));
    PrintHasNoMarker(m);
    AllSignificant(Print(m));
    LeadOfMessage(m);
  }

  /** A printed message comes back in front of anything exactly when all its signed layers are one-pass. */
  lemma PrintRoundTrip(m: Message)
    ensures OnePassed(m) <==> forall rest :: Next(Items(Print(m)) + rest) == (Found(m), rest)
  {
    if OnePassed(m) {
      forall rest ensures Next(Items(Print(m)) + rest) == (Found(m), rest) {
        PrintParses(m, rest);
      }
    } else if forall rest :: Next(Items(Print(m)) + rest) == (Found(m), rest) {
      assert Next(Items(Print(m)) + [Err]) == (Found(m), [Err]);
      OnlyOnePassed(m, [Err]);
    }
  }

  // ---- Printed messages with nothing behind them

  /** Signatures without one-pass packets, around nothing */
  predicate Bare(m: Message) {
    m.Signed? && m.onePass.None? && (m.message.None? || Bare(m.message.value))
  }

  /** Their signatures from the outside in */
  function Signatures(m: Message): seq<bytes>
    requires Bare(m)
  {
    [m.signature] + if m.message.None? then [] else Signatures(m.message.value)
  }

  function Reversed(s: seq<bytes>): (r: seq<bytes>)
    ensures |r| == |s|
  {
    if s == [] then [] else Reversed(s[1..]) + [s[0]]
  }

  function SignaturePackets(s: seq<bytes>): (r: seq<Packet>)
    ensures |r| == |s| && forall k :: 0 <= k < |s| ==> r[k] == Signature(s[k])
  {
    seq(|s|, k requires 0 <= k < |s| => Signature(s[k]))
  }

  lemma {:induction false} BareYield(m: Message)
    requires Bare(m)
    ensures Yield(m) == SignaturePackets(Signatures(m)) && Print(m) == SignaturePackets(Reversed(Signatures(m)))
    ensures Grammatical(m) && Open(m)
  {
    var sig := Signature(m.signature);
    if m.message.Some? {
      BareYield(m.message.value);
      assert Signatures(m)[1..] == Signatures(m.message.value);
      assert [] + Print(m.message.value) == Print(m.message.value);
    } else {
      assert Signatures(m)[1..] == [];
      assert Reversed(Signatures(m)) == [m.signature];
      assert Print(m) == [sig] == Yield(m);
    }
  }

  lemma {:induction false} OpenIsBare(m: Message)
    requires Grammatical(m) && Open(m)
    ensures Bare(m)
  {
    if m.message.Some? {
      OpenIsBare(m.message.value);
    }
  }

  lemma SamePackets(a: seq<bytes>, b: seq<bytes>)
    ensures SignaturePackets(a) == SignaturePackets(b) <==> a == b
  {
    if SignaturePackets(a) == SignaturePackets(b) {
      assert |a| == |b|;
      forall k | 0 <= k < |a| ensures a[k] == b[k] {
        assert SignaturePackets(a)[k] == SignaturePackets(b)[k];
      }
    }
  }

  /** Exactly the messages of the grammar that print their packets in the order in which they are met come back alone. */
  lemma PrintedInOrderAlone(m: Message)
    ensures Next(Items(Print(m))) == (Found(m), []) <==> Grammatical(m) && Print(m) == Yield(m)
  {
    var s := Items(Print(m));
    assert s + [] == s;
    if Grammatical(m) && Print(m) == Yield(m) {
      Complete(m, []);
    }
    if Next(s) == (Found(m), []) {
      var consumed := Sound(s);
      assert consumed + [] == consumed;
      PrintHasNoMarker(m);
      AllSignificant(Print(m));
    }
  }

  /** With nothing behind it, a printed message comes back if and only if all its signed layers are one-pass, or it is
      nothing but signatures, the same forwards and backwards. */
  lemma PrintAlone(m: Message)
    ensures Next(Items(Print(m))) == (Found(m), [])
            <==> OnePassed(m) || (Bare(m) && Signatures(m) == Reversed(Signatures(m)))
  {
    PrintedInOrderAlone(m);
    if OnePassed(m) {
      PrintedInOrder(m);
    } else if Bare(m) {
      BareYield(m);
      SamePackets(Signatures(m), Reversed(Signatures(m)));
    } else if Grammatical(m) && Print(m) == Yield(m) {
      if Open(m) {
        OpenIsBare(m);
      } else {
        LeadOfMessage(m);
      }
    }
  }
}

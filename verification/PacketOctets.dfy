/** From octets to the packets that the message and key parsers see: the packet parser and the filter of
    `src/composed/shared.rs` behind it. */
module PacketOctets {
  import opened Bytes
  import opened PacketHeader
  import opened PacketParser
  import opened PacketStream
  import opened PacketItems

  /** `filter_parsed_packet_results`: markers, incomplete packets and ignorable errors are dropped. Nothing is received
      after a panic. */
  function Passed<P>(item: Item<P>, isMarker: P -> bool): seq<Received<P>> {
    match item
    case Yielded(p) => if isMarker(p) then [] else [Ok(p)]
    case Failed(ignorable) => if ignorable then [] else [Err]
    case _ => []
  }

  function Filtered<P>(items: seq<Item<P>>, isMarker: P -> bool): seq<Received<P>> {
    if items == [] then [] else Passed(items[0], isMarker) + Filtered(items[1..], isMarker)
  }

  /** How packets are written: format, tag and body */
  datatype Printer<!P> = Printer(record: P -> Record)

  function Records<P>(w: Printer<P>, ps: seq<P>): (r: seq<Record>)
    ensures |r| == |ps| && forall k :: 0 <= k < |ps| ==> r[k] == w.record(ps[k])
  {
    seq(|ps|, k requires 0 <= k < |ps| => w.record(ps[k]))
  }

  function Octets<P>(w: Printer<P>, ps: seq<P>): bytes {
    Print(Records(w, ps))
  }

  /** The packet can be written, and its body is parsed back. */
  ghost predicate Inverse<P(!new)>(bp: BodyParser<P>, w: Printer<P>, p: P) {
    var r := w.record(p);
    Writable(r) && bp(r.version, r.tag, r.body) == BodyOk(p)
  }

  ghost predicate AllInverse<P(!new)>(bp: BodyParser<P>, w: Printer<P>, ps: seq<P>) {
    forall k :: 0 <= k < |ps| ==> Inverse(bp, w, ps[k])
  }

  lemma OctetsUnfold<P>(w: Printer<P>, ps: seq<P>, rest: bytes)
    requires ps != []
    ensures var r := w.record(ps[0]);
            Octets(w, ps) + rest == WriteHeader(r.version, r.tag, |r.body|) + (r.body + (Octets(w, ps[1..]) + rest))
  {
    var r := w.record(ps[0]);
    var head, more := WriteHeader(r.version, r.tag, |r.body|), Octets(w, ps[1..]);
    assert Records(w, ps)[1..] == Records(w, ps[1..]);
    Regroup(head, r.body + more, rest);
    Regroup(r.body, more, rest);
  }

  /** One printed packet is yielded, and the parser goes on with the others. */
  lemma OnePrinted<P(!new)>(bp: BodyParser<P>, w: Printer<P>, ps: seq<P>, rest: bytes)
    requires ps != [] && Inverse(bp, w, ps[0])
    ensures Run(bp, Octets(w, ps) + rest) == [Yielded(ps[0])] + Run(bp, Octets(w, ps[1..]) + rest)
  {
    OctetsUnfold(w, ps, rest);
    PrintedStep(bp, w.record(ps[0]), Octets(w, ps[1..]) + rest);
  }

  lemma FilteredFirst<P>(p: P, items: seq<Item<P>>, isMarker: P -> bool)
    requires !isMarker(p)
    ensures Filtered([Yielded(p)] + items, isMarker) == [Ok(p)] + Filtered(items, isMarker)
  {
    assert ([Yielded(p)] + items)[1..] == items;
  }

  lemma ItemsFirst<P>(ps: seq<P>, after: seq<Received<P>>)
    requires ps != []
    ensures Items(ps) + after == [Ok(ps[0])] + (Items(ps[1..]) + after)
  {
  }

  /** Printed packets are received in order, and after them whatever the rest of the stream yields. */
  lemma {:induction false} PrintedAreReceived<P(!new)>(bp: BodyParser<P>, w: Printer<P>, isMarker: P -> bool, ps: seq<P>,
                                                       rest: bytes)
    requires AllInverse(bp, w, ps) && forall k :: 0 <= k < |ps| ==> !isMarker(ps[k])
    ensures Filtered(Run(bp, Octets(w, ps) + rest), isMarker) == Items(ps) + Filtered(Run(bp, rest), isMarker)
  {
    if ps == [] {
      assert Octets(w, ps) + rest == rest;
      assert Items(ps) + Filtered(Run(bp, rest), isMarker) == Filtered(Run(bp, rest), isMarker);
    } else {
      assert Inverse(bp, w, ps[0]);
      OnePrinted(bp, w, ps, rest);
      FilteredFirst(ps[0], Run(bp, Octets(w, ps[1..]) + rest), isMarker);
      assert AllInverse(bp, w, ps[1..]);
      PrintedAreReceived(bp, w, isMarker, ps[1..], rest);
      ItemsFirst(ps, Filtered(Run(bp, rest), isMarker));
    }
  }

  // ---- What the filter drops

  lemma {:induction false} FilteredAppend<P>(a: seq<Item<P>>, b: seq<Item<P>>, isMarker: P -> bool)
    ensures Filtered(a + b, isMarker) == Filtered(a, isMarker) + Filtered(b, isMarker)
  {
    if a == [] {
      assert a + b == b;
      assert Filtered(a, isMarker) + Filtered(b, isMarker) == Filtered(b, isMarker);
    } else {
      assert (a + b)[1..] == a[1..] + b;
      FilteredAppend(a[1..], b, isMarker);
      var f := Passed(a[0], isMarker);
      assert f + Filtered(a[1..], isMarker) + Filtered(b, isMarker)
          == f + (Filtered(a[1..], isMarker) + Filtered(b, isMarker));
    }
  }

  /** Wherever it stands, a packet is passed on unless it is a marker, an error unless it can be ignored, and an
      incomplete packet never. */
  lemma FilteredItem<P>(a: seq<Item<P>>, x: Item<P>, b: seq<Item<P>>, isMarker: P -> bool)
    ensures var f := Filtered(a + ([x] + b), isMarker);
            match x
            case Yielded(p) =>
              f == Filtered(a, isMarker) + ((if isMarker(p) then [] else [Ok(p)]) + Filtered(b, isMarker))
            case Failed(ignorable) =>
              f == Filtered(a, isMarker) + ((if ignorable then [] else [Err]) + Filtered(b, isMarker))
            case PacketIncomplete => f == Filtered(a, isMarker) + Filtered(b, isMarker)
            case _ => true
  {
    FilteredAppend(a, [x] + b, isMarker);
    assert ([x] + b)[1..] == b;
    assert [] + Filtered(b, isMarker) == Filtered(b, isMarker);
  }
}

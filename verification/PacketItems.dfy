/** What the packet iterator hands to the message and key parsers. */
module PacketItems {

  /** A packet, or the error of a packet that could not be parsed */
  datatype Received<+P> = Ok(packet: P) | Err

  function Items<P>(ps: seq<P>): (r: seq<Received<P>>)
    ensures |r| == |ps| && forall k :: 0 <= k < |ps| ==> r[k] == Ok(ps[k])
  {
    seq(|ps|, k requires 0 <= k < |ps| => Ok(ps[k]))
  }

  lemma ItemsAppend<P>(a: seq<P>, b: seq<P>, rest: seq<Received<P>>)
    ensures Items(a + b) + rest == Items(a) + (Items(b) + rest)
  {
  }

  lemma FirstItem<P>(p: P, rest: seq<Received<P>>)
    ensures var s := Items([p]) + rest; s[0] == Ok(p) && s[1..] == rest
  {
  }
}

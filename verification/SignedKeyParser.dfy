/** The loops of `key_parser!` (`src/composed/signed_key/key_parser_macros.rs`) over the peekable packet iterator. */
module SignedKeyParser {
  import opened SignatureTypes
  import opened SignedKeys
  import opened SignedKeyRoundTrip

  /** `retain` of the constructors: drops what has no signature. */
  function NonEmpty(bs: seq<Signed>): seq<Signed> {
    if bs == [] then [] else (if bs[0].signatures != [] then [bs[0]] else []) + NonEmpty(bs[1..])
  }

  lemma {:induction false} NonEmptyAppend(a: seq<Signed>, b: Signed)
    ensures NonEmpty(a + [b]) == NonEmpty(a) + if b.signatures != [] then [b] else []
  {
    if a == [] {
      assert [b][1..] == [] && a + [b] == [b];
    } else {
      assert (a + [b])[1..] == a[1..] + [b];
      NonEmptyAppend(a[1..], b);
      var h, t := if a[0].signatures != [] then [a[0]] else [], if b.signatures != [] then [b] else [];
      assert h + NonEmpty(a[1..]) + t == h + (NonEmpty(a[1..]) + t);
    }
  }

  /** A filtered packet pushed on its list, and none on the others */
  lemma Pushed(list: seq<Signed>, done: seq<Signed>, b: Signed, role: Role)
    requires NonEmpty(list) == Retain(done, role)
    ensures NonEmpty(if HasRole(b.packet, role) then list + [Kept(b, role)] else list) == Retain(done + [b], role)
  {
    RetainAppend(done, [b], role);
    assert [b][1..] == [];
    NonEmptyAppend(list, Kept(b, role));
  }

  /** The packets with signatures that one loop has collected so far, sorted into two lists */
  ghost predicate Collected(s: seq<Item>, n: Section, done: seq<Signed>, left: seq<Item>) {
    Bundles(s, n) == (done + Bundles(left, n).0, Bundles(left, n).1)
  }

  lemma CollectOne(s: seq<Item>, n: Section, done: seq<Signed>, left: seq<Item>)
    requires Collected(s, n, done, left) && StartsWith(left, n)
    ensures var (sigs, rest) := Sigs(left[1..]); Collected(s, n, done + [Signed(left[0].packet, sigs)], rest)
  {
    var (sigs, rest) := Sigs(left[1..]);
    var b := Signed(left[0].packet, sigs);
    assert done + ([b] + Bundles(rest, n).0) == done + [b] + Bundles(rest, n).0;
  }

  class KeyParser {
    const secret: bool
    var source: seq<Item>

    constructor (source: seq<Item>, secret: bool)
      ensures this.source == source && this.secret == secret
    {
      this.source, this.secret := source, secret;
    }

    /** `next` */
    method Next() returns (o: Outcome)
      modifies this
      ensures (o, source) == SignedKeys.Next(old(source), secret)
    {
      if source == [] {
        return End;
      }
      Skip();
      if source == [] {
        return End;
      }
      var item := source[0];
      source := source[1..];
      if item.Err? {
        return Failure;
      }
      o := ParseKey(item.packet);
    }

    method Skip()
      modifies this
      ensures source == SkipOthers(old(source), secret)
    {
      while source != [] && source[0].Ok? && !IsPrimaryKey(source[0].packet, secret)
        invariant SkipOthers(source, secret) == SkipOthers(old(source), secret)
        decreases |source|
      {
        source := source[1..];
      }
    }

    method ParseKey(primary: Packet) returns (o: Outcome)
      modifies this
      ensures (o, source) == NextKey(primary, old(source), secret)
    {
      var sigs := TakeSignatures();
      var revocations, directs := Sort(sigs);
      var users, attributes, _ := TakeSection(Users, UserRole, AttributeRole);
      if StartsWith(source, Subkeys(secret)) && KeyVersion(primary) != 4 {
        source := source[1..];
        return Failure;
      }
      var publicSubkeys, secretSubkeys, _ := TakeSection(Subkeys(secret), PublicRole, SecretRole);
      o := Found(SignedKey(primary, revocations, directs, NonEmpty(users), NonEmpty(attributes),
                           NonEmpty(publicSubkeys), NonEmpty(secretSubkeys)));
    }

    method TakeSignatures() returns (sigs: seq<Signature>)
      modifies this
      ensures (sigs, source) == Sigs(old(source))
    {
      sigs := [];
      assert [] + Sigs(source).0 == Sigs(source).0;
      while StartsSigned(source)
        invariant Sigs(old(source)) == (sigs + Sigs(source).0, Sigs(source).1)
        decreases |source|
      {
        assert sigs + ([source[0].packet.signature] + Sigs(source[1..]).0)
            == sigs + [source[0].packet.signature] + Sigs(source[1..]).0;
        sigs := sigs + [source[0].packet.signature];
        source := source[1..];
      }
      assert sigs + [] == sigs;
    }

    /** Key revocations on one list, all other signatures on the other */
    static method Sort(sigs: seq<Signature>) returns (revocations: seq<Signature>, directs: seq<Signature>)
      ensures revocations == Filter(sigs, Revocation) && directs == Filter(sigs, Direct)
    {
      revocations, directs := [], [];
      for i := 0 to |sigs|
        invariant revocations == Filter(sigs[..i], Revocation) && directs == Filter(sigs[..i], Direct)
      {
        FilterAppend(sigs[..i], [sigs[i]], Revocation);
        FilterAppend(sigs[..i], [sigs[i]], Direct);
        assert sigs[..i] + [sigs[i]] == sigs[..i + 1];
        assert [sigs[i]][1..] == [];
        if sigs[i].config.typ == KeyRevocation {
          revocations := revocations + [sigs[i]];
        } else {
          directs := directs + [sigs[i]];
        }
      }
      assert sigs[..|sigs|] == sigs;
    }

    /** The users' loop, or the subkeys' loop: packets of two roles with their filtered signatures */
    method TakeSection(n: Section, first: Role, second: Role)
      returns (firsts: seq<Signed>, seconds: seq<Signed>, ghost done: seq<Signed>)
      requires first != second && forall p :: InSection(p, n) ==> HasRole(p, first) || HasRole(p, second)
      modifies this
      ensures (done, source) == Bundles(old(source), n)
      ensures NonEmpty(firsts) == Retain(done, first) && NonEmpty(seconds) == Retain(done, second)
    {
      firsts, seconds, done := [], [], [];
      assert [] + Bundles(source, n).0 == Bundles(source, n).0;
      while StartsWith(source, n)
        invariant Collected(old(source), n, done, source)
        invariant NonEmpty(firsts) == Retain(done, first) && NonEmpty(seconds) == Retain(done, second)
        decreases |source|
      {
        CollectOne(old(source), n, done, source);
        var packet := source[0].packet;
        source := source[1..];
        var sigs := TakeSignatures();
        var b := Signed(packet, sigs);
        Pushed(firsts, done, b, first);
        Pushed(seconds, done, b, second);
        if HasRole(packet, first) {
          firsts := firsts + [Kept(b, first)];
        } else {
          seconds := seconds + [Kept(b, second)];
        }
        done := done + [b];
      }
      assert done + [] == done;
    }
  }
}

/** Printing a parsed key and parsing it again gives the same key, alone or in a keyring. */
module SignedKeyRoundTrip {
  import opened Bytes
  import opened PacketItems
  import opened SignatureTypes
  import opened SignedKeys

  // ---- Filters

  lemma {:induction false} FilterAll(sigs: seq<Signature>, sel: Selector)
    requires AllSelected(sigs, sel)
    ensures Filter(sigs, sel) == sigs
  {
    if sigs != [] {
      FilterAll(sigs[1..], sel);
      assert [sigs[0]] + sigs[1..] == sigs;
    }
  }

  lemma {:induction false} FilterNone(sigs: seq<Signature>, sel: Selector)
    requires forall i :: 0 <= i < |sigs| ==> !Selects(sel, sigs[i].config.typ)
    ensures Filter(sigs, sel) == []
  {
    if sigs != [] {
      FilterNone(sigs[1..], sel);
    }
  }

  lemma {:induction false} FilterAppend(a: seq<Signature>, b: seq<Signature>, sel: Selector)
    ensures Filter(a + b, sel) == Filter(a, sel) + Filter(b, sel)
  {
    if a == [] {
      assert a + b == b;
      assert Filter(a, sel) + Filter(b, sel) == Filter(b, sel);
    } else {
      assert (a + b)[1..] == a[1..] + b;
      FilterAppend(a[1..], b, sel);
      var h := if Selects(sel, a[0].config.typ) then [a[0]] else [];
      assert h + Filter(a[1..], sel) + Filter(b, sel) == h + (Filter(a[1..], sel) + Filter(b, sel));
    }
  }

  lemma {:induction false} FilterSelects(sigs: seq<Signature>, sel: Selector)
    ensures AllSelected(Filter(sigs, sel), sel)
  {
    if sigs != [] {
      FilterSelects(sigs[1..], sel);
    }
  }

  ghost predicate AllInSection(bs: seq<Signed>, n: Section) {
    forall i :: 0 <= i < |bs| ==> InSection(bs[i].packet, n)
  }

  lemma {:induction false} RetainAll(bs: seq<Signed>, role: Role)
    requires WfList(bs, role)
    ensures Retain(bs, role) == bs
  {
    if bs != [] {
      assert WfSigned(bs[0], role);
      FilterAll(bs[0].signatures, Of(role));
      assert WfList(bs[1..], role);
      RetainAll(bs[1..], role);
      assert [bs[0]] + bs[1..] == bs;
    }
  }

  lemma {:induction false} RetainNone(bs: seq<Signed>, role: Role)
    requires forall i :: 0 <= i < |bs| ==> !HasRole(bs[i].packet, role)
    ensures Retain(bs, role) == []
  {
    if bs != [] {
      RetainNone(bs[1..], role);
    }
  }

  lemma {:induction false} RetainAppend(a: seq<Signed>, b: seq<Signed>, role: Role)
    ensures Retain(a + b, role) == Retain(a, role) + Retain(b, role)
  {
    if a == [] {
      assert a + b == b;
      assert Retain(a, role) + Retain(b, role) == Retain(b, role);
    } else {
      assert (a + b)[1..] == a[1..] + b;
      RetainAppend(a[1..], b, role);
      var k := Kept(a[0], role);
      var h := if HasRole(k.packet, role) && k.signatures != [] then [k] else [];
      assert h + Retain(a[1..], role) + Retain(b, role) == h + (Retain(a[1..], role) + Retain(b, role));
    }
  }

  lemma {:induction false} RetainWf(bs: seq<Signed>, role: Role)
    ensures WfList(Retain(bs, role), role)
  {
    if bs != [] {
      RetainWf(bs[1..], role);
      FilterSelects(bs[0].signatures, Of(role));
    }
  }

  /** Of two well-formed lists in different roles, each role gets its own back. */
  lemma RetainBoth(a: seq<Signed>, ra: Role, b: seq<Signed>, rb: Role)
    requires WfList(a, ra) && WfList(b, rb) && ra != rb
    ensures Retain(a + b, ra) == a && Retain(a + b, rb) == b
  {
    RetainAppend(a, b, ra);
    RetainAppend(a, b, rb);
    RetainAll(a, ra);
    RetainAll(b, rb);
    assert forall i :: 0 <= i < |a| ==> WfSigned(a[i], ra);
    assert forall i :: 0 <= i < |b| ==> WfSigned(b[i], rb);
    RetainNone(a, rb);
    RetainNone(b, ra);
  }

  lemma FilterBoth(revocations: seq<Signature>, directs: seq<Signature>)
    requires AllSelected(revocations, Revocation) && AllSelected(directs, Direct)
    ensures Filter(revocations + directs, Revocation) == revocations
    ensures Filter(revocations + directs, Direct) == directs
  {
    FilterAppend(revocations, directs, Revocation);
    FilterAppend(revocations, directs, Direct);
    FilterAll(revocations, Revocation);
    FilterAll(directs, Direct);
    FilterNone(revocations, Direct);
    FilterNone(directs, Revocation);
  }

  // ---- What the parser makes is well-formed

  lemma {:induction false} BundlesInSection(s: seq<Item>, n: Section)
    ensures AllInSection(Bundles(s, n).0, n)
    decreases |s|
  {
    if StartsWith(s, n) {
      BundlesInSection(Sigs(s[1..]).1, n);
    }
  }

  lemma {:induction false} SkippedTo(s: seq<Item>, secret: bool)
    ensures var r := SkipOthers(s, secret); r != [] && r[0].Ok? ==> IsPrimaryKey(r[0].packet, secret)
  {
    if s != [] && s[0].Ok? && !IsPrimaryKey(s[0].packet, secret) {
      SkippedTo(s[1..], secret);
    }
  }

  lemma FoundIsWf(s: seq<Item>, secret: bool)
    requires Next(s, secret).0.Found?
    ensures Wf(Next(s, secret).0.key, secret)
  {
    SkippedTo(s, secret);
    var s1 := SkipOthers(s, secret);
    NextKeyIsWf(s1[0].packet, s1[1..], secret);
  }

  lemma NextKeyIsWf(primary: Packet, s: seq<Item>, secret: bool)
    requires IsPrimaryKey(primary, secret) && NextKey(primary, s, secret).0.Found?
    ensures Wf(NextKey(primary, s, secret).0.key, secret)
  {
    var (sigs, s2) := Sigs(s);
    var (users, s3) := Bundles(s2, Users);
    var (subkeys, s4) := Bundles(s3, Subkeys(secret));
    FilterSelects(sigs, Revocation);
    FilterSelects(sigs, Direct);
    RetainWf(users, UserRole);
    RetainWf(users, AttributeRole);
    RetainWf(subkeys, PublicRole);
    RetainWf(subkeys, SecretRole);
    if !secret {
      BundlesInSection(s3, Subkeys(secret));
      RetainNone(subkeys, SecretRole);
    }
  }

  // ---- Printed keys

  lemma {:induction false} SigsParse(sigs: seq<Signature>, rest: seq<Item>)
    requires !StartsSigned(rest)
    ensures Sigs(Items(SigPackets(sigs)) + rest) == (sigs, rest)
  {
    var s := Items(SigPackets(sigs)) + rest;
    if sigs == [] {
      assert s == rest;
    } else {
      assert s[1..] == Items(SigPackets(sigs[1..])) + rest;
      SigsParse(sigs[1..], rest);
      assert [sigs[0]] + sigs[1..] == sigs;
    }
  }

  /** A printed list starts with a packet of its section, if with anything of its own. */
  lemma PrintedFirst(bs: seq<Signed>, n: Section, rest: seq<Item>)
    requires AllInSection(bs, n)
    ensures var s := Items(PrintSigned(bs)) + rest;
            if bs == [] then s == rest else s[0] == Ok(bs[0].packet) && InSection(bs[0].packet, n)
  {
  }

  lemma {:induction false} BundlesParse(bs: seq<Signed>, n: Section, rest: seq<Item>)
    requires AllInSection(bs, n) && !StartsSigned(rest) && !StartsWith(rest, n)
    ensures Bundles(Items(PrintSigned(bs)) + rest, n) == (bs, rest)
  {
    var s := Items(PrintSigned(bs)) + rest;
    PrintedFirst(bs, n, rest);
    if bs != [] {
      var b, more := bs[0], Items(PrintSigned(bs[1..])) + rest;
      ItemsAppend([b.packet] + SigPackets(b.signatures), PrintSigned(bs[1..]), rest);
      ItemsAppend([b.packet], SigPackets(b.signatures), more);
      FirstItem(b.packet, Items(SigPackets(b.signatures)) + more);
      PrintedFirst(bs[1..], n, rest);
      SigsParse(b.signatures, more);
      BundlesParse(bs[1..], n, rest);
      assert [b] + bs[1..] == bs;
    }
  }

  lemma {:induction false} PrintSignedAppend(a: seq<Signed>, b: seq<Signed>)
    ensures PrintSigned(a + b) == PrintSigned(a) + PrintSigned(b)
  {
    if a == [] {
      assert a + b == b;
      assert PrintSigned(a) + PrintSigned(b) == PrintSigned(b);
    } else {
      assert (a + b)[1..] == a[1..] + b;
      PrintSignedAppend(a[1..], b);
      var h := [a[0].packet] + SigPackets(a[0].signatures);
      assert h + PrintSigned(a[1..]) + PrintSigned(b) == h + (PrintSigned(a[1..]) + PrintSigned(b));
    }
  }

  /** A printed key is the primary key, signatures, the users' section and the subkeys' section. */
  lemma PrintInSections(k: Key, rest: seq<Item>)
    ensures Items(Print(k)) + rest
         == [Ok(k.primary)] + (Items(SigPackets(k.revocations + k.directs))
            + (Items(PrintSigned(k.users + k.attributes))
            + (Items(PrintSigned(k.publicSubkeys + k.secretSubkeys)) + rest)))
  {
    var sr, sd := SigPackets(k.revocations), SigPackets(k.directs);
    assert SigPackets(k.revocations + k.directs) == sr + sd;
    PrintSignedAppend(k.users, k.attributes);
    PrintSignedAppend(k.publicSubkeys, k.secretSubkeys);
    var u, a := PrintSigned(k.users), PrintSigned(k.attributes);
    var p, q := PrintSigned(k.publicSubkeys), PrintSigned(k.secretSubkeys);
    Sectioned([k.primary], sr, sd, u, a, p, q);
    ItemsAppend([k.primary] + (sr + sd) + (u + a), p + q, rest);
    ItemsAppend([k.primary] + (sr + sd), u + a, Items(p + q) + rest);
    ItemsAppend([k.primary], sr + sd, Items(u + a) + (Items(p + q) + rest));
    assert Items([k.primary]) == [Ok(k.primary)];
  }

  lemma Sectioned(h: seq<Packet>, b: seq<Packet>, c: seq<Packet>, d: seq<Packet>, e: seq<Packet>,
                  f: seq<Packet>, g: seq<Packet>)
    ensures h + b + c + d + e + f + g == h + (b + c) + (d + e) + (f + g)
  {
  }

  lemma WfInSection(a: seq<Signed>, ra: Role, b: seq<Signed>, rb: Role, n: Section)
    requires WfList(a, ra) && WfList(b, rb)
    requires forall p :: HasRole(p, ra) ==> InSection(p, n)
    requires b != [] ==> forall p :: HasRole(p, rb) ==> InSection(p, n)
    ensures AllInSection(a + b, n)
  {
    forall i | 0 <= i < |a + b| ensures InSection((a + b)[i].packet, n) {
      if i < |a| {
        assert WfSigned(a[i], ra);
      } else {
        assert WfSigned(b[i - |a|], rb);
      }
    }
  }

  lemma MadeKey(k: Key, secret: bool)
    requires Wf(k, secret)
    ensures MakeKey(k.primary, k.revocations + k.directs, k.users + k.attributes, k.publicSubkeys + k.secretSubkeys) == k
  {
    FilterBoth(k.revocations, k.directs);
    RetainBoth(k.users, UserRole, k.attributes, AttributeRole);
    RetainBoth(k.publicSubkeys, PublicRole, k.secretSubkeys, SecretRole);
  }

  lemma SectionsParse(primary: Packet, sigs: seq<Signature>, users: seq<Signed>, subkeys: seq<Signed>,
                      secret: bool, rest: seq<Item>)
    requires AllInSection(users, Users) && AllInSection(subkeys, Subkeys(secret))
    requires !StartsSigned(rest) && !StartsWith(rest, Subkeys(secret)) && (subkeys == [] ==> !StartsWith(rest, Users))
    requires KeyVersion(primary) != 4 ==> subkeys == []
    ensures NextKey(primary, Items(SigPackets(sigs)) + (Items(PrintSigned(users)) + (Items(PrintSigned(subkeys)) + rest)),
                    secret)
         == (Found(MakeKey(primary, sigs, users, subkeys)), rest)
  {
    var s4 := Items(PrintSigned(subkeys)) + rest;
    PrintedFirst(users, Users, s4);
    PrintedFirst(subkeys, Subkeys(secret), rest);
    SigsParse(sigs, Items(PrintSigned(users)) + s4);
    BundlesParse(users, Users, s4);
    BundlesParse(subkeys, Subkeys(secret), rest);
  }

  /** A well-formed key comes back when what follows does not continue it. */
  lemma KeyParses(k: Key, secret: bool, rest: seq<Item>)
    requires Wf(k, secret) && !Continues(k, secret, rest)
    ensures Next(Items(Print(k)) + rest, secret) == (Found(k), rest)
  {
    var sigs, users := k.revocations + k.directs, k.users + k.attributes;
    var subkeys := k.publicSubkeys + k.secretSubkeys;
    WfInSection(k.users, UserRole, k.attributes, AttributeRole, Users);
    WfInSection(k.publicSubkeys, PublicRole, k.secretSubkeys, SecretRole, Subkeys(secret));
    SectionsParse(k.primary, sigs, users, subkeys, secret, rest);
    MadeKey(k, secret);
    PrintInSections(k, rest);
    AtPrimary(k.primary, Items(SigPackets(sigs)) + (Items(PrintSigned(users)) + (Items(PrintSigned(subkeys)) + rest)),
              secret);
  }

  lemma AtPrimary(p: Packet, s: seq<Item>, secret: bool)
    requires IsPrimaryKey(p, secret)
    ensures Next([Ok(p)] + s, secret) == NextKey(p, s, secret)
  {
    assert ([Ok(p)] + s)[1..] == s;
  }

  // ---- Exactly the well-formed keys, and exactly in front of what does not continue them

  ghost predicate IsSuffix(t: seq<Item>, s: seq<Item>) { |t| <= |s| && t == s[|s| - |t|..] }

  lemma SuffixTrans(t: seq<Item>, s: seq<Item>, r: seq<Item>)
    requires IsSuffix(t, s) && IsSuffix(s, r)
    ensures IsSuffix(t, r)
  {
  }

  lemma SuffixOfTail(t: seq<Item>, s: seq<Item>)
    requires s != [] && IsSuffix(t, s[1..])
    ensures IsSuffix(t, s)
  {
    assert IsSuffix(s[1..], s);
    SuffixTrans(t, s[1..], s);
  }

  lemma {:induction false} SkipIsSuffix(s: seq<Item>, secret: bool)
    ensures IsSuffix(SkipOthers(s, secret), s)
  {
    if s != [] && s[0].Ok? && !IsPrimaryKey(s[0].packet, secret) {
      SkipIsSuffix(s[1..], secret);
      SuffixOfTail(SkipOthers(s[1..], secret), s);
    }
  }

  lemma {:induction false} SigsIsSuffix(s: seq<Item>)
    ensures IsSuffix(Sigs(s).1, s)
  {
    if StartsSigned(s) {
      SigsIsSuffix(s[1..]);
      SuffixOfTail(Sigs(s[1..]).1, s);
    }
  }

  lemma {:induction false} BundlesIsSuffix(s: seq<Item>, n: Section)
    ensures IsSuffix(Bundles(s, n).1, s) && (StartsWith(s, n) ==> |Bundles(s, n).1| < |s|)
    decreases |s|
  {
    if StartsWith(s, n) {
      var rest := Sigs(s[1..]).1;
      SigsIsSuffix(s[1..]);
      BundlesIsSuffix(rest, n);
      SuffixTrans(Bundles(rest, n).1, rest, s[1..]);
      SuffixOfTail(Bundles(rest, n).1, s);
    }
  }

  /** Where the subkeys' section starts */
  lemma SubkeysOfKey(primary: Packet, s: seq<Item>, secret: bool) returns (s3: seq<Item>)
    requires NextKey(primary, s, secret).0.Found?
    ensures IsSuffix(s3, s) && !StartsSigned(s3) && !StartsWith(s3, Users)
    ensures NextKey(primary, s, secret).1 == Bundles(s3, Subkeys(secret)).1
  {
    var s2 := Sigs(s).1;
    s3 := Bundles(s2, Users).1;
    SigsIsSuffix(s);
    BundlesIsSuffix(s2, Users);
    SuffixTrans(s3, s2, s);
  }

  lemma SubkeysStart(s: seq<Item>, secret: bool) returns (s3: seq<Item>)
    requires Next(s, secret).0.Found?
    ensures IsSuffix(s3, s) && !StartsSigned(s3) && !StartsWith(s3, Users)
    ensures Next(s, secret).1 == Bundles(s3, Subkeys(secret)).1
  {
    var s1 := SkipOthers(s, secret);
    s3 := SubkeysOfKey(s1[0].packet, s1[1..], secret);
    SkipIsSuffix(s, secret);
    SuffixOfTail(s3, s1);
    SuffixTrans(s3, s1, s);
  }

  /** What the parser leaves never continues a key, except that it may start with a user packet after a subkey. */
  lemma StopsAt(s: seq<Item>, secret: bool) returns (i: nat)
    requires Next(s, secret).0.Found?
    ensures var rest := Next(s, secret).1;
            !StartsSigned(rest) && !StartsWith(rest, Subkeys(secret))
            && (StartsWith(rest, Users) ==> i < |s| - |rest| && StartsWith(s[i..], Subkeys(secret)))
  {
    var s3 := SubkeysStart(s, secret);
    BundlesIsSuffix(s3, Subkeys(secret));
    i := |s| - |s3|;
  }

  lemma {:induction false} UsersHaveNoSubkeys(bs: seq<Signed>, secret: bool)
    requires AllInSection(bs, Users)
    ensures forall i :: 0 <= i < |PrintSigned(bs)| ==> !InSection(PrintSigned(bs)[i], Subkeys(secret))
  {
    if bs != [] {
      UsersHaveNoSubkeys(bs[1..], secret);
    }
  }

  lemma NoSubkeyPrinted(k: Key, secret: bool)
    requires Wf(k, secret) && k.publicSubkeys == [] && k.secretSubkeys == []
    ensures forall i :: 0 <= i < |Print(k)| ==> !InSection(Print(k)[i], Subkeys(secret))
  {
    WfInSection(k.users, UserRole, [], UserRole, Users);
    WfInSection(k.attributes, AttributeRole, [], UserRole, Users);
    assert k.users + [] == k.users && k.attributes + [] == k.attributes;
    UsersHaveNoSubkeys(k.users, secret);
    UsersHaveNoSubkeys(k.attributes, secret);
  }

  lemma NotContinued(k: Key, secret: bool, rest: seq<Item>)
    requires Wf(k, secret) && Next(Items(Print(k)) + rest, secret) == (Found(k), rest)
    ensures !Continues(k, secret, rest)
  {
    var s := Items(Print(k)) + rest;
    var i := StopsAt(s, secret);
    if StartsWith(rest, Users) && k.publicSubkeys == [] && k.secretSubkeys == [] {
      NoSubkeyPrinted(k, secret);
      assert false;
    }
  }

  /** A key that the parser makes comes back from its printed form, in front of exactly what does not continue it. */
  lemma Reparse(s: seq<Item>, secret: bool, rest: seq<Item>)
    requires Next(s, secret).0.Found?
    ensures var k := Next(s, secret).0.key;
            Next(Items(Print(k)) + rest, secret) == (Found(k), rest) <==> !Continues(k, secret, rest)
  {
    var k := Next(s, secret).0.key;
    FoundIsWf(s, secret);
    if Continues(k, secret, rest) {
      if Next(Items(Print(k)) + rest, secret) == (Found(k), rest) {
        NotContinued(k, secret, rest);
      }
    } else {
      KeyParses(k, secret, rest);
    }
  }

  /** The well-formed keys are exactly those that survive printing and parsing. */
  lemma WfIsFixpoint(k: Key, secret: bool)
    ensures Wf(k, secret) <==> Next(Items(Print(k)), secret) == (Found(k), [])
  {
    assert Items(Print(k)) + [] == Items(Print(k));
    if Wf(k, secret) {
      KeyParses(k, secret, []);
    } else if Next(Items(Print(k)), secret) == (Found(k), []) {
      FoundIsWf(Items(Print(k)), secret);
    }
  }

  // ---- Keyrings

  /** What the iterator yields until it ends */
  function ParseAll(s: seq<Item>, secret: bool): seq<Outcome>
    decreases |s|
  {
    var (o, rest) := Next(s, secret);
    if s == [] || o.End? then [] else [o] + ParseAll(rest, secret)
  }

  function PrintAll(keys: seq<Key>): seq<Packet> {
    if keys == [] then [] else Print(keys[0]) + PrintAll(keys[1..])
  }

  lemma PrintAllUnfold(keys: seq<Key>)
    requires keys != []
    ensures Items(PrintAll(keys)) == Items(Print(keys[0])) + Items(PrintAll(keys[1..]))
  {
  }

  lemma {:induction false} StartsWithPrimary(keys: seq<Key>, k: Key, secret: bool)
    requires keys != [] ==> IsPrimaryKey(keys[0].primary, secret)
    ensures !Continues(k, secret, Items(PrintAll(keys)))
  {
    if keys != [] {
      assert Print(keys[0])[0] == keys[0].primary;
    }
  }

  ghost predicate AllWf(keys: seq<Key>, secret: bool) {
    keys == [] || (Wf(keys[0], secret) && AllWf(keys[1..], secret))
  }

  function AllFound(keys: seq<Key>): seq<Outcome> {
    if keys == [] then [] else [Found(keys[0])] + AllFound(keys[1..])
  }

  lemma OneKey(s: seq<Item>, secret: bool, k: Key, rest: seq<Item>)
    requires Next(s, secret) == (Found(k), rest)
    ensures ParseAll(s, secret) == [Found(k)] + ParseAll(rest, secret)
  {
  }

  /** A keyring splits into its keys. */
  lemma {:induction false} KeyringSplits(keys: seq<Key>, secret: bool)
    requires AllWf(keys, secret)
    ensures ParseAll(Items(PrintAll(keys)), secret) == AllFound(keys)
  {
    if keys != [] {
      var rest := Items(PrintAll(keys[1..]));
      StartsWithPrimary(keys[1..], keys[0], secret);
      KeyParses(keys[0], secret, rest);
      PrintAllUnfold(keys);
      OneKey(Items(PrintAll(keys)), secret, keys[0], rest);
      KeyringSplits(keys[1..], secret);
    }
  }

  // ---- Secret keys as public ones (`src/composed/signed_key/secret.rs`)

  /** Secret subkeys as public ones; `publicPart` is the public part of a secret key packet. */
  function Publish(bs: seq<Signed>, publicPart: bytes -> bytes): seq<Signed> {
    if bs == [] then []
    else
      var p := if bs[0].packet.SecretSubkey? then PublicSubkey(publicPart(bs[0].packet.body)) else bs[0].packet;
      [Kept(Signed(p, bs[0].signatures), PublicRole)] + Publish(bs[1..], publicPart)
  }

  function ToPublic(k: Key, publicPart: bytes -> bytes): Key
    requires k.primary.SecretKey?
  {
    k.(primary := PublicKey(k.primary.version, publicPart(k.primary.body)),
       publicSubkeys := Retain(k.publicSubkeys + Publish(k.secretSubkeys, publicPart), PublicRole),
       secretSubkeys := [])
  }

  lemma {:induction false} PublishedIsWf(bs: seq<Signed>, publicPart: bytes -> bytes)
    requires WfList(bs, SecretRole)
    ensures WfList(Publish(bs, publicPart), PublicRole) && |Publish(bs, publicPart)| == |bs|
    ensures forall i :: 0 <= i < |bs| ==>
              Publish(bs, publicPart)[i] == Signed(PublicSubkey(publicPart(bs[i].packet.body)), bs[i].signatures)
  {
    if bs != [] {
      assert WfSigned(bs[0], SecretRole);
      assert AllSelected(bs[0].signatures, Of(PublicRole));
      FilterAll(bs[0].signatures, Of(PublicRole));
      assert WfList(bs[1..], SecretRole);
      PublishedIsWf(bs[1..], publicPart);
    }
  }

  /** The public key made from a parsed secret key loses no subkey and no signature, and survives printing too. */
  lemma PublicKeySurvives(k: Key, publicPart: bytes -> bytes)
    requires Wf(k, true)
    ensures var p := ToPublic(k, publicPart);
            && p.publicSubkeys == k.publicSubkeys + Publish(k.secretSubkeys, publicPart)
            && |Publish(k.secretSubkeys, publicPart)| == |k.secretSubkeys|
            && (forall i :: 0 <= i < |k.secretSubkeys| ==>
                  Publish(k.secretSubkeys, publicPart)[i]
                  == Signed(PublicSubkey(publicPart(k.secretSubkeys[i].packet.body)), k.secretSubkeys[i].signatures))
            && Next(Items(Print(p)), false) == (Found(p), [])
  {
    var more := Publish(k.secretSubkeys, publicPart);
    PublishedIsWf(k.secretSubkeys, publicPart);
    RetainAppend(k.publicSubkeys, more, PublicRole);
    RetainAll(k.publicSubkeys, PublicRole);
    RetainAll(more, PublicRole);
    RetainWf(k.publicSubkeys + more, PublicRole);
    WfIsFixpoint(ToPublic(k, publicPart), false);
  }
}

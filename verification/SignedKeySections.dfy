/** What the key parser makes of every sequence of packets that has the sections of a key, whatever signatures stand in
    them: which it keeps, by their type octets, and what it drops. */
module SignedKeySections {
  import opened Bytes
  import opened PacketItems
  import opened SignatureTypes
  import opened SignedKeys
  import opened SignedKeyRoundTrip

  /** The signatures with one of these type octets, in order */
  function Keep(sigs: seq<Signature>, octets: set<byte>): seq<Signature> {
    if sigs == [] then []
    else
      var last := sigs[|sigs| - 1];
      Keep(sigs[..|sigs| - 1], octets) + if TypeCode(last.config.typ) in octets then [last] else []
  }

  /** The packets of a kind that keep a signature with one of these type octets, in order */
  function KeepSigned(bs: seq<Signed>, isKind: Packet -> bool, octets: set<byte>): seq<Signed> {
    if bs == [] then []
    else
      var b := bs[|bs| - 1];
      var sigs := Keep(b.signatures, octets);
      KeepSigned(bs[..|bs| - 1], isKind, octets) + if isKind(b.packet) && sigs != [] then [Signed(b.packet, sigs)] else []
  }

  predicate IsUserId(p: Packet) { p.UserId? }
  predicate IsUserAttribute(p: Packet) { p.UserAttribute? }
  predicate IsPublicSubkey(p: Packet) { p.PublicSubkey? }
  predicate IsSecretSubkey(p: Packet) { p.SecretSubkey? }

  lemma FilterOne(s: Signature, sel: Selector)
    ensures Filter([s], sel) == if Selects(sel, s.config.typ) then [s] else []
  {
    assert [s][1..] == [];
  }

  lemma {:induction false} FilterKeeps(sigs: seq<Signature>, sel: Selector, octets: set<byte>)
    requires forall t :: Selects(sel, t) <==> TypeCode(t) in octets
    ensures Filter(sigs, sel) == Keep(sigs, octets)
  {
    if sigs != [] {
      var n := |sigs| - 1;
      assert sigs == sigs[..n] + [sigs[n]];
      FilterAppend(sigs[..n], [sigs[n]], sel);
      FilterOne(sigs[n], sel);
      FilterKeeps(sigs[..n], sel, octets);
    }
  }

  lemma {:induction false} RetainKeeps(bs: seq<Signed>, role: Role, isKind: Packet -> bool, octets: set<byte>)
    requires forall t :: Selects(Of(role), t) <==> TypeCode(t) in octets
    requires forall p :: HasRole(p, role) <==> isKind(p)
    ensures Retain(bs, role) == KeepSigned(bs, isKind, octets)
  {
    if bs != [] {
      var n := |bs| - 1;
      assert bs == bs[..n] + [bs[n]];
      RetainAppend(bs[..n], [bs[n]], role);
      FilterKeeps(bs[n].signatures, Of(role), octets);
      assert [bs[n]][1..] == [];
      RetainKeeps(bs[..n], role, isKind, octets);
    }
  }

  lemma {:induction false} OthersSkipped(others: seq<Packet>, s: seq<Item>, secret: bool)
    requires forall k :: 0 <= k < |others| ==> !(if secret then others[k].SecretKey? else others[k].PublicKey?)
    ensures SkipOthers(Items(others) + s, secret) == SkipOthers(s, secret)
  {
    if others == [] {
      assert Items(others) + s == s;
    } else {
      var t := Items(others) + s;
      assert t[0] == Ok(others[0]) && t[1..] == Items(others[1..]) + s;
      OthersSkipped(others[1..], s, secret);
    }
  }

  /** Behind the key: nothing, an error, or a packet that none of its sections takes */
  predicate Behind(rest: seq<Item>, secret: bool, hasSubkeys: bool) {
    rest != [] && rest[0].Ok? ==>
      var p := rest[0].packet;
      && !p.SignaturePacket? && !p.PublicSubkey? && !(secret && p.SecretSubkey?)
      && (!hasSubkeys ==> !p.UserId? && !p.UserAttribute?)
  }

  /** Of the signatures of the primary key, those of type 0x20 revoke it and all others are direct; user ids and
      attributes keep the signatures of types 0x10 to 0x13 and 0x30, subkeys those of types 0x18 and 0x28; what keeps no
      signature is dropped. */
  predicate IsMadeOf(k: Key, primary: Packet, sigs: seq<Signature>, users: seq<Signed>, subkeys: seq<Signed>) {
    && k.primary == primary && k.revocations == Keep(sigs, {0x20})
    && k.directs == Keep(sigs, {0, 1, 2, 0x10, 0x11, 0x12, 0x13, 0x18, 0x19, 0x1F, 0x28, 0x30, 0x40, 0x50})
    && k.users == KeepSigned(users, IsUserId, {0x10, 0x11, 0x12, 0x13, 0x30})
    && k.attributes == KeepSigned(users, IsUserAttribute, {0x10, 0x11, 0x12, 0x13, 0x30})
    && k.publicSubkeys == KeepSigned(subkeys, IsPublicSubkey, {0x18, 0x28})
    && k.secretSubkeys == KeepSigned(subkeys, IsSecretSubkey, {0x18, 0x28})
  }

  lemma {:induction false} PrimaryKeeps(sigs: seq<Signature>)
    ensures Filter(sigs, Revocation) == Keep(sigs, {0x20})
    ensures Filter(sigs, Direct)
         == Keep(sigs, {0, 1, 2, 0x10, 0x11, 0x12, 0x13, 0x18, 0x19, 0x1F, 0x28, 0x30, 0x40, 0x50})
  {
    FilterKeeps(sigs, Revocation, {0x20});
    FilterKeeps(sigs, Direct, {0, 1, 2, 0x10, 0x11, 0x12, 0x13, 0x18, 0x19, 0x1F, 0x28, 0x30, 0x40, 0x50});
  }

  lemma {:induction false} UsersKeep(users: seq<Signed>)
    ensures Retain(users, UserRole) == KeepSigned(users, IsUserId, {0x10, 0x11, 0x12, 0x13, 0x30})
    ensures Retain(users, AttributeRole) == KeepSigned(users, IsUserAttribute, {0x10, 0x11, 0x12, 0x13, 0x30})
  {
    RetainKeeps(users, UserRole, IsUserId, {0x10, 0x11, 0x12, 0x13, 0x30});
    RetainKeeps(users, AttributeRole, IsUserAttribute, {0x10, 0x11, 0x12, 0x13, 0x30});
  }

  lemma {:induction false} SubkeysKeep(subkeys: seq<Signed>)
    ensures Retain(subkeys, PublicRole) == KeepSigned(subkeys, IsPublicSubkey, {0x18, 0x28})
    ensures Retain(subkeys, SecretRole) == KeepSigned(subkeys, IsSecretSubkey, {0x18, 0x28})
  {
    RetainKeeps(subkeys, PublicRole, IsPublicSubkey, {0x18, 0x28});
    RetainKeeps(subkeys, SecretRole, IsSecretSubkey, {0x18, 0x28});
  }

  lemma {:induction false} MadeFrom(primary: Packet, sigs: seq<Signature>, users: seq<Signed>, subkeys: seq<Signed>)
    ensures IsMadeOf(MakeKey(primary, sigs, users, subkeys), primary, sigs, users, subkeys)
  {
    PrimaryKeeps(sigs);
    UsersKeep(users);
    SubkeysKeep(subkeys);
  }

  lemma SkippedThenKey(others: seq<Packet>, primary: Packet, s: seq<Item>, secret: bool)
    requires if secret then primary.SecretKey? else primary.PublicKey?
    requires forall k :: 0 <= k < |others| ==> !(if secret then others[k].SecretKey? else others[k].PublicKey?)
    ensures Next(Items(others) + ([Ok(primary)] + s), secret) == NextKey(primary, s, secret)
  {
    OthersSkipped(others, [Ok(primary)] + s, secret);
    AtPrimary(primary, s, secret);
  }

  /** Packets in front of a primary key are skipped, the key is made of what its sections keep, and what is behind it is
      left. */
  lemma {:induction false} KeyFromSections(others: seq<Packet>, primary: Packet, sigs: seq<Signature>, users: seq<Signed>,
                                           subkeys: seq<Signed>, secret: bool, rest: seq<Item>)
    requires if secret then primary.SecretKey? else primary.PublicKey?
    requires forall k :: 0 <= k < |others| ==> !(if secret then others[k].SecretKey? else others[k].PublicKey?)
    requires forall k :: 0 <= k < |users| ==> users[k].packet.UserId? || users[k].packet.UserAttribute?
    requires forall k :: 0 <= k < |subkeys| ==>
               subkeys[k].packet.PublicSubkey? || (secret && subkeys[k].packet.SecretSubkey?)
    requires (subkeys != [] ==> primary.version == 4) && Behind(rest, secret, subkeys != [])
    ensures var (o, left) := Next(Items(others) + ([Ok(primary)] + (Items(SigPackets(sigs))
              + (Items(PrintSigned(users)) + (Items(PrintSigned(subkeys)) + rest)))), secret);
            left == rest && o.Found? && IsMadeOf(o.key, primary, sigs, users, subkeys)
  {
    var s := Items(SigPackets(sigs)) + (Items(PrintSigned(users)) + (Items(PrintSigned(subkeys)) + rest));
    SkippedThenKey(others, primary, s, secret);
    SectionsParse(primary, sigs, users, subkeys, secret, rest);
    MadeFrom(primary, sigs, users, subkeys);
  }

  /** A subkey behind a primary key that is not of version 4 is an error right behind it. */
  lemma {:induction false} OldKeyWithSubkey(primary: Packet, sigs: seq<Signature>, users: seq<Signed>, subkey: Packet,
                                            secret: bool, rest: seq<Item>)
    requires (if secret then primary.SecretKey? else primary.PublicKey?) && primary.version != 4
    requires forall k :: 0 <= k < |users| ==> users[k].packet.UserId? || users[k].packet.UserAttribute?
    requires subkey.PublicSubkey? || (secret && subkey.SecretSubkey?)
    ensures Next([Ok(primary)] + (Items(SigPackets(sigs)) + (Items(PrintSigned(users)) + ([Ok(subkey)] + rest))), secret)
         == (Failure, rest)
  {
    var s3 := [Ok(subkey)] + rest;
    assert s3[1..] == rest;
    PrintedFirst(users, Users, s3);
    SigsParse(sigs, Items(PrintSigned(users)) + s3);
    BundlesParse(users, Users, s3);
    AtPrimary(primary, Items(SigPackets(sigs)) + (Items(PrintSigned(users)) + s3), secret);
  }

  /** An error where a primary key should be is passed on. */
  lemma ErrorFirst(others: seq<Packet>, secret: bool, rest: seq<Item>)
    requires forall k :: 0 <= k < |others| ==> !(if secret then others[k].SecretKey? else others[k].PublicKey?)
    ensures Next(Items(others) + ([Err] + rest), secret) == (Failure, rest)
  {
    OthersSkipped(others, [Err] + rest, secret);
    assert ([Err] + rest)[1..] == rest;
  }
}

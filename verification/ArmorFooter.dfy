/** The footer of an ASCII-armored block: what `write_footer` of `src/armor/writer.rs` writes and what
    `footer_parser` of `src/armor/reader.rs` accepts. */
module ArmorFooter {
  import opened Bytes
  import opened Base64

  datatype Pkcs1 = RSA | DSA | EC

  const U64_LIMIT: nat := 0x1_0000_0000_0000_0000
  type u64 = n: int | 0 <= n < U64_LIMIT

  datatype BlockType =
    | PublicKey | PrivateKey | MultiPartMessage(part: u64, of: u64) | Message | Signature | File | CleartextMessage
    | PublicKeyPKCS1(pkcs1: Pkcs1) | PublicKeyPKCS8 | PublicKeyOpenssh
    | PrivateKeyPKCS1(pkcs1: Pkcs1) | PrivateKeyPKCS8 | PrivateKeyOpenssh

  /** The octets of an ASCII string */
  function Text(s: string): (r: bytes)
    ensures |r| == |s|
  {
    seq(|s|, i requires 0 <= i < |s| => s[i] as int % 256)
  }

  // ---- Decimal numbers

  predicate IsDigit(b: byte) { 48 <= b <= 57 }

  function Decimal(n: nat): (r: bytes)
    ensures r != []
  {
    if n < 10 then [48 + n] else Decimal(n / 10) + [48 + n % 10]
  }

  function DecimalValue(s: bytes): nat
    requires forall k :: 0 <= k < |s| ==> IsDigit(s[k])
  {
    if s == [] then 0
    else
      assert IsDigit(s[|s| - 1]);
      10 * DecimalValue(s[..|s| - 1]) + (s[|s| - 1] as int - 48)
  }

  lemma {:induction false} DecimalReads(n: nat)
    ensures forall k :: 0 <= k < |Decimal(n)| ==> IsDigit(Decimal(n)[k])
    ensures DecimalValue(Decimal(n)) == n
  {
    if n >= 10 {
      DecimalReads(n / 10);
      assert Decimal(n)[..|Decimal(n)| - 1] == Decimal(n / 10);
    } else {
      assert Decimal(n)[..0] == [];
    }
  }

  function Pow10(k: nat): nat { if k == 0 then 1 else 10 * Pow10(k - 1) }

  lemma {:induction false} DecimalLength(n: nat, k: nat)
    requires k > 0 && n < Pow10(k)
    ensures |Decimal(n)| <= k
  {
    if n >= 10 {
      DecimalLength(n / 10, k - 1);
    }
  }

  lemma TwentyDigits(n: u64)
    ensures |Decimal(n)| <= 20
  {
    assert Pow10(5) == 100000;
    assert Pow10(10) == 10000000000;
    assert Pow10(15) == 1000000000000000;
    assert Pow10(20) == 100000000000000000000;
    DecimalLength(n, 20);
  }

  // ---- Names

  function Name(t: BlockType): (s: string)
    requires !t.MultiPartMessage?
    ensures 10 <= |s| <= 21
  {
    match t
    case PublicKey => "PGP PUBLIC KEY BLOCK"
    case PrivateKey => "PGP PRIVATE KEY BLOCK"
    case Message => "PGP MESSAGE"
    case Signature => "PGP SIGNATURE"
    case File => "PGP ARMORED FILE"
    case CleartextMessage => "PGP SIGNED MESSAGE"
    case PublicKeyPKCS1(RSA) => "RSA PUBLIC KEY"
    case PublicKeyPKCS1(DSA) => "DSA PUBLIC KEY"
    case PublicKeyPKCS1(EC) => "EC PUBLIC KEY"
    case PublicKeyPKCS8 => "PUBLIC KEY"
    case PublicKeyOpenssh => "OPENSSH PUBLIC KEY"
    case PrivateKeyPKCS1(RSA) => "RSA PRIVATE KEY"
    case PrivateKeyPKCS1(DSA) => "DSA PRIVATE KEY"
    case PrivateKeyPKCS1(EC) => "EC PRIVATE KEY"
    case PrivateKeyPKCS8 => "PRIVATE KEY"
    case PrivateKeyOpenssh => "OPENSSH PRIVATE KEY"
  }

  const MULTI_PART: string := "PGP MESSAGE, PART "

  /** `as_string` */
  function NameText(t: BlockType): bytes {
    if t.MultiPartMessage? then Text(MULTI_PART) + (Decimal(t.part) + ([47] + Decimal(t.of))) else Text(Name(t))
  }

  lemma NameLength(t: BlockType)
    ensures |NameText(t)| <= 59
  {
    if t.MultiPartMessage? {
      TwentyDigits(t.part);
      TwentyDigits(t.of);
    }
  }

  /** The alternatives in the order in which they are tried: a fixed name, or the multi-part form */
  datatype Alternative = Fixed(typ: BlockType) | Multi

  const ALTERNATIVES: seq<Alternative> :=
    [Fixed(PublicKey), Fixed(PrivateKey), Multi, Fixed(Message), Fixed(Signature), Fixed(File), Fixed(CleartextMessage),
     Fixed(PublicKeyPKCS1(RSA)), Fixed(PublicKeyPKCS1(DSA)), Fixed(PublicKeyPKCS1(EC)), Fixed(PublicKeyPKCS8),
     Fixed(PublicKeyOpenssh), Fixed(PrivateKeyPKCS1(RSA)), Fixed(PrivateKeyPKCS1(DSA)), Fixed(PrivateKeyPKCS1(EC)),
     Fixed(PrivateKeyPKCS8), Fixed(PrivateKeyOpenssh)]

  // ---- Parsers

  function Tag(t: bytes, i: bytes): Parse<bytes> {
    if t <= i then Parsed(t, i[|t|..]) else if i <= t then Incomplete else Error
  }

  function LineEnding(i: bytes): Parse<bytes> {
    match Tag([10], i)
    case Error => Tag([13, 10], i)
    case r => r
  }

  /** `many0` of a parser of nonempty tags stops at the first error and asks for more at the end of the input. */
  function ManyLineEndings(i: bytes): (r: Parse<nat>)
    ensures r.Parsed? ==> |r.rest| <= |i|
    decreases |i|
  {
    match LineEnding(i)
    case Error => Parsed(0, i)
    case Incomplete => Incomplete
    case Parsed(_, rest) => ManyLineEndings(rest)
  }

  function ManyPads(i: bytes): Parse<nat>
    decreases |i|
  {
    match Tag([PAD], i)
    case Error => Parsed(0, i)
    case Incomplete => Incomplete
    case Parsed(_, rest) => ManyPads(rest)
  }

  function DigitCount(i: bytes): (n: nat)
    ensures n <= |i| && (forall k :: 0 <= k < n ==> IsDigit(i[k])) && (n < |i| ==> !IsDigit(i[n]))
  {
    if i == [] || !IsDigit(i[0]) then 0
    else
      var n := DigitCount(i[1..]);
      assert forall k :: 0 < k <= n ==> i[k] == i[1..][k - 1];
      n + 1
  }

  /** `digit1` and `parse_digit`: all the digits there are, if a digit comes first, something else comes behind them,
      and the number fits 64 bits */
  function ParseNumber(i: bytes): Parse<u64> {
    var n := DigitCount(i);
    if n == |i| then Incomplete
    else if n == 0 || DecimalValue(i[..n]) >= U64_LIMIT then Error
    else Parsed(DecimalValue(i[..n]), i[n..])
  }

  function ParseSecond(i: bytes): Parse<u64> {
    var (_, i) :- Tag([47], i);
    ParseNumber(i)
  }

  function ParseMultiPart(i: bytes): Parse<BlockType> {
    var (_, i) :- Tag(Text(MULTI_PART), i);
    var (part, i) :- ParseNumber(i);
    match ParseSecond(i)
    case Parsed(of, rest) => Parsed(MultiPartMessage(part, of), rest)
    case Incomplete => Incomplete
    case Error => Parsed(MultiPartMessage(part, 0), i)
  }

  function TryAlternative(a: Alternative, i: bytes): Parse<BlockType> {
    if a.Multi? then ParseMultiPart(i)
    else if a.typ.MultiPartMessage? then Error
    else
      var (_, rest) :- Tag(Text(Name(a.typ)), i);
      Parsed(a.typ, rest)
  }

  /** `armor_header_type`: the first alternative that matches */
  function ParseType(k: nat, i: bytes): Parse<BlockType>
    requires k <= |ALTERNATIVES|
    decreases |ALTERNATIVES| - k
  {
    if k == |ALTERNATIVES| then Error
    else match TryAlternative(ALTERNATIVES[k], i)
      case Error => ParseType(k + 1, i)
      case r => r
  }

  function WithChecksum(i: bytes): Parse<Option<bytes>> {
    var (_, i) :- Tag([PAD], i);
    var (c, i) :- Take(4, i);
    var (_, i) :- ManyLineEndings(i);
    var (_, i) :- Tag(Text("--"), i);
    Parsed(Some(c), i)
  }

  function WithoutChecksum(i: bytes): Parse<Option<bytes>> {
    var (_, i) :- ManyPads(i);
    var (_, i) :- ManyLineEndings(i);
    var (_, i) :- Tag(Text("--"), i);
    Parsed(None, i)
  }

  function OptionalChecksum(i: bytes): Parse<Option<bytes>> {
    match WithChecksum(i)
    case Error => WithoutChecksum(i)
    case r => r
  }

  /** `read_checksum`: the decoded octets at the top of a 24-bit integer */
  function ReadChecksum(c: bytes): Option<nat> {
    var b :- Decode(c);
    if |b| > 3 then None else Some(FromBe32([0] + b + Repeat(0, 3 - |b|)))
  }

  function FooterLine(i: bytes): Parse<BlockType> {
    var (_, i) :- Tag(Text("---END "), i);
    var (t, i) :- ParseType(0, i);
    var (_, i) :- Tag(Text("-----"), i);
    match LineEnding(i)
    case Parsed(_, rest) => Parsed(t, rest)
    case _ => Parsed(t, i)
  }

  function ParseFooter(i: bytes): Parse<(Option<nat>, BlockType)> {
    var (c, i) :- OptionalChecksum(i);
    if c.Some? && ReadChecksum(c.value).None? then Error
    else
      var sum := if c.None? then None else ReadChecksum(c.value);
      var (t, i) :- FooterLine(i);
      Parsed((sum, t), i)
  }

  // ---- The writer

  /** The checksum as `=` and four characters, when there is one */
  function ChecksumText(crc: Option<nat>): (r: bytes)
    ensures r == [] || (|r| == 5 && r[0] == PAD)
  {
    if crc.None? then []
    else
      var c := crc.value;
      var e := EncodeGroup(c / 0x1_0000 % 0x100, c / 0x100 % 0x100, c % 0x100);
      [PAD] + e
  }

  /** The footer line; the writer ends it with a line feed. */
  function FooterText(t: BlockType, ending: bytes): (r: bytes)
    ensures r != [] && r[0] == 45
  {
    Text("-----END ") + NameText(t) + (Text("-----") + ending)
  }

  lemma FooterLength(t: BlockType, ending: bytes)
    ensures |FooterText(t, ending)| <= 73 + |ending|
  {
    NameLength(t);
  }

  // ---- The footer is read back

  lemma TagAppend(t: bytes, rest: bytes)
    ensures Tag(t, t + rest) == Parsed(t, rest)
  {
    Split(t, rest);
  }

  lemma TagDiffers(t: bytes, i: bytes, k: nat)
    requires k < |t| && k < |i| && t[k] != i[k]
    ensures Tag(t, i) == Error
  {
  }

  /** Four characters tell the names apart: this finds a name by them. */
  function ByCharacters(a: char, b: char, c: char, d: char): BlockType {
    if a == 'P' && b == 'G' then
      if c == 'P' then if d == 'C' then PublicKey else PrivateKey
      else if c == 'M' then Message
      else if c == 'A' then File
      else if d == 'T' then Signature else CleartextMessage
    else if a == 'P' then if b == 'U' then PublicKeyPKCS8 else PrivateKeyPKCS8
    else if a == 'R' then if d == 'C' then PublicKeyPKCS1(RSA) else PrivateKeyPKCS1(RSA)
    else if a == 'D' then if d == 'C' then PublicKeyPKCS1(DSA) else PrivateKeyPKCS1(DSA)
    else if a == 'E' then if c == 'U' then PublicKeyPKCS1(EC) else PrivateKeyPKCS1(EC)
    else if d == 'U' then PublicKeyOpenssh else PrivateKeyOpenssh
  }

  lemma NameByCharacters(t: BlockType)
    requires !t.MultiPartMessage?
    ensures var a := Name(t); ByCharacters(a[0], a[1], a[4], a[9]) == t
  {
  }

  lemma NamesDiffer(t: BlockType, u: BlockType)
    requires t != u && !t.MultiPartMessage? && !u.MultiPartMessage?
    ensures var a, b := Name(t), Name(u); a[0] != b[0] || a[1] != b[1] || a[4] != b[4] || a[9] != b[9]
  {
    NameByCharacters(t);
    NameByCharacters(u);
  }

  lemma NameIsAscii(t: BlockType)
    requires !t.MultiPartMessage?
    ensures var a := Name(t); a[0] as int < 128 && a[1] as int < 128 && a[4] as int < 128 && a[9] as int < 128
  {
  }

  function Position(t: BlockType): (k: nat)
    ensures k < |ALTERNATIVES| && ALTERNATIVES[k] == if t.MultiPartMessage? then Multi else Fixed(t)
  {
    match t
    case PublicKey => 0
    case PrivateKey => 1
    case MultiPartMessage(_, _) => 2
    case Message => 3
    case Signature => 4
    case File => 5
    case CleartextMessage => 6
    case PublicKeyPKCS1(RSA) => 7
    case PublicKeyPKCS1(DSA) => 8
    case PublicKeyPKCS1(EC) => 9
    case PublicKeyPKCS8 => 10
    case PublicKeyOpenssh => 11
    case PrivateKeyPKCS1(RSA) => 12
    case PrivateKeyPKCS1(DSA) => 13
    case PrivateKeyPKCS1(EC) => 14
    case PrivateKeyPKCS8 => 15
    case PrivateKeyOpenssh => 16
  }

  lemma PositionIsUnique(k: nat)
    requires k < |ALTERNATIVES|
    ensures ALTERNATIVES[k].Multi? <==> k == 2
    ensures ALTERNATIVES[k].Fixed? ==> !ALTERNATIVES[k].typ.MultiPartMessage? && Position(ALTERNATIVES[k].typ) == k
  {
  }

  lemma OtherTextFails(a: string, b: string, k: nat, rest: bytes)
    requires k < |a| && k < |b| && a[k] != b[k] && a[k] as int < 128 && b[k] as int < 128
    ensures Tag(Text(b), Text(a) + rest) == Error
  {
    assert (Text(a) + rest)[k] == Text(a)[k];
    TagDiffers(Text(b), Text(a) + rest, k);
  }

  lemma OtherNameFails(t: BlockType, u: BlockType, rest: bytes)
    requires t != u && !t.MultiPartMessage? && !u.MultiPartMessage?
    ensures Tag(Text(Name(u)), Text(Name(t)) + rest) == Error
  {
    NamesDiffer(t, u);
    NameIsAscii(t);
    NameIsAscii(u);
    var k :| k in {0, 1, 4, 9} && Name(t)[k] != Name(u)[k];
    OtherTextFails(Name(t), Name(u), k, rest);
  }

  /** The multi-part form does not match any fixed name; the one it starts with is told from it by what follows. */
  lemma MultiPartFails(t: BlockType, rest: bytes)
    requires !t.MultiPartMessage? && rest != [] && rest[0] == 45
    ensures ParseMultiPart(Text(Name(t)) + rest) == Error
  {
    if t.Message? {
      var i := Text(Name(t)) + rest;
      assert i[11] == rest[0];
      assert Text(MULTI_PART)[11] == 44;
      TagDiffers(Text(MULTI_PART), i, 11);
    } else {
      NamesDiffer(t, Message);
      NameIsAscii(t);
      StartsLikeMessage();
      var k :| k in {0, 1, 4, 9} && Name(t)[k] != Name(Message)[k];
      OtherTextFails(Name(t), MULTI_PART, k, rest);
    }
  }

  lemma StartsLikeMessage()
    ensures forall k :: 0 <= k < 11 ==> MULTI_PART[k] == Name(Message)[k] && (MULTI_PART[k] as int) < 128
  {
  }

  lemma DigitsCounted(d: bytes, rest: bytes)
    requires (forall k :: 0 <= k < |d| ==> IsDigit(d[k])) && rest != [] && !IsDigit(rest[0])
    ensures DigitCount(d + rest) == |d|
  {
    var i := d + rest;
    assert i[|d|] == rest[0];
    assert forall k :: 0 <= k < |d| ==> i[k] == d[k];
  }

  lemma NumberParses(n: u64, rest: bytes)
    requires rest != [] && !IsDigit(rest[0])
    ensures ParseNumber(Decimal(n) + rest) == Parsed(n, rest)
  {
    DecimalReads(n);
    DigitsCounted(Decimal(n), rest);
    Split(Decimal(n), rest);
  }

  lemma MultiPartParses(part: u64, of: u64, rest: bytes)
    requires rest != [] && rest[0] == 45
    ensures ParseMultiPart(NameText(MultiPartMessage(part, of)) + rest) == Parsed(MultiPartMessage(part, of), rest)
  {
    var x, y := Decimal(part), Decimal(of);
    var i := x + ([47] + (y + rest));
    Regroup(Text(MULTI_PART), x + ([47] + y), rest);
    Regroup(x, [47] + y, rest);
    Regroup([47], y, rest);
    TagAppend(Text(MULTI_PART), i);
    NumberParses(part, [47] + (y + rest));
    TagAppend([47], y + rest);
    NumberParses(of, rest);
  }

  /** Before the multi-part form only the two key blocks are tried. */
  lemma KeyBlockFails(t: BlockType, part: u64, of: u64, rest: bytes)
    requires t.PublicKey? || t.PrivateKey?
    ensures Tag(Text(Name(t)), NameText(MultiPartMessage(part, of)) + rest) == Error
  {
    Regroup(Text(MULTI_PART), Decimal(part) + ([47] + Decimal(of)), rest);
    NamesDiffer(t, Message);
    NameIsAscii(t);
    StartsLikeMessage();
    var k :| k in {0, 1, 4, 9} && Name(t)[k] != Name(Message)[k];
    OtherTextFails(MULTI_PART, Name(t), k, Decimal(part) + ([47] + Decimal(of)) + rest);
  }

  /** No block type is taken for one that is tried earlier. */
  lemma {:induction false} TypeParses(k: nat, t: BlockType, rest: bytes)
    requires k <= Position(t) && rest != [] && rest[0] == 45
    ensures ParseType(k, NameText(t) + rest) == Parsed(t, rest)
    decreases Position(t) - k
  {
    if k < Position(t) {
      PositionIsUnique(k);
      EarlierFails(k, t, rest);
      TypeParses(k + 1, t, rest);
    } else if t.MultiPartMessage? {
      MultiPartParses(t.part, t.of, rest);
    } else {
      TagAppend(Text(Name(t)), rest);
    }
  }

  lemma EarlierFails(k: nat, t: BlockType, rest: bytes)
    requires k < Position(t) && rest != [] && rest[0] == 45
    ensures TryAlternative(ALTERNATIVES[k], NameText(t) + rest) == Error
  {
    PositionIsUnique(k);
    if t.MultiPartMessage? {
      assert k < 2;
      KeyBlockFails(ALTERNATIVES[k].typ, t.part, t.of, rest);
    } else if k == 2 {
      MultiPartFails(t, rest);
    } else {
      OtherNameFails(t, ALTERNATIVES[k].typ, rest);
    }
  }

  // ---- Line endings

  /** A sequence of line feeds and CRLFs */
  predicate LineEndings(nl: bytes) {
    || nl == []
    || (nl[0] == 10 && LineEndings(nl[1..]))
    || (|nl| >= 2 && nl[0] == 13 && nl[1] == 10 && LineEndings(nl[2..]))
  }

  lemma {:induction false} LineEndingsParse(nl: bytes, i: bytes)
    requires LineEndings(nl) && i != [] && i[0] == 45
    ensures ManyLineEndings(nl + i) == Parsed(0, i)
    decreases |nl|
  {
    if nl == [] {
      assert nl + i == i;
      TagDiffers([10], i, 0);
      TagDiffers([13, 10], i, 0);
    } else {
      var k := if nl[0] == 10 then 1 else 2;
      CutFront(nl, i, k);
      OneLineEnding(nl + i, k);
      LineEndingsParse(nl[k..], i);
    }
  }

  lemma OneLineEnding(s: bytes, k: nat)
    requires k <= |s| && (s[..k] == [10] || s[..k] == [13, 10])
    ensures LineEnding(s) == Parsed(s[..k], s[k..])
  {
    if s[..k] == [13, 10] {
      assert s[0] == s[..k][0];
      TagDiffers([10], s, 0);
    }
    assert s == s[..k] + s[k..];
    TagAppend(s[..k], s[k..]);
  }

  /** What may end the footer line: a line feed, a CRLF, or nothing in front of something else */
  predicate Ends(ending: bytes, rest: bytes) {
    ending == [10] || ending == [13, 10] || (ending == [] && (rest == [] || (rest[0] != 10 && rest[0] != 13)))
  }

  lemma EndingParses(ending: bytes, rest: bytes)
    requires Ends(ending, rest)
    ensures var r := LineEnding(ending + rest);
            if ending == [] then !r.Parsed? && ending + rest == rest else r == Parsed(ending, rest)
  {
    if ending == [10] {
      TagAppend([10], rest);
    } else if ending == [13, 10] {
      TagDiffers([10], ending + rest, 0);
      TagAppend([13, 10], rest);
    } else {
      assert ending + rest == rest;
    }
  }

  /** Text that the footer parser meets after the checksum and its line endings */
  lemma FooterLineParses(t: BlockType, ending: bytes, rest: bytes) returns (i: bytes)
    requires Ends(ending, rest)
    ensures FooterText(t, ending) + rest == Text("--") + i && FooterLine(i) == Parsed(t, rest)
  {
    var end, name, close := Text("---END "), NameText(t), Text("-----");
    i := end + (name + (close + (ending + rest)));
    assert Text("-----END ") == Text("--") + end;
    FooterRegroup(Text("--"), end, name, close, ending, rest);
    TagAppend(end, name + (close + (ending + rest)));
    TypeParses(0, t, close + (ending + rest));
    TagAppend(close, ending + rest);
    EndingParses(ending, rest);
  }

  lemma FooterRegroup(a: bytes, b: bytes, c: bytes, d: bytes, e: bytes, r: bytes)
    ensures a + b + c + (d + e) + r == a + (b + (c + (d + (e + r))))
  {
  }

  // ---- The checksum

  lemma ChecksumReads(c: nat)
    requires c < 0x100_0000
    ensures var e := EncodeGroup(c / 0x1_0000 % 0x100, c / 0x100 % 0x100, c % 0x100); ReadChecksum(e) == Some(c)
  {
    var x, y, z := c / 0x1_0000 % 0x100, c / 0x100 % 0x100, c % 0x100;
    FourCharacters(x, y, z);
    Widened(x, y, z);
    ThreeOctets(c);
  }

  lemma FourCharacters(x: byte, y: byte, z: byte)
    ensures Decode(EncodeGroup(x, y, z)) == Some([x, y, z])
  {
    GroupRoundTrip(x, y, z);
  }

  lemma ThreeOctets(c: nat)
    requires c < 0x100_0000
    ensures c == 0x1_0000 * (c / 0x1_0000 % 0x100) + 0x100 * (c / 0x100 % 0x100) + c % 0x100
  {
  }

  lemma Widened(x: byte, y: byte, z: byte)
    ensures FromBe32([0] + [x, y, z] + Repeat(0, 0)) as int == 0x1_0000 * x as int + 0x100 * y as int + z as int
  {
    var s: bytes := [0, x, y, z];
    assert [0] + [x, y, z] + Repeat(0, 0) == s;
    assert s[..2] == [0, x] && s[2..] == [y, z];
  }

  lemma WithChecksumParses(e: bytes, nl: bytes, foot: bytes, i: bytes)
    requires |e| == 4 && LineEndings(nl) && foot == Text("--") + i
    ensures WithChecksum([PAD] + e + (nl + foot)) == Parsed(Some(e), i)
  {
    Regroup([PAD], e, nl + foot);
    TagAppend([PAD], e + (nl + foot));
    TakeAppend(e, nl + foot);
    LineEndingsParse(nl, foot);
    TagAppend(Text("--"), i);
  }

  lemma WithoutChecksumParses(foot: bytes, i: bytes)
    requires foot == Text("--") + i
    ensures OptionalChecksum(foot) == Parsed(None, i)
  {
    TagDiffers([PAD], foot, 0);
    LineEndingsParse([], foot);
    assert [] + foot == foot;
    TagAppend(Text("--"), i);
  }

  /** A checksum and a footer are read back, whatever line endings are between them or have already been skipped. */
  lemma FooterParses(crc: Option<nat>, nl: bytes, t: BlockType, ending: bytes, rest: bytes)
    requires crc.Some? ==> crc.value < 0x100_0000
    requires LineEndings(nl) && (crc.None? ==> nl == []) && Ends(ending, rest)
    ensures ParseFooter(ChecksumText(crc) + (nl + (FooterText(t, ending) + rest))) == Parsed((crc, t), rest)
  {
    var foot := FooterText(t, ending) + rest;
    var i := FooterLineParses(t, ending, rest);
    if crc.None? {
      assert [] + ([] + foot) == foot;
      WithoutChecksumParses(foot, i);
    } else {
      var c := crc.value;
      ChecksumReads(c);
      ChecksumParses(EncodeGroup(c / 0x1_0000 % 0x100, c / 0x100 % 0x100, c % 0x100), c, nl, foot, i, t, rest);
    }
  }

  lemma ChecksumParses(e: bytes, c: nat, nl: bytes, foot: bytes, i: bytes, t: BlockType, rest: bytes)
    requires |e| == 4 && LineEndings(nl) && ReadChecksum(e) == Some(c)
    requires foot == Text("--") + i && FooterLine(i) == Parsed(t, rest)
    ensures ParseFooter([PAD] + e + (nl + foot)) == Parsed((Some(c), t), rest)
  {
    WithChecksumParses(e, nl, foot, i);
  }

  // ---- The names

  lemma {:induction false} NameParses(s: string, t: BlockType, rest: bytes)
    requires !t.MultiPartMessage? && s == Name(t) && rest != [] && rest[0] == 45
    ensures ParseType(0, Text(s) + rest) == Parsed(t, rest)
  {
    TypeParses(0, t, rest);
  }

  /** The names of OpenPGP blocks, with what follows them starting with a dash */
  lemma {:induction false} OpenPgpNames(rest: bytes)
    requires rest != [] && rest[0] == 45
    ensures ParseType(0, Text("PGP PUBLIC KEY BLOCK") + rest) == Parsed(PublicKey, rest)
    ensures ParseType(0, Text("PGP PRIVATE KEY BLOCK") + rest) == Parsed(PrivateKey, rest)
    ensures ParseType(0, Text("PGP MESSAGE") + rest) == Parsed(Message, rest)
    ensures ParseType(0, Text("PGP SIGNATURE") + rest) == Parsed(Signature, rest)
    ensures ParseType(0, Text("PGP ARMORED FILE") + rest) == Parsed(File, rest)
    ensures ParseType(0, Text("PGP SIGNED MESSAGE") + rest) == Parsed(CleartextMessage, rest)
  {
    NameParses("PGP PUBLIC KEY BLOCK", PublicKey, rest);
    NameParses("PGP PRIVATE KEY BLOCK", PrivateKey, rest);
    NameParses("PGP MESSAGE", Message, rest);
    NameParses("PGP SIGNATURE", Signature, rest);
    NameParses("PGP ARMORED FILE", File, rest);
    NameParses("PGP SIGNED MESSAGE", CleartextMessage, rest);
  }

  lemma {:induction false} MultiPartName(part: u64, of: u64, rest: bytes)
    requires rest != [] && rest[0] == 45
    ensures ParseType(0, Text("PGP MESSAGE, PART ") + (Decimal(part) + ([47] + Decimal(of))) + rest)
         == Parsed(MultiPartMessage(part, of), rest)
  {
    TypeParses(0, MultiPartMessage(part, of), rest);
  }
}

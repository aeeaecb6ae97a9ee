/** Whatever the armor footer parser accepts has the shape of a footer (`src/armor/reader.rs`). */
module ArmorFooterShape {
  import opened Bytes
  import opened Base64
  import opened ArmorFooter

  ghost predicate Digits(d: bytes) { d != [] && forall k :: 0 <= k < |d| ==> 48 <= d[k] <= 57 }

  /** The name of a block type; the numbers of a multi-part message may have leading zeros, and without the second one it
      is zero. */
  ghost predicate Names(name: bytes, t: BlockType) {
    if !t.MultiPartMessage? then name == Text(Name(t))
    else
      exists part ::
        && Digits(part) && DecimalValue(part) == t.part
        && ((name == Text("PGP MESSAGE, PART ") + part && t.of == 0)
            || exists of ::
                 && Digits(of) && DecimalValue(of) == t.of
                 && name == Text("PGP MESSAGE, PART ") + (part + ([47] + of)))
  }

  lemma TagParsed(t: bytes, i: bytes)
    requires Tag(t, i).Parsed?
    ensures i == t + Tag(t, i).rest
  {
  }

  lemma LineEndingParsed(i: bytes) returns (nl: bytes)
    requires LineEnding(i).Parsed?
    ensures i == nl + LineEnding(i).rest && nl in {[10], [13, 10]}
  {
    if Tag([10], i).Parsed? {
      nl := [10];
      TagParsed([10], i);
    } else {
      nl := [13, 10];
      TagParsed([13, 10], i);
    }
  }

  lemma {:induction false} LineEndingsParsed(i: bytes) returns (nl: bytes)
    requires ManyLineEndings(i).Parsed?
    ensures i == nl + ManyLineEndings(i).rest && LineEndings(nl)
    decreases |i|
  {
    if LineEnding(i).Parsed? {
      var first := LineEndingParsed(i);
      var more := LineEndingsParsed(LineEnding(i).rest);
      nl := first + more;
      Regroup(first, more, ManyLineEndings(i).rest);
      assert nl[|first|..] == more;
    } else {
      nl := [];
      assert i == [] + i;
    }
  }

  lemma {:induction false} PadsParsed(i: bytes) returns (pads: bytes)
    requires ManyPads(i).Parsed?
    ensures i == pads + ManyPads(i).rest && forall k :: 0 <= k < |pads| ==> pads[k] == 61
    decreases |i|
  {
    if Tag([PAD], i).Parsed? {
      TagParsed([PAD], i);
      var more := PadsParsed(Tag([PAD], i).rest);
      pads := [PAD] + more;
      Regroup([PAD], more, ManyPads(i).rest);
    } else {
      pads := [];
      assert i == [] + i;
    }
  }

  lemma NumberParsed(i: bytes) returns (d: bytes)
    requires ParseNumber(i).Parsed?
    ensures i == d + ParseNumber(i).rest && Digits(d) && DecimalValue(d) == ParseNumber(i).value
  {
    var n := DigitCount(i);
    d := i[..n];
    assert i == i[..n] + i[n..];
    forall k | 0 <= k < |d| ensures 48 <= d[k] <= 57 {
      assert IsDigit(i[k]);
    }
  }

  lemma MultiPartParsed(i: bytes) returns (name: bytes)
    requires ParseMultiPart(i).Parsed?
    ensures ParseMultiPart(i).value.MultiPartMessage?
    ensures i == name + ParseMultiPart(i).rest && Names(name, ParseMultiPart(i).value)
  {
    var tag := Text(MULTI_PART);
    TagParsed(tag, i);
    var i1 := Tag(tag, i).rest;
    var part := NumberParsed(i1);
    var i2 := ParseNumber(i1).rest;
    if ParseSecond(i2).Parsed? {
      TagParsed([47], i2);
      var of := NumberParsed(Tag([47], i2).rest);
      name := tag + (part + ([47] + of));
      var rest := ParseSecond(i2).rest;
      Regroup([47], of, rest);
      Regroup(part, [47] + of, rest);
      Regroup(tag, part + ([47] + of), rest);
    } else {
      name := tag + part;
      Regroup(tag, part, i2);
    }
  }

  lemma {:induction false} TypeParsed(k: nat, i: bytes) returns (name: bytes)
    requires k <= |ALTERNATIVES| && ParseType(k, i).Parsed?
    ensures i == name + ParseType(k, i).rest && Names(name, ParseType(k, i).value)
    decreases |ALTERNATIVES| - k
  {
    var a := ALTERNATIVES[k];
    if TryAlternative(a, i).Error? {
      name := TypeParsed(k + 1, i);
    } else if a.Multi? {
      name := MultiPartParsed(i);
    } else {
      name := Text(Name(a.typ));
      TagParsed(name, i);
    }
  }

  lemma FooterLineParsed(i: bytes) returns (name: bytes, ending: bytes)
    requires FooterLine(i).Parsed?
    ensures i == Text("---END ") + (name + (Text("-----") + (ending + FooterLine(i).rest)))
    ensures Names(name, FooterLine(i).value) && ending in {[], [10], [13, 10]}
  {
    TagParsed(Text("---END "), i);
    var i1 := Tag(Text("---END "), i).rest;
    name := TypeParsed(0, i1);
    var i2 := ParseType(0, i1).rest;
    TagParsed(Text("-----"), i2);
    var i3 := Tag(Text("-----"), i2).rest;
    if LineEnding(i3).Parsed? {
      ending := LineEndingParsed(i3);
    } else {
      ending := [];
      assert i3 == [] + i3;
    }
  }

  /** What stands in front of the footer's line endings: the checksum behind a padding character, or padding characters */
  ghost predicate Sums(front: bytes, sum: Option<nat>) {
    if sum.None? then forall k :: 0 <= k < |front| ==> front[k] == 61
    else |front| == 5 && front[0] == 61 && ReadChecksum(front[1..]) == sum
  }

  lemma ChecksumParsed(i: bytes) returns (front: bytes, nl: bytes)
    requires OptionalChecksum(i).Parsed?
    ensures i == front + (nl + (Text("--") + OptionalChecksum(i).rest)) && LineEndings(nl)
    ensures var c := OptionalChecksum(i).value;
            if c.Some? then |c.value| == 4 && front == [61] + c.value else forall k :: 0 <= k < |front| ==> front[k] == 61
  {
    if WithChecksum(i).Parsed? {
      TagParsed([PAD], i);
      var i1 := Tag([PAD], i).rest;
      var c, i2 := i1[..4], i1[4..];
      front := [PAD] + c;
      nl := LineEndingsParsed(i2);
      TagParsed(Text("--"), ManyLineEndings(i2).rest);
      assert i1 == c + i2;
      Regroup([PAD], c, i2);
    } else {
      front := PadsParsed(i);
      nl := LineEndingsParsed(ManyPads(i).rest);
      TagParsed(Text("--"), ManyLineEndings(ManyPads(i).rest).rest);
    }
  }

  /** Everything that the parser accepts is a checksum or padding, line endings, and a footer line with the name of the
      type, with or without a line ending; it consumes exactly that. */
  lemma ParsedFooter(i: bytes) returns (front: bytes, nl: bytes, name: bytes, ending: bytes)
    requires ParseFooter(i).Parsed?
    ensures i == front + (nl + (Text("--") + (Text("---END ")
                 + (name + (Text("-----") + (ending + ParseFooter(i).rest))))))
    ensures var (sum, t) := ParseFooter(i).value;
            Sums(front, sum) && LineEndings(nl) && Names(name, t) && ending in {[], [10], [13, 10]}
  {
    front, nl := ChecksumParsed(i);
    name, ending := FooterLineParsed(OptionalChecksum(i).rest);
    var c := OptionalChecksum(i).value;
    if c.Some? {
      assert front[1..] == c.value;
    }
  }
}

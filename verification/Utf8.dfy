/** Rust strings: octet strings that are well-formed UTF-8 (RFC 3629). */
module Utf8 {
  import opened Bytes

  predicate Tail(b: byte) { 0x80 <= b < 0xC0 }

  /** Octet length of the scalar value at the front of `s`, or 0 when there is none. */
  function CharLength(s: bytes): (n: nat)
    ensures n <= |s|
    ensures n == 1 <==> s != [] && s[0] < 0x80
  {
    if |s| >= 1 && s[0] < 0x80 then 1
    else if |s| >= 2 && 0xC2 <= s[0] < 0xE0 && Tail(s[1]) then 2
    else if |s| >= 3 && 0xE0 <= s[0] < 0xF0 && Tail(s[1]) && Tail(s[2])
         && (s[0] == 0xE0 ==> s[1] >= 0xA0) && (s[0] == 0xED ==> s[1] < 0xA0) then 3
    else if |s| >= 4 && 0xF0 <= s[0] < 0xF5 && Tail(s[1]) && Tail(s[2]) && Tail(s[3])
         && (s[0] == 0xF0 ==> s[1] >= 0x90) && (s[0] == 0xF4 ==> s[1] < 0x90) then 4
    else 0
  }

  predicate WellFormed(s: bytes) {
    s == [] || (CharLength(s) > 0 && WellFormed(s[CharLength(s)..]))
  }

  type text = s: bytes | WellFormed(s) witness []

  /** `s.chars().count()` */
  function CharCount(s: text): (n: nat)
    ensures n <= |s|
  {
    if s == [] then 0 else 1 + CharCount(s[CharLength(s)..])
  }

  predicate Ascii(s: bytes) { forall k :: 0 <= k < |s| ==> s[k] < 0x80 }

  /** Counting characters instead of octets is right exactly for ASCII. */
  lemma {:induction false} CharCountIsLength(s: text)
    ensures CharCount(s) == |s| <==> Ascii(s)
  {
    if s != [] {
      var n := CharLength(s);
      CharCountIsLength(s[n..]);
      if n == 1 {
        assert forall k :: 0 <= k < |s| ==> s[k] == if k == 0 then s[0] else s[1..][k - 1];
        assert Ascii(s[1..]) ==> Ascii(s);
        assert Ascii(s) ==> Ascii(s[1..]);
      }
    }
  }

  // ---- Scalar values

  predicate IsScalar(c: nat) { c < 0x11_0000 && !(0xD800 <= c < 0xE000) }

  /** The encoding of RFC 3629, section 3 */
  function Encoded(c: nat): bytes
    requires IsScalar(c)
  {
    if c < 0x80 then [c]
    else if c < 0x800 then [0xC0 + c / 0x40, 0x80 + c % 0x40]
    else if c < 0x1_0000 then [0xE0 + c / 0x1000, 0x80 + c / 0x40 % 0x40, 0x80 + c % 0x40]
    else [0xF0 + c / 0x4_0000, 0x80 + c / 0x1000 % 0x40, 0x80 + c / 0x40 % 0x40, 0x80 + c % 0x40]
  }

  /** Every scalar value is found at the front of its encoding. */
  lemma EncodedIsFound(c: nat, rest: bytes)
    requires IsScalar(c)
    ensures CharLength(Encoded(c) + rest) == |Encoded(c)|
  {
    var s := Encoded(c) + rest;
    assert forall k :: 0 <= k < |Encoded(c)| ==> s[k] == Encoded(c)[k];
  }

  /** Nothing else is: what is found is the encoding of a scalar value. */
  lemma FoundIsEncoded(s: bytes) returns (c: nat)
    requires CharLength(s) > 0
    ensures IsScalar(c) && s[..CharLength(s)] == Encoded(c)
  {
    var n := CharLength(s);
    if n == 1 {
      c := s[0];
    } else if n == 2 {
      c := TwoOctets(s[0], s[1]);
    } else if n == 3 {
      c := ThreeOctets(s[0], s[1], s[2]);
    } else {
      c := FourOctets(s[0], s[1], s[2], s[3]);
    }
  }

  lemma TwoOctets(p: int, q: int) returns (c: nat)
    requires 0xC2 <= p < 0xE0 && 0x80 <= q < 0xC0
    ensures 0x80 <= c < 0x800 && Encoded(c) == [p, q]
  {
    c := (p - 0xC0) * 0x40 + (q - 0x80);
  }

  lemma ThreeOctets(p: int, q: int, r: int) returns (c: nat)
    requires 0xE0 <= p < 0xF0 && 0x80 <= q < 0xC0 && 0x80 <= r < 0xC0
    requires (p == 0xE0 ==> q >= 0xA0) && (p == 0xED ==> q < 0xA0)
    ensures IsScalar(c) && 0x800 <= c < 0x1_0000 && Encoded(c) == [p, q, r]
  {
    c := (p - 0xE0) * 0x1000 + (q - 0x80) * 0x40 + (r - 0x80);
  }

  lemma FourOctets(p: int, q: int, r: int, t: int) returns (c: nat)
    requires 0xF0 <= p < 0xF5 && 0x80 <= q < 0xC0 && 0x80 <= r < 0xC0 && 0x80 <= t < 0xC0
    requires (p == 0xF0 ==> q >= 0x90) && (p == 0xF4 ==> q < 0x90)
    ensures IsScalar(c) && 0x1_0000 <= c && Encoded(c) == [p, q, r, t]
  {
    var x := (p - 0xF0) * 0x40 + (q - 0x80);
    var y := x * 0x40 + (r - 0x80);
    c := y * 0x40 + (t - 0x80);
    Digit(p - 0xF0, q - 0x80);
    Digit(x, r - 0x80);
    Digit(y, t - 0x80);
    Nested(c);
  }

  lemma Digit(high: nat, low: nat)
    requires low < 0x40
    ensures (high * 0x40 + low) / 0x40 == high && (high * 0x40 + low) % 0x40 == low
  {
  }

  lemma Nested(c: nat)
    ensures c / 0x1000 == c / 0x40 / 0x40 && c / 0x4_0000 == c / 0x40 / 0x40 / 0x40
  {
  }
}

/** The standard base64 alphabet with canonical padding, as the `base64` engine of the armor code encodes and
    decodes it: nothing but the canonical encoding is accepted. */
module Base64 {
  import opened Bytes

  type sextet = n: int | 0 <= n < 64

  const PAD: byte := 61

  function Char(v: sextet): (c: byte)
    ensures Value(c) == Some(v) && c != PAD
  {
    if v < 26 then 65 + v else if v < 52 then 71 + v else if v < 62 then v - 4 else if v == 62 then 43 else 47
  }

  function Value(c: byte): (v: Option<sextet>)
    ensures v.Some? ==> c != PAD
  {
    if 65 <= c <= 90 then Some(c - 65) else if 97 <= c <= 122 then Some(c - 71)
    else if 48 <= c <= 57 then Some(c + 4) else if c == 43 then Some(62) else if c == 47 then Some(63) else None
  }

  /** Three octets as four characters */
  function EncodeGroup(a: byte, b: byte, c: byte): (r: bytes)
    ensures |r| == 4
  {
    [Char(a / 4), Char(a % 4 * 16 + b / 16), Char(b % 16 * 4 + c / 64), Char(c % 64)]
  }

  function EncodeLast(s: bytes): (r: bytes)
    requires |s| == 1 || |s| == 2
    ensures |r| == 4
  {
    if |s| == 1 then [Char(s[0] / 4), Char(s[0] % 4 * 16), PAD, PAD]
    else [Char(s[0] / 4), Char(s[0] % 4 * 16 + s[1] / 16), Char(s[1] % 16 * 4), PAD]
  }

  function Encode(s: bytes): (r: bytes)
    ensures |r| == (|s| + 2) / 3 * 4
  {
    if s == [] then []
    else if |s| < 3 then EncodeLast(s)
    else EncodeGroup(s[0], s[1], s[2]) + Encode(s[3..])
  }

  /** Four characters without padding */
  function DecodeGroup(q: bytes): (r: Option<bytes>)
    requires |q| == 4
    ensures r.Some? ==> |r.value| == 3
  {
    var a :- Value(q[0]);
    var b :- Value(q[1]);
    var c :- Value(q[2]);
    var d :- Value(q[3]);
    Some([4 * a + b / 16, b % 16 * 16 + c / 4, c % 4 * 64 + d])
  }

  /** The last four characters, which may be padded; unused bits must be zero. */
  function DecodeLast(q: bytes): Option<bytes>
    requires |q| == 4
  {
    if q[3] != PAD then DecodeGroup(q)
    else
      var a :- Value(q[0]);
      var b :- Value(q[1]);
      if q[2] == PAD then
        if b % 16 != 0 then None else Some([4 * a + b / 16])
      else
        var c :- Value(q[2]);
        if c % 4 != 0 then None else Some([4 * a + b / 16, b % 16 * 16 + c / 4])
  }

  function Decode(s: bytes): Option<bytes> {
    if s == [] then Some([])
    else if |s| < 4 then None
    else if |s| == 4 then DecodeLast(s)
    else
      var head :- DecodeGroup(s[..4]);
      var rest :- Decode(s[4..]);
      Some(head + rest)
  }

  lemma GroupRoundTrip(a: byte, b: byte, c: byte)
    ensures DecodeGroup(EncodeGroup(a, b, c)) == Some([a, b, c])
    ensures DecodeLast(EncodeGroup(a, b, c)) == Some([a, b, c])
  {
    Repacked(a, b, c);
    assert DecodeGroup(EncodeGroup(a, b, c)).value == [a, b, c];
  }

  lemma Repacked(a: byte, b: byte, c: byte)
    ensures var v, w := a % 4 * 16 + b / 16, b % 16 * 4 + c / 64;
            4 * (a / 4) + v / 16 == a && v % 16 * 16 + w / 4 == b && w % 4 * 64 + c % 64 == c
  {
  }

  lemma LastRoundTrip(s: bytes)
    requires |s| == 1 || |s| == 2
    ensures DecodeLast(EncodeLast(s)) == Some(s)
  {
    Repacked(s[0], if |s| == 1 then 0 else s[1], 0);
    if |s| == 1 {
      assert s == [s[0]];
    } else {
      assert s == [s[0], s[1]];
    }
  }

  /** The encoding of the first groups is a prefix, and the encoding of the others follows it. */
  lemma {:induction false} EncodeSplit(s: bytes, k: nat)
    requires 3 * k <= |s|
    ensures |Encode(s)| >= 4 * k && Encode(s)[..4 * k] == Encode(s[..3 * k]) && Encode(s)[4 * k..] == Encode(s[3 * k..])
  {
    if k > 0 {
      EncodeSplit(s[3..], k - 1);
      EncodeUnfold(s);
      EncodeUnfold(s[..3 * k]);
      assert s[..3 * k][3..] == s[3..][..3 * (k - 1)];
      assert s[3..][3 * (k - 1)..] == s[3 * k..];
      CutBehind(EncodeGroup(s[0], s[1], s[2]), Encode(s[3..]), 4 * k);
    }
  }

  lemma EncodeUnfold(s: bytes)
    requires |s| >= 3
    ensures Encode(s) == EncodeGroup(s[0], s[1], s[2]) + Encode(s[3..])
  {
  }

  /** Decoding inverts encoding. */
  lemma {:induction false} DecodeEncode(s: bytes)
    ensures Decode(Encode(s)) == Some(s)
  {
    if s == [] {
    } else if |s| < 3 {
      LastRoundTrip(s);
    } else {
      var g := EncodeGroup(s[0], s[1], s[2]);
      GroupRoundTrip(s[0], s[1], s[2]);
      if |s| == 3 {
        assert Encode(s[3..]) == [];
        AppendNothing(g);
        assert s == [s[0], s[1], s[2]];
      } else {
        Split(g, Encode(s[3..]));
        DecodeEncode(s[3..]);
        assert [s[0], s[1], s[2]] + s[3..] == s;
      }
    }
  }

  /** A group that starts with the padding character is never decoded. */
  lemma {:induction false} PaddingFirst(s: bytes, k: nat)
    requires 4 * k < |s| && s[4 * k] == PAD
    ensures Decode(s).None?
  {
    if k > 0 && |s| > 4 {
      assert s[4..][4 * (k - 1)] == s[4 * k];
      PaddingFirst(s[4..], k - 1);
    }
  }

  // ---- `try_decode_engine_slice`

  /** The largest number of groups, up to `g`, for which `f` has a result, and that result */
  function Longest(f: nat -> Option<bytes>, g: nat): (r: (nat, bytes))
    requires f(0) == Some([])
    ensures r.0 <= g && f(4 * r.0) == Some(r.1)
  {
    if g == 0 then (0, [])
    else if f(4 * g).Some? then (g, f(4 * g).value)
    else Longest(f, g - 1)
  }

  lemma {:induction false} LongestIs(f: nat -> Option<bytes>, g: nat, k: nat)
    requires f(0) == Some([]) && k <= g && f(4 * k).Some? && forall j :: k < j <= g ==> f(4 * j).None?
    ensures Longest(f, g) == (k, f(4 * k).value)
  {
    if k < g {
      LongestIs(f, g - 1, k);
    }
  }

  lemma {:induction false} NothingLonger(f: nat -> Option<bytes>, g: nat, j: nat)
    requires f(0) == Some([]) && Longest(f, g).0 < j <= g
    ensures f(4 * j).None?
  {
    if j < g {
      NothingLonger(f, g - 1, j);
    }
  }

  /** What the prefixes of a string decode to */
  function Prefixes(s: bytes): (f: nat -> Option<bytes>)
    ensures f(0) == Some([]) && forall n :: 0 <= n <= |s| ==> f(n) == Decode(s[..n])
  {
    (n: nat) => if n <= |s| then Decode(s[..n]) else None
  }

  /** The longest prefix of whole groups that decodes, and its octets */
  function LongestDecodable(s: bytes, n: nat): (r: (nat, bytes))
    requires n % 4 == 0 && n <= |s|
    ensures r.0 <= n && r.0 % 4 == 0 && Decode(s[..r.0]) == Some(r.1)
  {
    var r := Longest(Prefixes(s), n / 4);
    (4 * r.0, r.1)
  }

  lemma NothingLongerDecodes(s: bytes, n: nat, m: nat)
    requires n % 4 == 0 && n <= |s| && LongestDecodable(s, n).0 < m <= n && m % 4 == 0
    ensures Decode(s[..m]).None?
  {
    assert 4 * (m / 4) == m;
    NothingLonger(Prefixes(s), n / 4, m / 4);
  }

  /** Only whole groups decode. */
  lemma {:induction false} DecodeNeedsGroups(s: bytes)
    requires |s| % 4 != 0
    ensures Decode(s).None?
  {
    if |s| > 4 {
      DecodeNeedsGroups(s[4..]);
    }
  }

  /** Whole groups: `n` rounded down to a multiple of four */
  function Groups(n: nat): (m: nat)
    ensures m % 4 == 0 && m <= n < m + 4 && m / 4 == n / 4
  {
    n / 4 * 4
  }

  /** One retry does not change what is found. */
  lemma Retry(s: bytes, n: nat)
    requires 0 < n <= |s| && Decode(s[..n]).None?
    ensures var m := if n % 4 != 0 then n - n % 4 else n - 4;
            LongestDecodable(s, Groups(m)) == LongestDecodable(s, Groups(n))
  {
    var f, g := Prefixes(s), n / 4;
    if n % 4 == 0 {
      assert 4 * g == n && (n - 4) / 4 == g - 1;
      assert f(n).None?;
    } else {
      assert (n - n % 4) / 4 == g;
    }
  }

  lemma Hit(s: bytes, n: nat)
    requires 0 < n <= |s| && Decode(s[..n]).Some?
    ensures LongestDecodable(s, Groups(n)) == (n, Decode(s[..n]).value)
  {
    if n % 4 != 0 {
      DecodeNeedsGroups(s[..n]);
    }
    assert 4 * (n / 4) == n;
  }

  /** The retry loop: shorten the slice to whole groups, then by one group, until it decodes. */
  method TryDecode(input: bytes) returns (n: nat, out: bytes)
    ensures (n, out) == LongestDecodable(input, Groups(|input|))
  {
    n := |input|;
    while n > 0
      invariant n <= |input|
      invariant LongestDecodable(input, Groups(n)) == LongestDecodable(input, Groups(|input|))
    {
      var r := Decode(input[..n]);
      if r.Some? {
        Hit(input, n);
        return n, r.value;
      }
      Retry(input, n);
      n := if n % 4 != 0 then n - n % 4 else n - 4;
    }
    out := [];
  }

  /** Number of octets in the first `m` characters */
  function Octets(data: bytes, m: nat): (k: nat)
    ensures k <= |data|
  {
    Min(m / 4 * 3, |data|)
  }

  lemma {:induction false} PrefixDecodes(data: bytes, m: nat)
    requires m % 4 == 0 && m <= |Encode(data)|
    ensures Decode(Encode(data)[..m]) == Some(data[..Octets(data, m)])
    ensures Encode(data)[m..] == Encode(data[Octets(data, m)..])
  {
    var e := Encode(data);
    if m / 4 * 3 <= |data| {
      assert 4 * (m / 4) == m;
      EncodeSplit(data, m / 4);
      DecodeEncode(data[..m / 4 * 3]);
    } else {
      assert m == |e| && e[..m] == e && e[m..] == [] && data[|data|..] == [] && data[..|data|] == data;
      DecodeEncode(data);
    }
  }

  lemma BeyondTheData(e: bytes, tail: bytes, j: nat)
    requires |e| % 4 == 0 && |e| < j <= |e + tail| && tail[0] == PAD
    ensures Decode((e + tail)[..j]).None?
  {
    assert (e + tail)[..j][4 * (|e| / 4)] == tail[0];
    PaddingFirst((e + tail)[..j], |e| / 4);
  }

  /** On encoded data followed by nothing or by a padding character, what is decoded is the data in the slice. */
  lemma {:induction false} DecodableIsData(data: bytes, tail: bytes, n: nat)
    requires n % 4 == 0 && n <= |Encode(data) + tail| && (tail != [] ==> tail[0] == PAD)
    ensures var m := Min(n, |Encode(data)|);
            LongestDecodable(Encode(data) + tail, n) == (m, data[..Octets(data, m)])
            && Encode(data)[m..] == Encode(data[Octets(data, m)..])
  {
    var e := Encode(data);
    var m := Min(n, |e|);
    assert (e + tail)[..m] == e[..m];
    PrefixDecodes(data, m);
    var f, g, k := Prefixes(e + tail), n / 4, m / 4;
    assert 4 * k == m;
    forall j | k < j <= g ensures f(4 * j).None? {
      BeyondTheData(e, tail, 4 * j);
    }
    LongestIs(f, g, k);
  }

  // ---- Nothing else decodes

  lemma CharOfValue(c: byte)
    requires Value(c).Some?
    ensures Char(Value(c).value) == c
  {
  }

  lemma Unpacked(a: sextet, b: sextet, c: sextet, d: sextet)
    ensures var x, y, z := 4 * a + b / 16, b % 16 * 16 + c / 4, c % 4 * 64 + d;
            x / 4 == a && x % 4 * 16 + y / 16 == b && y % 16 * 4 + z / 64 == c && z % 64 == d
  {
  }

  lemma GroupIsEncoded(q: bytes)
    requires |q| == 4 && DecodeGroup(q).Some?
    ensures var d := DecodeGroup(q).value; EncodeGroup(d[0], d[1], d[2]) == q
  {
    Unpacked(Value(q[0]).value, Value(q[1]).value, Value(q[2]).value, Value(q[3]).value);
    CharOfValue(q[0]);
    CharOfValue(q[1]);
    CharOfValue(q[2]);
    CharOfValue(q[3]);
    assert q == [q[0], q[1], q[2], q[3]];
  }

  lemma LastIsEncoded(q: bytes)
    requires |q| == 4 && DecodeLast(q).Some?
    ensures Encode(DecodeLast(q).value) == q
  {
    var d := DecodeLast(q).value;
    assert q == [q[0], q[1], q[2], q[3]];
    if q[3] != PAD {
      GroupIsEncoded(q);
      assert Encode(d[3..]) == [];
      AppendNothing(q);
    } else {
      var c := if q[2] == PAD then 0 else Value(q[2]).value;
      Unpacked(Value(q[0]).value, Value(q[1]).value, c, 0);
      CharOfValue(q[0]);
      CharOfValue(q[1]);
      if q[2] != PAD {
        CharOfValue(q[2]);
      }
    }
  }

  /** Exactly the encodings decode: no other padding, no stray bits behind the data, no other characters. */
  lemma {:induction false} DecodesExactlyTheEncoded(s: bytes, d: bytes)
    ensures Decode(s) == Some(d) <==> s == Encode(d)
  {
    if s == Encode(d) {
      DecodeEncode(d);
    } else if Decode(s) == Some(d) {
      DecodedIsEncoded(s);
    }
  }

  lemma {:induction false} DecodedIsEncoded(s: bytes)
    requires Decode(s).Some?
    ensures Encode(Decode(s).value) == s
  {
    if |s| == 4 {
      LastIsEncoded(s);
    } else if |s| > 4 {
      var head, rest := DecodeGroup(s[..4]).value, Decode(s[4..]).value;
      GroupIsEncoded(s[..4]);
      DecodedIsEncoded(s[4..]);
      assert (head + rest)[3..] == rest;
      assert s == s[..4] + s[4..];
    }
  }
}

/** Octets, big-endian integers and the result type shared by all the parsers.

    A parser of the `nom` crate in streaming mode either consumes a prefix of its input,
    asks for more input, or rejects the input; `Parse` has one constructor for each. */
module Bytes {

  type byte = b: int | 0 <= b < 256
  type u16 = n: int | 0 <= n < 0x1_0000
  type u32 = n: int | 0 <= n < 0x1_0000_0000
  type bytes = seq<byte>

  datatype Option<+T> = None | Some(value: T) {
    predicate IsFailure() { None? }
    function PropagateFailure<U>(): Option<U>
      requires None?
    {
      None
    }
    function Extract(): T
      requires Some?
    {
      value
    }
  }

  datatype Parse<+T> = Parsed(value: T, rest: bytes) | Incomplete | Error {
    predicate IsFailure() { !Parsed? }
    function PropagateFailure<U>(): Parse<U>
      requires !Parsed?
    {
      if Incomplete? then Incomplete else Error
    }
    function Extract(): (T, bytes)
      requires Parsed?
    {
      (value, rest)
    }
  }

  // ---- Big-endian integers. A value too large for its field is truncated, as `as u16` does.

  function Be16(n: nat): (r: bytes)
    ensures |r| == 2
  {
    [n / 0x100 % 0x100, n % 0x100]
  }

  function Be32(n: nat): (r: bytes)
    ensures |r| == 4
  {
    Be16(n / 0x1_0000) + Be16(n)
  }

  function Be64(n: nat): (r: bytes)
    ensures |r| == 8
  {
    Be32(n / 0x1_0000_0000) + Be32(n)
  }

  function FromBe16(s: bytes): u16
    requires |s| == 2
  {
    0x100 * (s[0] as int) + s[1] as int
  }

  function FromBe32(s: bytes): u32
    requires |s| == 4
  {
    0x1_0000 * (FromBe16(s[..2]) as int) + FromBe16(s[2..]) as int
  }

  lemma Be16Inverse(n: nat)
    ensures FromBe16(Be16(n)) == n % 0x1_0000
  {
    assert n % 0x1_0000 == 0x100 * (n / 0x100 % 0x100) + n % 0x100;
  }

  lemma DivModSplit(n: nat)
    ensures n % 0x1_0000_0000 == 0x1_0000 * (n / 0x1_0000 % 0x1_0000) + n % 0x1_0000
  {
  }

  lemma Be32Inverse(n: nat)
    ensures FromBe32(Be32(n)) == n % 0x1_0000_0000
  {
    var hi, lo := Be16(n / 0x1_0000), Be16(n);
    assert (hi + lo)[..2] == hi && (hi + lo)[2..] == lo;
    calc {
      FromBe32(Be32(n)) as int;
      0x1_0000 * FromBe16(hi) as int + FromBe16(lo) as int;
      { Be16Inverse(n / 0x1_0000); Be16Inverse(n); }
      0x1_0000 * (n / 0x1_0000 % 0x1_0000) + n % 0x1_0000;
      { DivModSplit(n); }
      n % 0x1_0000_0000;
    }
  }

  /** Big-endian 32-bit fields are equal only when the numbers are, below the truncation point. */
  lemma Be32Injective(m: nat, n: nat)
    requires m < 0x1_0000_0000 && n < 0x1_0000_0000
    requires Be32(m) == Be32(n)
    ensures m == n
  {
    calc {
      m;
      { ModSmall(m, 0x1_0000_0000); }
      m % 0x1_0000_0000;
      { Be32Inverse(m); }
      FromBe32(Be32(m));
      FromBe32(Be32(n));
      { Be32Inverse(n); }
      n % 0x1_0000_0000;
      { ModSmall(n, 0x1_0000_0000); }
      n;
    }
  }

  lemma ModSmall(n: nat, m: nat)
    requires n < m
    ensures n % m == n
  {
  }

  lemma AtLeastOnce(n: nat, k: int)
    requires k >= 1
    ensures n * k >= n
  {
    assert n * k == n * (k - 1) + n;
  }

  lemma UniqueRemainder(n: nat, q: int, r: int, q2: int, r2: int)
    requires 0 <= r < n && 0 <= r2 < n && n * q + r == n * q2 + r2
    ensures q == q2 && r == r2
  {
    assert n * (q - q2) == r2 - r;
    if q > q2 {
      AtLeastOnce(n, q - q2);
    } else if q < q2 {
      AtLeastOnce(n, q2 - q);
    }
  }

  lemma Remainder(n: nat, q: nat, r: nat)
    requires r < n
    ensures (n * q + r) % n == r && (n * q + r) / n == q
  {
    var a := n * q + r;
    assert a == n * (a / n) + a % n;
    UniqueRemainder(n, q, r, a / n, a % n);
  }

  /** The number that octets stand for, most significant octet first */
  function BeValue(s: bytes): nat {
    if s == [] then 0 else 0x100 * BeValue(s[..|s| - 1]) + s[|s| - 1] as int
  }

  lemma {:induction false} BeValueAppend(a: bytes, b: bytes)
    ensures BeValue(a + b) == Pow2(8 * |b|) * BeValue(a) + BeValue(b)
  {
    if b == [] {
      AppendNothing(a);
    } else {
      var c := b[..|b| - 1];
      assert (a + b)[..|a + b| - 1] == a + c;
      BeValueAppend(a, c);
      Pow2Octet(|c|);
      Distribute(Pow2(8 * |c|), BeValue(a), BeValue(c));
    }
  }

  lemma Pow2Octet(n: nat)
    ensures Pow2(8 * (n + 1)) == 0x100 * Pow2(8 * n)
  {
    var k := 8 * n;
    assert Pow2(k + 4) == 2 * Pow2(k + 3) == 4 * Pow2(k + 2) == 8 * Pow2(k + 1) == 16 * Pow2(k);
    assert Pow2(k + 8) == 2 * Pow2(k + 7) == 4 * Pow2(k + 6) == 8 * Pow2(k + 5) == 16 * Pow2(k + 4);
  }

  lemma Distribute(p: nat, x: nat, y: nat)
    ensures 0x100 * (p * x + y) == (0x100 * p) * x + 0x100 * y
  {
  }

  /** Numbers are written with their low 16, 32 or 64 bits, most significant octet first. */
  lemma BeValues(n: nat)
    ensures BeValue(Be16(n)) == n % 0x1_0000
    ensures BeValue(Be32(n)) == n % 0x1_0000_0000
    ensures BeValue(Be64(n)) == n % 0x1_0000_0000_0000_0000
  {
    var hi, lo := Be32(n / 0x1_0000_0000), Be32(n);
    Be32Value(n);
    Be32Value(n / 0x1_0000_0000);
    Be16Value(n);
    BeValueAppend(hi, lo);
    PowersOf2();
    WideSplit(n);
  }

  lemma WideSplit(n: nat)
    ensures n % 0x1_0000_0000_0000_0000 == 0x1_0000_0000 * (n / 0x1_0000_0000 % 0x1_0000_0000) + n % 0x1_0000_0000
  {
  }

  lemma PowersOf2()
    ensures Pow2(8) == 0x100 && Pow2(16) == 0x1_0000 && Pow2(32) == 0x1_0000_0000
  {
    Pow2Octet(0);
    Pow2Octet(1);
    Pow2Octet(2);
    Pow2Octet(3);
  }

  lemma Be16Value(n: nat)
    ensures BeValue(Be16(n)) == n % 0x1_0000
  {
    var s := Be16(n);
    assert s[..1] == [s[0]] && s[..1][..0] == [];
    assert BeValue(s[..1]) == s[0];
    Be16Inverse(n);
  }

  lemma Be32Value(n: nat)
    ensures BeValue(Be32(n)) == n % 0x1_0000_0000
  {
    Be16Value(n);
    Be16Value(n / 0x1_0000);
    BeValueAppend(Be16(n / 0x1_0000), Be16(n));
    PowersOf2();
    DivModSplit(n);
  }

  // ---- Streaming parser primitives

  function U8(i: bytes): Parse<byte> {
    if |i| < 1 then Incomplete else Parsed(i[0], i[1..])
  }

  function Take(n: nat, i: bytes): Parse<bytes> {
    if |i| < n then Incomplete else Parsed(i[..n], i[n..])
  }

  function U16(i: bytes): Parse<u16> {
    if |i| < 2 then Incomplete else Parsed(FromBe16(i[..2]), i[2..])
  }

  function U32(i: bytes): Parse<u32> {
    if |i| < 4 then Incomplete else Parsed(FromBe32(i[..4]), i[4..])
  }

  /** A parser applied `count` times */
  function Many<T>(p: bytes -> Parse<T>, count: nat, i: bytes): (r: Parse<seq<T>>)
    ensures r.Parsed? ==> |r.value| == count
  {
    if count == 0 then Parsed([], i) else
      var (x, i) :- p(i);
      var (xs, i) :- Many(p, count - 1, i);
      Parsed([x] + xs, i)
  }

  /** If more input does not change what one application parses, it does not change what many parse. */
  lemma {:induction false} ManyMore<T(!new)>(p: bytes -> Parse<T>, count: nat, i: bytes, j: bytes)
    requires forall a, b :: p(a).Parsed? ==> p(a + b) == Parsed(p(a).value, p(a).rest + b)
    requires Many(p, count, i).Parsed?
    ensures Many(p, count, i + j) == Parsed(Many(p, count, i).value, Many(p, count, i).rest + j)
  {
    if count > 0 {
      ManyMore(p, count - 1, p(i).rest, j);
    }
  }

  lemma Split(a: bytes, b: bytes)
    ensures (a + b)[..|a|] == a && (a + b)[|a|..] == b
  {
  }

  lemma TakeAppend(a: bytes, rest: bytes)
    ensures Take(|a|, a + rest) == Parsed(a, rest)
  {
    Split(a, rest);
  }

  lemma U16Append(n: nat, rest: bytes)
    ensures U16(Be16(n) + rest) == Parsed(n % 0x1_0000, rest)
  {
    Split(Be16(n), rest);
    Be16Inverse(n);
  }

  lemma U32Append(n: nat, rest: bytes)
    ensures U32(Be32(n) + rest) == Parsed(n % 0x1_0000_0000, rest)
  {
    Split(Be32(n), rest);
    Be32Inverse(n);
  }

  lemma AppendNothing(a: bytes)
    ensures a + [] == a
  {
  }

  lemma Regroup(a: bytes, b: bytes, c: bytes)
    ensures a + b + c == a + (b + c)
  {
  }

  lemma Regroup5(a: bytes, b: bytes, c: bytes, d: bytes, e: bytes, r: bytes)
    ensures a + b + c + d + e + r == a + (b + (c + (d + (e + r))))
  {
  }

  lemma CutFront(a: bytes, b: bytes, k: nat)
    requires k <= |a|
    ensures (a + b)[..k] == a[..k] && (a + b)[k..] == a[k..] + b
  {
  }

  lemma CutBehind(a: bytes, b: bytes, k: nat)
    requires |a| <= k <= |a| + |b|
    ensures (a + b)[..k] == a + b[..k - |a|] && (a + b)[k..] == b[k - |a|..]
  {
  }

  /** Two concatenations with equally long front parts are equal part by part. */
  lemma SplitEqual(a: bytes, b: bytes, c: bytes, d: bytes)
    requires a + b == c + d && |a| == |c|
    ensures a == c && b == d
  {
    Split(a, b);
    Split(c, d);
  }

  /** Likewise when the back parts are equally long. */
  lemma SplitEqualEnd(a: bytes, b: bytes, c: bytes, d: bytes)
    requires a + b == c + d && |b| == |d|
    ensures a == c && b == d
  {
    assert |a + b| == |c + d|;
    SplitEqual(a, b, c, d);
  }

  function Repeat(b: byte, n: nat): (r: bytes)
    ensures |r| == n && forall k :: 0 <= k < n ==> r[k] == b
  {
    seq(n, _ => b)
  }

  function Concat(pieces: seq<bytes>): bytes {
    if pieces == [] then [] else pieces[0] + Concat(pieces[1..])
  }

  lemma {:induction false} ConcatAppend(pieces: seq<bytes>, last: bytes)
    ensures Concat(pieces + [last]) == Concat(pieces) + last
  {
    if pieces == [] {
      assert Concat([last]) == last + Concat([last][1..]);
    } else {
      assert (pieces + [last])[1..] == pieces[1..] + [last];
      ConcatAppend(pieces[1..], last);
      Regroup(pieces[0], Concat(pieces[1..]), last);
    }
  }

  /** What is left of `s` after whole pieces of `n` octets */
  function Tail(s: bytes, n: nat): (t: bytes)
    requires n > 0
    ensures |t| < n
  {
    if |s| < n then s else Tail(s[n..], n)
  }

  function Min(a: nat, b: nat): nat { if a <= b then a else b }

  /** What reads of these sizes ask for together */
  function Total(sizes: seq<nat>): nat {
    if sizes == [] then 0 else Total(sizes[..|sizes| - 1]) + sizes[|sizes| - 1]
  }

  lemma TotalAppend(sizes: seq<nat>, k: nat)
    requires k < |sizes|
    ensures Total(sizes[..k + 1]) == Total(sizes[..k]) + sizes[k]
  {
    assert sizes[..k + 1][..k] == sizes[..k];
  }

  function Pow2(k: nat): (r: nat)
    ensures r > 0
  {
    if k == 0 then 1 else 2 * Pow2(k - 1)
  }

  /** `dst[at..at + src.len()].copy_from_slice(src)` */
  method CopyFromSlice(dst: array<byte>, at: nat, src: bytes)
    requires at + |src| <= dst.Length
    modifies dst
    ensures dst[..] == old(dst[..at]) + src + old(dst[at + |src|..])
    ensures dst[..at + |src|] == old(dst[..at]) + src
  {
    for k := 0 to |src|
      invariant forall j :: 0 <= j < dst.Length ==> dst[j] == if at <= j < at + k then src[j - at] else old(dst[j])
    {
      dst[at + k] := src[k];
    }
  }
}

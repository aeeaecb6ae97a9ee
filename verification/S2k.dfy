/** String-to-key: `derive_key` of `src/types/s2k.rs` for the simple, salted, and iterated and salted specifiers
    (section 3.7.1 of RFC 4880). */
module S2k {
  import opened Bytes

  type salt8 = s: bytes | |s| == 8 witness [0, 0, 0, 0, 0, 0, 0, 0]

  datatype StringToKey = Simple | Salted(salt: salt8) | IteratedAndSalted(salt: salt8, count: byte)

  /** A hash algorithm; an unknown one has digests of size 0. */
  datatype Hash = Hash(digest: bytes -> bytes, size: nat) {
    ghost predicate Lawful() { size <= 64 && forall s :: |digest(s)| == size }
  }

  datatype Outcome = Derived(key: bytes) | Panics

  // ---- What is hashed

  /** `decode_count`: the low four bits are the mantissa, the high four the exponent. */
  function DecodeCount(c: byte): nat {
    (16 + c as int % 16) * Pow2(c as int / 16 + 6)
  }

  function Max(a: nat, b: nat): nat { if a >= b then a else b }

  /** The first `n` octets of `d` repeated forever */
  function Repeated(d: bytes, n: nat): (r: bytes)
    requires d != []
    ensures |r| == n
  {
    seq(n, i requires 0 <= i < n => d[i % |d|])
  }

  /** What is hashed in a round */
  function Stream(s: StringToKey, pw: bytes, round: nat): bytes {
    Repeat(0, round) +
    match s
    case Simple => pw
    case Salted(salt) => salt + pw
    case IteratedAndSalted(salt, count) => Repeated(salt + pw, Max(DecodeCount(count), |salt| + |pw|))
  }

  /** The digests of the first `n` rounds, one after the other */
  function Digests(s: StringToKey, h: Hash, pw: bytes, n: nat): bytes {
    if n == 0 then [] else Digests(s, h, pw, n - 1) + h.digest(Stream(s, pw, n - 1))
  }

  // ---- The count and the octets that are hashed

  /** The count starts at 1024; within 16 codes it grows by equal steps, then the steps double. */
  lemma CountSteps(c: byte)
    ensures DecodeCount(0) == 1024
    ensures c < 255 ==> DecodeCount(c + 1) == DecodeCount(c) + Pow2(c as int / 16 + 6)
    ensures c < 240 ==> DecodeCount(c + 16) == 2 * DecodeCount(c)
  {
    assert Pow2(6) == 64;
    if c < 255 {
      NextCode(c);
      OneStep(c as int % 16, Pow2(c as int / 16 + 6));
    }
    if c < 240 {
      assert (c as int + 16) / 16 == c as int / 16 + 1 && (c as int + 16) % 16 == c as int % 16;
      OneStep(c as int % 16, Pow2(c as int / 16 + 6));
    }
  }

  lemma NextCode(c: nat)
    ensures if c % 16 == 15 then (c + 1) / 16 == c / 16 + 1 && (c + 1) % 16 == 0
            else (c + 1) / 16 == c / 16 && (c + 1) % 16 == c % 16 + 1
  {
  }

  lemma OneStep(m: nat, p: nat)
    ensures (16 + (m + 1)) * p == (16 + m) * p + p && (16 + m) * (2 * p) == 2 * ((16 + m) * p)
    ensures m == 15 ==> 16 * (2 * p) == (16 + m) * p + p
  {
  }

  /** Larger codes mean larger counts. */
  lemma {:induction false} CountGrows(c: byte, d: byte)
    requires c < d
    ensures DecodeCount(c) < DecodeCount(d)
    decreases d - c
  {
    CountSteps(c);
    if c + 1 < d {
      CountGrows(c + 1, d);
    }
  }

  lemma LastCount()
    ensures DecodeCount(255) == 65011712
  {
    PowersOf2();
    assert Pow2(21) == 2 * Pow2(20) == 4 * Pow2(19) == 8 * Pow2(18) == 16 * Pow2(17) == 32 * Pow2(16);
  }

  /** Counts are between 1024 and 65011712. */
  lemma CountRange(c: byte)
    ensures 1024 <= DecodeCount(c) <= 65011712
  {
    CountSteps(0);
    LastCount();
    if 0 < c {
      CountGrows(0, c);
    }
    if c < 255 {
      CountGrows(c, 255);
    }
  }

  /** The length of what is hashed: the zeros, then salt and passphrase once, or as often as the count says */
  lemma {:induction false} StreamLength(s: StringToKey, pw: bytes, round: nat)
    ensures |Stream(s, pw, round)| == round + match s
              case Simple => |pw|
              case Salted(_) => 8 + |pw|
              case IteratedAndSalted(_, c) => if DecodeCount(c) < 8 + |pw| then 8 + |pw| else DecodeCount(c)
  {
  }

  /** Its octets: as many zeros as rounds went before, then the passphrase, behind the salt if there is one; iterated,
      the two over and over again. */
  lemma {:induction false} StreamOctets(s: StringToKey, pw: bytes, round: nat, k: nat)
    ensures k < round <= |Stream(s, pw, round)| ==> Stream(s, pw, round)[k] == 0
    ensures round + k < |Stream(s, pw, round)| ==>
              Stream(s, pw, round)[round + k] == match s
                case Simple => pw[k]
                case Salted(salt) => if k < 8 then salt[k] else pw[k - 8]
                case IteratedAndSalted(salt, _) =>
                  var j := k % (8 + |pw|);
                  if j < 8 then salt[j] else pw[j - 8]
  {
    StreamLength(s, pw, round);
  }

  // ---- Repetition

  /** After whole repetitions, a part of `d` continues the repetition. */
  lemma RepeatMore(d: bytes, m: nat, k: nat)
    requires d != [] && k <= |d|
    ensures |d| * m >= 0 && Repeated(d, |d| * m) + d[..k] == Repeated(d, |d| * m + k)
  {
    var n := |d| * m;
    assert n >= 0;
    forall j | 0 <= j < k ensures Repeated(d, n + k)[n + j] == d[j] {
      Remainder(|d|, m, j);
    }
    RepeatedPrefix(d, n, k);
    assert Repeated(d, n + k)[n..] == d[..k];
  }

  lemma RepeatedPrefix(d: bytes, n: nat, k: nat)
    requires d != []
    ensures Repeated(d, n + k)[..n] == Repeated(d, n)
  {
  }

  /** The loop over whole repetitions, and the partial one behind it */
  method HashRepeated(hashed: bytes, salt: salt8, pw: bytes, coded: byte) returns (out: bytes)
    ensures out == hashed + Repeated(salt + pw, Max(DecodeCount(coded), |salt| + |pw|))
  {
    var size := |salt| + |pw|;
    ghost var d, total := salt + pw, Max(DecodeCount(coded), |salt| + |pw|);
    var count := DecodeCount(coded);
    if count < size {
      count := size;
    }
    out := hashed;
    ghost var m := 0;
    assert Repeated(d, 0) == [];
    AppendNothing(hashed);
    while count > size
      invariant 0 <= count == total - size * m && size * m >= 0
      invariant out == hashed + Repeated(d, size * m)
      decreases count
    {
      RepeatMore(d, m, size);
      assert d[..size] == d && size * m + size == size * (m + 1);
      Regroup(out, salt, pw);
      Regroup(hashed, Repeated(d, size * m), d);
      out := out + salt;
      out := out + pw;
      count := count - size;
      m := m + 1;
    }
    RepeatMore(d, m, count);
    Regroup(hashed, Repeated(d, size * m), d[..count]);
    if count < |salt| {
      assert d[..count] == salt[..count];
      out := out + salt[..count];
    } else {
      assert d[..count] == salt + pw[..count - |salt|];
      Regroup(out, salt, pw[..count - |salt|]);
      out := out + salt;
      count := count - |salt|;
      out := out + pw[..count];
    }
  }

  // ---- The derived key

  function Ceil(x: real): (n: int)
    ensures (n - 1) as real < x <= n as real
  {
    -((-x).Floor)
  }

  const TWO24: nat := 16777216

  /** Rounding to 32-bit floats, as far as it matters here: it keeps the order, is exact on whole numbers up to 2^24,
      is off by at most one part in 2^24 for numbers that are not tiny, and takes the first whole number that has no
      float, half way between two, to the even one. */
  ghost predicate IsFloat32(rnd: real -> real) {
    && (forall x: real, y: real :: x <= y ==> rnd(x) <= rnd(y))
    && (forall x: real :: 0.0 <= x <= TWO24 as real && x == x.Floor as real ==> rnd(x) == x)
    && (forall x: real :: x >= 0.001 ==> x - rnd(x) <= x / TWO24 as real)
    && rnd(16777217.0) == 16777216.0
  }

  /** There are such functions. */
  function Round(x: real): real {
    if 16777216.0 < x <= 16777217.0 then 16777216.0 else x
  }

  lemma RoundIsFloat32()
    ensures IsFloat32(Round)
  {
  }

  /** The number of rounds: both sizes and their quotient are rounded to floats. */
  function Rounds(rnd: real -> real, keySize: nat, size: nat): int
    requires size > 0 && rnd(size as real) > 0.0
  {
    Ceil(rnd(rnd(keySize as real) / rnd(size as real)))
  }

  /** Exactly when the rounds cover the key and none of them starts behind it */
  predicate Covers(rounds: int, size: nat, keySize: nat) {
    if rounds <= 0 then keySize == 0 else size * rounds - size <= keySize <= size * rounds
  }

  lemma Scaled(x: real, y: real, b: real)
    requires b > 0.0
    ensures x < y <==> x * b < y * b
  {
    if x < y {
      assert (y - x) * b > 0.0;
    } else {
      assert (x - y) * b >= 0.0;
    }
  }

  /** The exact quotient of key size and digest size, rounded up */
  lemma ExactRounds(keySize: nat, size: nat) returns (n: nat)
    requires size > 0
    ensures size * n - size < keySize <= size * n
  {
    n := (keySize + size - 1) / size;
    assert keySize + size - 1 == size * n + (keySize + size - 1) % size;
  }

  /** Below 2^24 octets the float quotient loses nothing. */
  lemma FloatRoundsAreExact(rnd: real -> real, keySize: nat, size: nat)
    requires IsFloat32(rnd) && 0 < size <= 64 && keySize < TWO24
    ensures rnd(size as real) == size as real && Covers(Rounds(rnd, keySize, size), size, keySize)
  {
    var n := ExactRounds(keySize, size);
    ExactWhole(rnd, keySize);
    ExactWhole(rnd, size);
    Quotient(keySize as real, size as real);
    FloatQuotient(rnd, keySize, size, n, keySize as real / size as real);
    ExactCovers(n, size, keySize);
  }

  lemma Quotient(a: real, b: real)
    requires b > 0.0
    ensures a / b * b == a
  {
  }

  lemma ExactCovers(n: nat, size: nat, keySize: nat)
    requires size * n - size < keySize <= size * n
    ensures Covers(n, size, keySize)
  {
  }

  lemma ExactWhole(rnd: real -> real, n: nat)
    requires IsFloat32(rnd) && n <= TWO24
    ensures rnd(n as real) == n as real
  {
    assert (n as real).Floor == n;
  }

  lemma FloatQuotient(rnd: real -> real, keySize: nat, size: nat, n: nat, x: real)
    requires IsFloat32(rnd) && 0 < size <= 64 && keySize < TWO24 && size * n - size < keySize <= size * n
    requires x * size as real == keySize as real
    ensures Ceil(rnd(x)) == n
  {
    if keySize == 0 {
      Scaled(x, 0.0, size as real);
      Scaled(0.0, x, size as real);
      ExactWhole(rnd, 0);
      NoRounds(size, n);
    } else {
      AtMost(keySize, size, n, x);
      FewRounds(size, n, keySize);
      ExactWhole(rnd, n);
      AtLeast(rnd, keySize, size, n, x);
    }
  }

  lemma NoRounds(size: nat, n: nat)
    requires size > 0 && size * n - size < 0
    ensures n == 0
  {
    if n > 0 {
      AtLeastOnce(size, n);
    }
  }

  lemma FewRounds(size: nat, n: nat, keySize: nat)
    requires size > 0 && size * n - size < keySize < TWO24
    ensures n <= TWO24
  {
    assert size * n - size == (n - 1) * size;
    if n > TWO24 {
      AtLeastOnce(n - 1, size);
    }
  }

  lemma AtMost(keySize: nat, size: nat, n: nat, x: real)
    requires size > 0 && x * size as real == keySize as real && keySize <= size * n
    ensures x <= n as real
  {
    AsReal(size, n);
    Scaled(n as real, x, size as real);
  }

  lemma AtLeast(rnd: real -> real, keySize: nat, size: nat, n: nat, x: real)
    requires IsFloat32(rnd) && 0 < size <= 64 && 0 < keySize < TWO24 && size * n - size < keySize
    requires x * size as real == keySize as real
    ensures rnd(x) > (n - 1) as real
  {
    NotTiny(x, size as real);
    BelowKey(size, n, keySize);
    Gap((n - 1) as real, x, size as real, keySize as real);
  }

  lemma Gap(m: real, x: real, b: real, k: real)
    requires b > 0.0 && x * b == k && 0.0 <= k < TWO24 as real && m * b <= k - 1.0
    ensures m < x - x / TWO24 as real
  {
    ErrorScaled(x, b, k);
    Scaled(m, x - x / TWO24 as real, b);
  }

  lemma BelowKey(size: nat, n: nat, keySize: nat)
    requires size * n - size < keySize
    ensures (n - 1) as real * size as real <= keySize as real - 1.0
  {
    assert size * (n - 1) == size * n - size <= keySize - 1;
    AsReal(size, n - 1);
  }

  /** Scaled by the digest size, the rounding error is less than one octet. */
  lemma ErrorScaled(x: real, b: real, k: real)
    requires x * b == k && 0.0 <= k < TWO24 as real
    ensures (x - x / TWO24 as real) * b > k - 1.0
  {
    var e := x / 16777216.0;
    var p := e * b;
    Exchange(e, b, 16777216.0);
    assert p * 16777216.0 == k;
    assert (x - e) * b == x * b - p;
  }

  lemma Exchange(e: real, b: real, t: real)
    ensures (e * b) * t == (e * t) * b
  {
  }

  lemma NotTiny(x: real, b: real)
    requires 0.0 < b <= 64.0 && x * b >= 1.0
    ensures x >= 0.001
  {
    Scaled(x, 0.001, b);
    assert 0.001 * b <= 0.064;
  }

  lemma AsReal(a: int, b: int)
    ensures (a * b) as real == b as real * a as real
  {
  }

  /** Where a round's digest goes: each but the last has room for all of it. */
  lemma RoundBounds(size: nat, round: nat, rounds: nat, keySize: nat)
    requires round < rounds
    ensures round * size == size * round && (round + 1) * size == size * round + size
    ensures if round == rounds - 1 then size * rounds == size * round + size else size * round + 2 * size <= size * rounds
  {
    if round < rounds - 1 {
      AtLeastOnce(size, rounds - 1 - round);
      assert size * (rounds - 1 - round) == size * rounds - size - size * round;
    } else {
      assert size * rounds == size * round + size;
    }
  }

  lemma {:induction false} DigestsLength(s: StringToKey, h: Hash, pw: bytes, n: nat)
    requires h.Lawful()
    ensures |Digests(s, h, pw, n)| == h.size * n
  {
    if n > 0 {
      DigestsLength(s, h, pw, n - 1);
      assert h.size * (n - 1) + h.size == h.size * n;
    }
  }

  /** The rounds tile the key: each digest stands right behind those of the rounds before it. */
  lemma {:induction false} RoundsTile(s: StringToKey, h: Hash, pw: bytes, n: nat, round: nat)
    requires h.Lawful() && round < n
    ensures Digests(s, h, pw, round) + h.digest(Stream(s, pw, round)) <= Digests(s, h, pw, n)
    ensures |Digests(s, h, pw, round)| == h.size * round
  {
    DigestsLength(s, h, pw, round);
    if round < n - 1 {
      RoundsTile(s, h, pw, n - 1, round);
    }
  }

  /** One round: the zeros, then what the specifier hashes */
  method HashRound(s: StringToKey, pw: bytes, round: nat) returns (hashed: bytes)
    ensures hashed == Stream(s, pw, round)
  {
    hashed := Repeat(0, round);
    match s {
      case Simple =>
        hashed := hashed + pw;
      case Salted(salt) =>
        Regroup(hashed, salt, pw);
        hashed := hashed + salt;
        hashed := hashed + pw;
      case IteratedAndSalted(salt, count) =>
        hashed := HashRepeated(hashed, salt, pw, count);
    }
  }

  /** `derive_key`, with `rnd` for the rounding of floats: the digests fill the key from the front, the last one cut to
      size. It panics when the rounds do not fit the key, which needs a key of 2^24 octets at least. An unknown hash
      algorithm asks for an infinite number of rounds, whose zeros cannot be allocated. */
  method DeriveKey(s: StringToKey, h: Hash, pw: bytes, keySize: nat, rnd: real -> real) returns (r: Outcome)
    requires h.Lawful() && IsFloat32(rnd)
    ensures h.size == 0 ==> r == if keySize == 0 then Derived([]) else Panics
    ensures h.size > 0 ==>
              && rnd(h.size as real) == h.size as real
              && var n := Rounds(rnd, keySize, h.size);
                 if n >= 0 && Covers(n, h.size, keySize)
                 then |Digests(s, h, pw, n)| >= keySize && r == Derived(Digests(s, h, pw, n)[..keySize])
                 else r == Panics
    ensures h.size > 0 && keySize < TWO24 ==> r.Derived?
    ensures h.size == 32 && keySize == TWO24 + 1 ==> r == Panics
  {
    if h.size == 0 {
      return if keySize == 0 then Derived([]) else Panics;
    }
    assert rnd(h.size as real) == h.size as real;
    var rounds := Rounds(rnd, keySize, h.size);
    if keySize < TWO24 {
      FloatRoundsAreExact(rnd, keySize, h.size);
    }
    FirstWrongSize(rnd);
    RoundsArePositive(rnd, keySize, h.size);
    r := Fill(s, h, pw, keySize, rounds);
  }

  /** The first key size for which the rounds go wrong: with digests of 32 octets there is one round too few, so that
      the last octet of the key has no digest. */
  lemma FirstWrongSize(rnd: real -> real)
    requires IsFloat32(rnd)
    ensures rnd(32.0) == 32.0 && Rounds(rnd, 16777217, 32) == 524288 && !Covers(524288, 32, 16777217)
  {
    assert rnd(32.0) == 32.0 && rnd(524288.0) == 524288.0 by {
      assert 32.0.Floor == 32 && 524288.0.Floor == 524288;
    }
    assert 16777216.0 / 32.0 == 524288.0;
  }

  /** Some round is made unless the key is empty. */
  lemma RoundsArePositive(rnd: real -> real, keySize: nat, size: nat)
    requires IsFloat32(rnd) && 0 < size <= 64 && rnd(size as real) == size as real
    ensures Rounds(rnd, keySize, size) >= 0 && (keySize > 0 ==> Rounds(rnd, keySize, size) > 0)
  {
    assert rnd(0.0) == 0.0 && rnd(1.0) == 1.0;
    var a, b := rnd(keySize as real), size as real;
    assert a >= 0.0 && (keySize > 0 ==> a >= 1.0);
    var x := a / b;
    assert x * b == a;
    if keySize > 0 {
      NotTiny(x, b);
      assert x / TWO24 as real < x;
      assert rnd(x) > 0.0;
    } else {
      Scaled(x, 0.0, b);
      assert rnd(x) >= rnd(0.0);
    }
  }

  /** The octets of all rounds, in octets and not in rounds */
  lemma DigestBounds(s: StringToKey, h: Hash, pw: bytes, round: nat, rounds: nat)
    requires h.Lawful() && round < rounds
    ensures var d, all := |Digests(s, h, pw, round)|, |Digests(s, h, pw, rounds)|;
            d == round * h.size && d + h.size == (round + 1) * h.size
            && if round == rounds - 1 then all == d + h.size else d + 2 * h.size <= all
  {
    DigestsLength(s, h, pw, round);
    DigestsLength(s, h, pw, rounds);
    RoundBounds(h.size, round, rounds, 0);
  }

  lemma CoversInOctets(s: StringToKey, h: Hash, pw: bytes, rounds: nat, keySize: nat)
    requires h.Lawful()
    ensures var all := |Digests(s, h, pw, rounds)|;
            Covers(rounds, h.size, keySize) <==> if rounds == 0 then keySize == 0 else all - h.size <= keySize <= all
  {
    DigestsLength(s, h, pw, rounds);
  }

  /** The place of a round's digest in the key */
  function End(round: nat, rounds: nat, size: nat, keySize: nat): nat {
    if round == rounds - 1 then keySize else (round + 1) * size
  }

  method Fill(s: StringToKey, h: Hash, pw: bytes, keySize: nat, rounds: nat) returns (r: Outcome)
    requires h.Lawful() && h.size > 0 && (keySize > 0 ==> rounds > 0)
    ensures if Covers(rounds, h.size, keySize)
            then |Digests(s, h, pw, rounds)| >= keySize && r == Derived(Digests(s, h, pw, rounds)[..keySize])
            else r == Panics
  {
    CoversInOctets(s, h, pw, rounds, keySize);
    ghost var all := Digests(s, h, pw, rounds);
    var key := new byte[keySize](_ => 0);
    for round := 0 to rounds
      invariant fresh(key) && key.Length == keySize && Filled(s, h, pw, round, key[..])
      invariant round < rounds ==> |Digests(s, h, pw, round)| <= keySize
      invariant round == rounds > 0 ==> |all| - h.size <= keySize <= |all|
    {
      DigestBounds(s, h, pw, round, rounds);
      var start, end := round * h.size, End(round, rounds, h.size, keySize);
      if end > keySize || end - start > h.size {
        return Panics;
      }
      FillRound(s, h, pw, round, start, end, key);
    }
    r := Derived(key[..]);
    if rounds > 0 {
      assert all[..keySize] == key[..];
    }
  }

  /** One round of the loop: its digest goes behind those of the rounds before it. */
  method FillRound(s: StringToKey, h: Hash, pw: bytes, round: nat, start: nat, end: nat, key: array<byte>)
    requires h.Lawful() && start == |Digests(s, h, pw, round)| <= end <= key.Length && end - start <= h.size
    requires end - start < h.size ==> end == key.Length
    requires Filled(s, h, pw, round, key[..])
    modifies key
    ensures Filled(s, h, pw, round + 1, key[..])
  {
    var hashed := HashRound(s, pw, round);
    FillStep(s, h, pw, round, start, end, key[..]);
    var digest := h.digest(hashed)[..end - start];
    ghost var before := key[..];
    CopyFromSlice(key, start, digest);
    assert key[..] == before[..start] + digest + before[end..];
  }

  /** The digests of `round` rounds fill the front of the key. */
  ghost predicate Filled(s: StringToKey, h: Hash, pw: bytes, round: nat, key: bytes) {
    var d := Digests(s, h, pw, round);
    if |d| <= |key| then key[..|d|] == d else key == d[..|key|]
  }

  lemma FillStep(s: StringToKey, h: Hash, pw: bytes, round: nat, start: nat, end: nat, key: bytes)
    requires h.Lawful() && start == |Digests(s, h, pw, round)| <= end <= |key| && end - start <= h.size
    requires end - start < h.size ==> end == |key|
    requires Filled(s, h, pw, round, key)
    ensures Filled(s, h, pw, round + 1, key[..start] + h.digest(Stream(s, pw, round))[..end - start] + key[end..])
  {
    var d, digest := Digests(s, h, pw, round), h.digest(Stream(s, pw, round));
    assert Digests(s, h, pw, round + 1) == d + digest;
    if end - start == h.size {
      assert digest[..h.size] == digest;
    }
  }
}

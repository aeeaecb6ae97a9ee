/** AES key wrap (`src/crypto/aes_kw.rs`).

    The block cipher is a parameter: a function of key and block, with an inverse where one is needed. The
    specification is the shift-register form of sections 2.2.1 and 2.2.2 of RFC 3394, the methods are the
    index-based loops that overwrite the registers in place. */
module KeyWrap {
  import opened Bytes
  import opened ShiftRegisters

  type half = s: bytes | |s| == 8 witness [0, 0, 0, 0, 0, 0, 0, 0]
  type block = s: bytes | |s| == 16 witness [0, 0, 0, 0, 0, 0, 0, 0, 0, 0, 0, 0, 0, 0, 0, 0]
  type Cipher = (bytes, block) -> block

  const IV: half := [0xA6, 0xA6, 0xA6, 0xA6, 0xA6, 0xA6, 0xA6, 0xA6]

  function Concat(hi: half, lo: half): block { hi + lo }

  ghost predicate Inverse(enc: Cipher, dec: Cipher, key: bytes) {
    forall b: block :: dec(key, enc(key, b)) == b && enc(key, dec(key, b)) == b
  }

  // ---- Exclusive or

  /** Bitwise exclusive or of the low `n` bits. */
  function XorBits(n: nat, a: nat, b: nat): (r: nat)
    ensures r < Pow2(n)
  {
    if n == 0 then 0 else (if a % 2 == b % 2 then 0 else 1) + 2 * XorBits(n - 1, a / 2, b / 2)
  }

  lemma {:induction false} XorBitsCancels(n: nat, a: nat, b: nat)
    requires a < Pow2(n)
    ensures XorBits(n, XorBits(n, a, b), b) == a
  {
    if n > 0 {
      var x := XorBits(n - 1, a / 2, b / 2);
      assert XorBits(n, a, b) / 2 == x;
      XorBitsCancels(n - 1, a / 2, b / 2);
    }
  }

  /** Each bit of the result is the sum, modulo 2, of the bits of the operands. */
  lemma {:induction false} XorBit(n: nat, a: nat, b: nat, k: nat)
    requires k < n
    ensures XorBits(n, a, b) / Pow2(k) % 2 == (a / Pow2(k) + b / Pow2(k)) % 2
  {
    var x := XorBits(n, a, b);
    XorHalves(n, a, b);
    if k > 0 {
      XorBit(n - 1, a / 2, b / 2, k - 1);
      HalfFirst(x, Pow2(k - 1));
      HalfFirst(a, Pow2(k - 1));
      HalfFirst(b, Pow2(k - 1));
    }
  }

  lemma XorHalves(n: nat, a: nat, b: nat)
    requires n > 0
    ensures XorBits(n, a, b) / 2 == XorBits(n - 1, a / 2, b / 2) && XorBits(n, a, b) % 2 == (a + b) % 2
  {
  }

  lemma HalfFirst(x: nat, p: nat)
    requires p > 0
    ensures x / (2 * p) == x / 2 / p
  {
    var q, r := x / 2 / p, x / 2 % p;
    assert x / 2 == p * q + r;
    var low := 2 * r + x % 2;
    assert x == (2 * p) * q + low && low < 2 * p;
    Remainder(2 * p, q, low);
  }

  lemma EightBits()
    ensures Pow2(8) == 256
  {
    assert Pow2(4) == 16;
    assert Pow2(6) == 64;
  }

  function XorByte(a: byte, b: byte): byte {
    EightBits();
    XorBits(8, a, b)
  }

  function Xor(a: half, b: half): half {
    seq(8, k requires 0 <= k < 8 => XorByte(a[k], b[k]))
  }

  /** Each octet is the bitwise exclusive or of the two octets. */
  lemma XorIsBitwise(a: half, b: half, i: nat, k: nat)
    requires i < 8 && k < 8
    ensures Xor(a, b)[i] as int / Pow2(k) % 2 == (a[i] as int / Pow2(k) + b[i] as int / Pow2(k)) % 2
  {
    XorBit(8, a[i], b[i], k);
  }

  lemma XorCancels(a: half, b: half)
    ensures Xor(Xor(a, b), b) == a
  {
    forall k | 0 <= k < 8 ensures Xor(Xor(a, b), b)[k] == a[k] {
      EightBits();
      XorBitsCancels(8, a[k], b[k]);
    }
  }

  /** A step of wrapping: the block A | R is enciphered, its upper half is masked with the step number. */
  function WrapBlock(enc: Cipher, key: bytes, t: nat, a: half, x: half): (half, half) {
    var b := enc(key, Concat(a, x));
    (Xor(b[..8], Be64(t)), b[8..])
  }

  function UnwrapBlock(dec: Cipher, key: bytes, t: nat, a: half, x: half): (half, half) {
    var b := dec(key, Concat(Xor(a, Be64(t)), x));
    (b[..8], b[8..])
  }

  function WrapStep(enc: Cipher, key: bytes): Step<half> {
    (t: nat, a: half, x: half) => WrapBlock(enc, key, t, a, x)
  }

  function UnwrapStep(dec: Cipher, key: bytes): Step<half> {
    (t: nat, a: half, x: half) => UnwrapBlock(dec, key, t, a, x)
  }

  lemma StepsAreInverse(enc: Cipher, dec: Cipher, key: bytes)
    requires Inverse(enc, dec, key)
    ensures Undoes(WrapStep(enc, key), UnwrapStep(dec, key)) && Undoes(UnwrapStep(dec, key), WrapStep(enc, key))
  {
    forall t: nat, a: half, x: half
      ensures var (c, y) := WrapStep(enc, key)(t, a, x); UnwrapStep(dec, key)(t, c, y) == (a, x)
    {
      var b := enc(key, Concat(a, x));
      XorCancels(b[..8], Be64(t));
      assert Concat(b[..8], b[8..]) == b;
      Split(a, x);
    }
    forall t: nat, a: half, x: half
      ensures var (c, y) := UnwrapStep(dec, key)(t, a, x); WrapStep(enc, key)(t, c, y) == (a, x)
    {
      var m := Xor(a, Be64(t));
      var b := dec(key, Concat(m, x));
      XorCancels(a, Be64(t));
      assert Concat(b[..8], b[8..]) == b;
      Split(m, x);
    }
  }

  // ---- Octet strings as 64-bit registers

  function Chunks(s: bytes): (r: seq<half>)
    requires |s| % 8 == 0
    ensures |r| == |s| / 8
  {
    if s == [] then [] else [s[..8]] + Chunks(s[8..])
  }

  function Flat(r: seq<half>): (s: bytes)
    ensures |s| == 8 * |r|
  {
    if r == [] then [] else r[0] + Flat(r[1..])
  }

  lemma {:induction false} FlatChunks(s: bytes)
    requires |s| % 8 == 0
    ensures Flat(Chunks(s)) == s
  {
    if s != [] {
      FlatChunks(s[8..]);
      assert Chunks(s)[1..] == Chunks(s[8..]);
    }
  }

  lemma {:induction false} ChunksFlat(r: seq<half>)
    ensures Chunks(Flat(r)) == r
  {
    if r != [] {
      Split(r[0], Flat(r[1..]));
      ChunksFlat(r[1..]);
    }
  }

  // ---- The source's entry points

  datatype Outcome = Ok(data: bytes) | BadLength | BadKeySize | IntegrityFailure | Panic

  predicate AesKey(key: bytes) { |key| == 16 || |key| == 24 || |key| == 32 }

  /** Section 2.2.1 of RFC 3394 with 6n steps, after the checks of `wrap` */
  function Wrap(enc: Cipher, key: bytes, data: bytes): Outcome {
    if |data| % 8 != 0 then BadLength
    else if !AesKey(key) then BadKeySize
    else Ok(Output(ShiftAll(WrapStep(enc, key), Registers(IV, Chunks(data)), 6 * |Chunks(data)|)))
  }

  function Output(s: Registers<half>): bytes { s.a + Flat(s.r) }

  function Input(data: bytes): Registers<half>
    requires |data| % 8 == 0 && data != []
  {
    Registers(data[..8], Chunks(data[8..]))
  }

  /** Section 2.2.2 of RFC 3394, after the checks of `unwrap`. On no data at all there is no first block to take. */
  function Unwrap(dec: Cipher, key: bytes, data: bytes): Outcome {
    if |data| % 8 != 0 then BadLength
    else if !AesKey(key) then BadKeySize
    else if data == [] then Panic
    else
      var s := UnshiftTo(UnwrapStep(dec, key), Input(data), 6 * |Input(data).r|, 0);
      if s.a == IV then Ok(Flat(s.r)) else IntegrityFailure
  }

  /** `wrap` with its loops over registers overwritten in place */
  method WrapLoop(enc: Cipher, key: bytes, data: bytes) returns (result: Outcome)
    ensures result == Wrap(enc, key, data)
  {
    if |data| % 8 != 0 {
      result := BadLength;
    } else if !AesKey(key) {
      result := BadKeySize;
    } else {
      var s := WrapInPlace(WrapStep(enc, key), Registers(IV, Chunks(data)));
      result := Ok(Output(s));
    }
  }

  /** `unwrap` with its loops over registers overwritten in place */
  method UnwrapLoop(dec: Cipher, key: bytes, data: bytes) returns (result: Outcome)
    ensures result == Unwrap(dec, key, data)
  {
    if |data| % 8 != 0 {
      result := BadLength;
    } else if !AesKey(key) {
      result := BadKeySize;
    } else if data == [] {
      result := Panic;
    } else {
      var s := UnwrapInPlace(UnwrapStep(dec, key), Input(data));
      result := if s.a == IV then Ok(Flat(s.r)) else IntegrityFailure;
    }
  }

  /** Which inputs are refused: data that is not a multiple of 8 octets, then keys of other sizes; unwrapping panics on
      no data. */
  lemma Refusals(enc: Cipher, key: bytes, data: bytes)
    ensures Wrap(enc, key, data).BadLength? <==> |data| % 8 != 0
    ensures Wrap(enc, key, data).BadKeySize? <==> |data| % 8 == 0 && |key| !in {16, 24, 32}
    ensures Wrap(enc, key, data).Ok? <==> |data| % 8 == 0 && |key| in {16, 24, 32}
    ensures Unwrap(enc, key, data).BadLength? <==> |data| % 8 != 0
    ensures Unwrap(enc, key, data).BadKeySize? <==> |data| % 8 == 0 && |key| !in {16, 24, 32}
    ensures Unwrap(enc, key, data).Panic? <==> data == [] && |key| in {16, 24, 32}
  {
  }

  lemma InputOutput(s: Registers<half>)
    ensures |Output(s)| == 8 * (|s.r| + 1) && Input(Output(s)) == s
  {
    Split(s.a, Flat(s.r));
    ChunksFlat(s.r);
  }

  lemma OutputInput(data: bytes)
    requires |data| % 8 == 0 && data != []
    ensures Output(Input(data)) == data
  {
    FlatChunks(data[8..]);
    assert data[..8] + data[8..] == data;
  }

  /** Unwrapping undoes wrapping, for every data whose length is a multiple of 8 and every AES key. */
  lemma UnwrapWrap(enc: Cipher, dec: Cipher, key: bytes, data: bytes)
    requires Inverse(enc, dec, key) && AesKey(key) && |data| % 8 == 0
    ensures Wrap(enc, key, data).Ok? && |Wrap(enc, key, data).data| == |data| + 8
    ensures Unwrap(dec, key, Wrap(enc, key, data).data) == Ok(data)
  {
    var start := Registers(IV, Chunks(data));
    var top := 6 * |start.r|;
    StepsAreInverse(enc, dec, key);
    ShiftAllUndone(WrapStep(enc, key), UnwrapStep(dec, key), start, top, 0);
    UnwrapOutput(dec, key, ShiftAll(WrapStep(enc, key), start, top));
    FlatChunks(data);
  }

  lemma {:induction false} UnwrapOutput(dec: Cipher, key: bytes, s: Registers<half>)
    requires AesKey(key)
    ensures |Output(s)| == 8 * (|s.r| + 1)
    ensures var p := UnshiftTo(UnwrapStep(dec, key), s, 6 * |s.r|, 0);
            Unwrap(dec, key, Output(s)) == if p.a == IV then Ok(Flat(p.r)) else IntegrityFailure
  {
    InputOutput(s);
  }

  /** Unwrapping accepts nothing but wrapped data. */
  lemma WrapUnwrap(enc: Cipher, dec: Cipher, key: bytes, data: bytes)
    requires Inverse(enc, dec, key) && Unwrap(dec, key, data).Ok?
    ensures Wrap(enc, key, Unwrap(dec, key, data).data) == Ok(data)
  {
    var start := Input(data);
    var top := 6 * |start.r|;
    var s := UnshiftTo(UnwrapStep(dec, key), start, top, 0);
    StepsAreInverse(enc, dec, key);
    UnshiftToRedone(WrapStep(enc, key), UnwrapStep(dec, key), start, top, top);
    ChunksFlat(s.r);
    OutputInput(data);
  }
}

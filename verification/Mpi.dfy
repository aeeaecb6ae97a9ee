/** Multiprecision integers (`src/types/mpi.rs`, `src/util.rs`): a 16-bit bit count, then the octets. */
module Mpi {
  import opened Bytes

  /** Number of significant bits of an octet: 8 minus its leading zeros. */
  function BitLength(b: byte): (n: nat)
    ensures n <= 8 && (n == 0 <==> b == 0)
  {
    if b == 0 then 0 else if b < 2 then 1 else if b < 4 then 2 else if b < 8 then 3
    else if b < 16 then 4 else if b < 32 then 5 else if b < 64 then 6 else if b < 128 then 7 else 8
  }

  function BitSize(m: bytes): nat {
    if m == [] then 0 else 8 * (|m| - 1) + BitLength(m[0])
  }

  function LeadingZeros(s: bytes): (k: nat)
    ensures k <= |s| && s[..k] == Repeat(0, k) && (k < |s| ==> s[k] != 0)
  {
    if s == [] || s[0] != 0 then 0 else
      var k := LeadingZeros(s[1..]);
      assert s[..k + 1] == [s[0]] + s[1..][..k];
      k + 1
  }

  /** An all-zero string is kept as it is; otherwise its leading zeros are dropped. */
  function StripLeadingZeros(s: bytes): bytes {
    var k := LeadingZeros(s);
    if k == |s| then s else s[k..]
  }

  function MpiBytes(m: bytes): bytes {
    Be16(BitSize(m)) + m
  }

  const MAX_EXTERN_MPI_BITS: nat := 16384

  function ParseMpi(i: bytes): Parse<bytes> {
    var (bits, i) :- U16(i);
    var count := (bits + 7) / 8;
    if count > MAX_EXTERN_MPI_BITS then Error else
      var (raw, rest) :- Take(count, i);
      Parsed(StripLeadingZeros(raw), rest)
  }

  predicate Canonical(m: bytes) {
    (m != [] ==> m[0] != 0) && BitSize(m) < 0x1_0000
  }

  lemma MpiParses(m: bytes, rest: bytes)
    requires Canonical(m)
    ensures ParseMpi(MpiBytes(m) + rest) == Parsed(m, rest)
  {
    Regroup(Be16(BitSize(m)), m, rest);
    U16Append(BitSize(m), m + rest);
    ModSmall(BitSize(m), 0x1_0000);
    OctetCount(m);
    TakeAppend(m, rest);
  }

  lemma OctetCount(m: bytes)
    requires Canonical(m)
    ensures (BitSize(m) + 7) / 8 == |m| && StripLeadingZeros(m) == m && |m| <= MAX_EXTERN_MPI_BITS
  {
  }

  /** A written MPI is read back whatever follows it, exactly when it has no leading zero octet
      and its bit count fits the 16-bit field. */
  lemma MpiRoundTrip(m: bytes)
    ensures Canonical(m) <==> forall rest :: ParseMpi(MpiBytes(m) + rest) == Parsed(m, rest)
  {
    if Canonical(m) {
      forall rest ensures ParseMpi(MpiBytes(m) + rest) == Parsed(m, rest) {
        MpiParses(m, rest);
      }
    } else {
      var i := MpiBytes(m) + [];
      assert i == Be16(BitSize(m)) + m;
      U16Append(BitSize(m), m);
      var count := (BitSize(m) % 0x1_0000 + 7) / 8;
      assert count < |m|;
      assert ParseMpi(i).rest != [];
    }
  }

  /** Stripping loses only leading zeros: prefixing as many zeros as were dropped restores the string. */
  lemma StripRestores(s: bytes)
    ensures var m := StripLeadingZeros(s);
            |m| <= |s| && Repeat(0, |s| - |m|) + m == s && (m != s ==> m != [] && m[0] != 0)
  {
    var k := LeadingZeros(s);
    if k < |s| {
      assert s == s[..k] + s[k..];
    } else {
      assert Repeat(0, 0) + s == s;
    }
  }

  /** A leading zero is left only where all octets are zero. */
  lemma StripsZeros(s: bytes)
    ensures var m := StripLeadingZeros(s); m != [] && m[0] == 0 ==> m == s == Repeat(0, |s|)
  {
    var k := LeadingZeros(s);
    assert k == |s| ==> s[..k] == s;
  }

  function MpisBytes(ms: seq<bytes>): bytes {
    if ms == [] then [] else MpiBytes(ms[0]) + MpisBytes(ms[1..])
  }

  lemma OneMpi(m: bytes)
    ensures MpisBytes([m]) == MpiBytes(m)
  {
    assert [m][1..] == [];
    AppendNothing(MpiBytes(m));
  }

  lemma TwoMpis(r: bytes, s: bytes)
    ensures MpisBytes([r, s]) == MpiBytes(r) + MpiBytes(s)
  {
    assert [r, s][1..] == [s];
    OneMpi(s);
  }

  /** The MPI parser does not check the bit count against the octets, so what it returns is a
      canonical MPI except in two cases: every octet is zero, or there are 8192 octets with the top bit set.
      Writing it back never takes more octets than were read. */
  lemma ParsedMpi(i: bytes)
    requires ParseMpi(i).Parsed?
    ensures var m := ParseMpi(i).value;
            |MpiBytes(m)| + |ParseMpi(i).rest| <= |i|
            && (!Canonical(m) <==> m != [] && (m == Repeat(0, |m|) || BitSize(m) == 0x1_0000))
  {
    var bits: int := U16(i).value;
    var raw := i[2..][..(bits + 7) / 8];
    StripRestores(raw);
    var m := ParseMpi(i).value;
    if m != [] && m[0] == 0 {
      assert m == raw[..|raw|];
    }
  }

  // ---- The bit count

  lemma {:induction false} BelowPower(s: bytes)
    ensures BeValue(s) < Pow2(8 * |s|)
  {
    if s != [] {
      var c := s[..|s| - 1];
      BelowPower(c);
      Pow2Octet(|c|);
    }
  }

  lemma {:induction false} Pow2Sum(a: nat, b: nat)
    ensures Pow2(a + b) == Pow2(a) * Pow2(b)
  {
    if a > 0 {
      Pow2Sum(a - 1, b);
      assert 2 * (Pow2(a - 1) * Pow2(b)) == 2 * Pow2(a - 1) * Pow2(b);
    }
  }

  /** The highest bit of an octet */
  lemma HighestBit(b: byte)
    requires b > 0
    ensures Pow2(BitLength(b) - 1) <= b < Pow2(BitLength(b))
  {
    assert Pow2(0) == 1 && Pow2(1) == 2 && Pow2(2) == 4 && Pow2(3) == 8 && Pow2(4) == 16;
    assert Pow2(5) == 32 && Pow2(6) == 64 && Pow2(7) == 128 && Pow2(8) == 256;
  }

  lemma Between(low: nat, x: nat, high: nat, p: nat, t: nat)
    requires low <= x < high && t < p
    ensures low * p <= p * x + t < high * p
  {
    assert p * x + p == p * (x + 1);
    MulLe(low, x, p);
    MulLe(x + 1, high, p);
  }

  lemma MulLe(a: nat, b: nat, p: nat)
    requires a <= b
    ensures a * p <= b * p
  {
    assert b * p == a * p + (b - a) * p;
  }

  /** The bit count of octets without a leading zero is that of the number they stand for. */
  lemma BitSizeIsLength(m: bytes)
    requires m != [] && m[0] != 0
    ensures Pow2(BitSize(m) - 1) <= BeValue(m) < Pow2(BitSize(m))
  {
    var n, l := 8 * (|m| - 1), BitLength(m[0]);
    assert m == [m[0]] + m[1..];
    BeValueAppend([m[0]], m[1..]);
    assert [m[0]][..0] == [];
    assert BeValue([m[0]]) == m[0];
    BelowPower(m[1..]);
    HighestBit(m[0]);
    Between(Pow2(l - 1), m[0], Pow2(l), Pow2(n), BeValue(m[1..]));
    Pow2Sum(l - 1, n);
    Pow2Sum(l, n);
  }
}

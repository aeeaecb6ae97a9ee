/** The two-octet checksum (`src/crypto/checksum.rs`). */
module Checksum {
  import opened Bytes

  function Sum(s: bytes): nat {
    if s == [] then 0 else s[0] as int + Sum(s[1..])
  }

  lemma {:induction false} SumAppend(a: bytes, b: bytes)
    ensures Sum(a + b) == Sum(a) + Sum(b)
  {
    if a == [] {
      assert a + b == b;
    } else {
      assert (a + b)[1..] == a[1..] + b;
      SumAppend(a[1..], b);
    }
  }

  lemma SumOneMore(s: bytes, k: nat)
    requires k < |s|
    ensures Sum(s[..k + 1]) == Sum(s[..k]) + s[k] as int
  {
    SumAppend(s[..k], [s[k]]);
    assert Sum([s[k]]) == s[k] as int + Sum([s[k]][1..]);
    assert s[..k + 1] == s[..k] + [s[k]];
  }

  lemma WrapOnce(a: nat, b: nat)
    ensures (a % 0x1_0000_0000 + b) % 0x1_0000_0000 == (a + b) % 0x1_0000_0000
  {
    assert a + b == a % 0x1_0000_0000 + b + 0x1_0000_0000 * (a / 0x1_0000_0000);
  }

  lemma MaskAfterWrap(s: nat, r: nat, x: nat)
    requires r == x % 0x1_0000_0000
    ensures (s + r) % 0x1_0000 == (s + x) % 0x1_0000
  {
    assert s + x == s + r + 0x1_0000 * (0x1_0000 * (x / 0x1_0000_0000));
  }

  lemma ModOfSum(a: nat, b: nat)
    ensures (a % 0x1_0000 + b) % 0x1_0000 == (a + b) % 0x1_0000
  {
    assert a + b == a % 0x1_0000 + b + 0x1_0000 * (a / 0x1_0000);
  }

  /** `SimpleChecksum`: the sum of all octets written so far, modulo 65536. */
  class SimpleChecksum {
    var sum: u16

    constructor ()
      ensures sum == 0
    {
      sum := 0;
    }

    /** `write`: 32-bit sums wrap around, which the final 16-bit mask does not notice. */
    method Write(buf: bytes)
      modifies this
      ensures sum == (old(sum) + Sum(buf)) % 0x1_0000
    {
      var total: u32 := 0;
      for k := 0 to |buf|
        invariant sum == old(sum) && total == Sum(buf[..k]) % 0x1_0000_0000
      {
        SumOneMore(buf, k);
        WrapOnce(Sum(buf[..k]), buf[k]);
        total := (total as int + buf[k]) % 0x1_0000_0000;
      }
      assert buf[..|buf|] == buf;
      MaskAfterWrap(sum, total, Sum(buf));
      sum := (sum as int + total) % 0x1_0000;
    }
  }

  /** Cutting the data into several writes does not change the checksum. */
  method ChecksumInPieces(pieces: seq<bytes>) returns (sum: u16)
    ensures sum == Sum(Concat(pieces)) % 0x1_0000
  {
    var hasher := new SimpleChecksum();
    for k := 0 to |pieces|
      invariant hasher.sum == Sum(Concat(pieces[..k])) % 0x1_0000
    {
      ModOfSum(Sum(Concat(pieces[..k])), Sum(pieces[k]));
      hasher.Write(pieces[k]);
      ConcatAppend(pieces[..k], pieces[k]);
      SumAppend(Concat(pieces[..k]), pieces[k]);
      assert pieces[..k + 1] == pieces[..k] + [pieces[k]];
    }
    assert pieces[..|pieces|] == pieces;
    sum := hasher.sum;
  }
}

/** AES key wrap at one input, worked out: the block function that exchanges the halves of a block. */
module KeyWrapExample {
  import opened Bytes
  import opened ShiftRegisters
  import opened KeyWrap

  function Exchange(key: bytes, b: block): block { b[8..] + b[..8] }

  function WithLast(x: half, last: byte): half { x[..7] + [last] }

  lemma {:induction false} XorNothing(n: nat, a: nat)
    requires a < Pow2(n)
    ensures XorBits(n, a, 0) == a
  {
    if n > 0 {
      XorNothing(n - 1, a / 2);
    }
  }

  /** The halves change places, and the lower one is masked with the step number. */
  lemma ExchangeStep(key: bytes, a: half, x: half, t: byte)
    ensures Shift(WrapStep(Exchange, key), Registers(a, [x]), t) == Registers(WithLast(x, XorByte(x[7], t)), [a])
  {
    var b := Exchange(key, KeyWrap.Concat(a, x));
    assert b[..8] == x && b[8..] == a;
    assert Be64(t) == [0, 0, 0, 0, 0, 0, 0, t];
    EightBits();
    forall k | 0 <= k < 7 ensures XorByte(x[k], 0) == x[k] {
      XorNothing(8, x[k]);
    }
    assert Xor(x, Be64(t)) == WithLast(x, XorByte(x[7], t));
    assert [x][1..] + [a] == [a];
  }

  lemma LowMasks()
    ensures XorByte(0, 1) == 1 && XorByte(1, 3) == 2 && XorByte(2, 5) == 7
  {
    assert XorBits(5, 0, 0) == 0;
  }

  lemma HighMasks()
    ensures XorByte(0xA6, 2) == 0xA4 && XorByte(0xA4, 4) == 0xA0 && XorByte(0xA0, 6) == 0xA6
  {
    assert XorBits(5, 20, 0) == 20;
  }

  const ZERO: half := [0, 0, 0, 0, 0, 0, 0, 0]
  const A6: half := [0xA6, 0xA6, 0xA6, 0xA6, 0xA6, 0xA6, 0xA6, 0xA6]

  lemma ThreeSteps(key: bytes)
    ensures ShiftAll(WrapStep(Exchange, key), Registers(A6, [ZERO]), 3)
         == Registers(WithLast(ZERO, 2), [WithLast(A6, 0xA4)])
  {
    var f, s := WrapStep(Exchange, key), Registers(A6, [ZERO]);
    LowMasks();
    HighMasks();
    ExchangeStep(key, A6, ZERO, 1);
    ExchangeStep(key, WithLast(ZERO, 1), A6, 2);
    ExchangeStep(key, WithLast(A6, 0xA4), WithLast(ZERO, 1), 3);
    assert ShiftAll(f, s, 1) == Registers(WithLast(ZERO, 1), [A6]);
    assert ShiftAll(f, s, 2) == Registers(WithLast(A6, 0xA4), [WithLast(ZERO, 1)]);
  }

  lemma SixSteps(key: bytes)
    ensures ShiftAll(WrapStep(Exchange, key), Registers(A6, [ZERO]), 6)
         == Registers(WithLast(A6, 0xA6), [WithLast(ZERO, 7)])
  {
    var f, s := WrapStep(Exchange, key), Registers(A6, [ZERO]);
    LowMasks();
    HighMasks();
    ThreeSteps(key);
    ExchangeStep(key, WithLast(ZERO, 2), WithLast(A6, 0xA4), 4);
    ExchangeStep(key, WithLast(A6, 0xA0), WithLast(ZERO, 2), 5);
    ExchangeStep(key, WithLast(ZERO, 7), WithLast(A6, 0xA0), 6);
    assert ShiftAll(f, s, 4) == Registers(WithLast(A6, 0xA0), [WithLast(ZERO, 2)]);
    assert ShiftAll(f, s, 5) == Registers(WithLast(ZERO, 7), [WithLast(A6, 0xA0)]);
  }

  lemma ZeroChunk()
    ensures Chunks(ZERO) == [ZERO]
  {
    assert ZERO[..8] == ZERO && ZERO[8..] == [];
  }

  lemma Result()
    ensures Output(Registers(WithLast(A6, 0xA6), [WithLast(ZERO, 7)]))
         == [0xA6, 0xA6, 0xA6, 0xA6, 0xA6, 0xA6, 0xA6, 0xA6, 0, 0, 0, 0, 0, 0, 0, 7]
  {
    var r := WithLast(ZERO, 7);
    assert [r][1..] == [];
    assert Flat([r]) == r + Flat([]) == r;
  }

  /** Eight zero octets are wrapped to the unchanged initial value and zero masked with 1, 3 and 5. */
  lemma ExchangeWraps(key: bytes)
    requires |key| == 16
    ensures Wrap(Exchange, key, [0, 0, 0, 0, 0, 0, 0, 0])
         == Ok([0xA6, 0xA6, 0xA6, 0xA6, 0xA6, 0xA6, 0xA6, 0xA6, 0, 0, 0, 0, 0, 0, 0, 7])
  {
    SixSteps(key);
    ZeroChunk();
    Result();
    assert Wrap(Exchange, key, ZERO) == Ok(Output(ShiftAll(WrapStep(Exchange, key), Registers(A6, [ZERO]), 6)));
  }
}

/** The loop structure of RFC 3394 for any kind of register: a step combines A with one register. */
module ShiftRegisters {

  type Step<!H> = (nat, H, H) -> (H, H)

  ghost predicate Undoes<H(!new)>(f: Step<H>, g: Step<H>) {
    forall t, a, x :: var (b, y) := f(t, a, x); g(t, b, y) == (a, x)
  }

  datatype Registers<H> = Registers(a: H, r: seq<H>)

  /** Step `t` of wrapping: the first register is combined with A and comes back last. */
  function Shift<H>(f: Step<H>, s: Registers<H>, t: nat): (n: Registers<H>)
    requires s.r != []
    ensures |n.r| == |s.r|
  {
    var (a, x) := f(t, s.a, s.r[0]);
    Registers(a, s.r[1..] + [x])
  }

  /** Step `t` of unwrapping: the last register is combined with A and comes back first. */
  function Unshift<H>(g: Step<H>, s: Registers<H>, t: nat): (p: Registers<H>)
    requires s.r != []
    ensures |p.r| == |s.r|
  {
    var last := |s.r| - 1;
    var (a, x) := g(t, s.a, s.r[last]);
    Registers(a, [x] + s.r[..last])
  }

  /** Steps 1 to `t` */
  function ShiftAll<H>(f: Step<H>, s: Registers<H>, t: nat): (n: Registers<H>)
    requires t > 0 ==> s.r != []
    ensures |n.r| == |s.r|
  {
    if t == 0 then s else Shift(f, ShiftAll(f, s, t - 1), t)
  }

  /** Steps `top` down to `t + 1` */
  function UnshiftTo<H>(g: Step<H>, s: Registers<H>, top: nat, t: nat): (p: Registers<H>)
    requires t <= top && (t < top ==> s.r != [])
    ensures |p.r| == |s.r|
    decreases top - t
  {
    if t == top then s else Unshift(g, UnshiftTo(g, s, top, t + 1), t + 1)
  }

  /** Undoing all steps down to `t` leaves the first `t` steps done. */
  lemma {:induction false} ShiftAllUndone<H(!new)>(f: Step<H>, g: Step<H>, s: Registers<H>, top: nat, t: nat)
    requires (top > 0 ==> s.r != []) && t <= top && Undoes(f, g)
    ensures UnshiftTo(g, ShiftAll(f, s, top), top, t) == ShiftAll(f, s, t)
    decreases top - t
  {
    if t < top {
      var p := ShiftAll(f, s, t);
      var (a, x) := f(t + 1, p.a, p.r[0]);
      assert (p.r[1..] + [x])[..|p.r| - 1] == p.r[1..];
      assert [p.r[0]] + p.r[1..] == p.r;
      ShiftAllUndone(f, g, s, top, t + 1);
    }
  }

  /** Redoing the first `t` steps leaves the steps down to `t + 1` undone. */
  lemma {:induction false} UnshiftToRedone<H(!new)>(f: Step<H>, g: Step<H>, s: Registers<H>, top: nat, t: nat)
    requires (top > 0 ==> s.r != []) && t <= top && Undoes(g, f)
    ensures ShiftAll(f, UnshiftTo(g, s, top, 0), t) == UnshiftTo(g, s, top, t)
  {
    if t > 0 {
      var n := UnshiftTo(g, s, top, t);
      var last := |n.r| - 1;
      var (a, x) := g(t, n.a, n.r[last]);
      assert ([x] + n.r[..last])[1..] == n.r[..last];
      assert n.r[..last] + [n.r[last]] == n.r;
      UnshiftToRedone(f, g, s, top, t - 1);
    }
  }

  function Rotate<H>(r: seq<H>, i: nat): (s: seq<H>)
    requires i <= |r|
    ensures |s| == |r| && (i == 0 || i == |r| ==> s == r)
  {
    r[i..] + r[..i]
  }

  /** An index into registers that stay in place plays the part of the shift. */
  lemma InPlaceShift<H>(f: Step<H>, a: H, r: seq<H>, i: nat, t: nat)
    requires i < |r|
    ensures var (b, x) := f(t, a, r[i]);
            Shift(f, Registers(a, Rotate(r, i)), t) == Registers(b, Rotate(r[i := x], i + 1))
  {
    var (b, x) := f(t, a, r[i]);
    assert Rotate(r, i)[1..] + [x] == Rotate(r[i := x], i + 1);
  }

  lemma InPlaceUnshift<H>(g: Step<H>, a: H, r: seq<H>, i: nat, t: nat)
    requires i < |r|
    ensures var (b, x) := g(t, a, r[i]);
            Unshift(g, Registers(a, Rotate(r, i + 1)), t) == Registers(b, Rotate(r[i := x], i))
  {
    var (b, x) := g(t, a, r[i]);
    var s := Rotate(r, i + 1);
    assert s[|s| - 1] == r[i];
    assert [x] + s[..|s| - 1] == Rotate(r[i := x], i);
  }

  /** n * j, the steps done in j rounds */
  function StepsIn(n: nat, j: nat): nat {
    if j == 0 then 0 else StepsIn(n, j - 1) + n
  }

  lemma SixRounds(n: nat)
    ensures StepsIn(n, 6) == 6 * n
  {
    assert StepsIn(n, 1) == n;
    assert StepsIn(n, 3) == 3 * n;
    assert StepsIn(n, 5) == 5 * n;
  }

  /** One round of the outer loop of wrapping: `base` is n times the number of rounds done. */
  method WrapRound<H>(f: Step<H>, ghost start: Registers<H>, base: nat, a0: H, r: array<H>) returns (a: H)
    requires r.Length == |start.r| && (base > 0 ==> start.r != [])
    requires ShiftAll(f, start, base) == Registers(a0, r[..])
    modifies r
    ensures ShiftAll(f, start, base + r.Length) == Registers(a, r[..])
  {
    a := a0;
    for i := 0 to r.Length
      invariant ShiftAll(f, start, base + i) == Registers(a, Rotate(r[..], i))
    {
      ghost var before := r[..];
      InPlaceShift(f, a, before, i, base + (i + 1));
      var (b, x) := f(base + (i + 1), a, r[i]);
      a := b;
      r[i] := x;
      assert r[..] == before[i := x];
    }
  }

  /** Six rounds of overwriting registers in place compute the 6n shifts. */
  method WrapInPlace<H>(f: Step<H>, start: Registers<H>) returns (end: Registers<H>)
    ensures end == ShiftAll(f, start, 6 * |start.r|)
  {
    var n := |start.r|;
    var a := start.a;
    var r := new H[n](k requires 0 <= k < n => start.r[k]);
    assert r[..] == start.r;
    for j := 0 to 6
      invariant StepsIn(n, j) > 0 ==> n > 0
      invariant ShiftAll(f, start, StepsIn(n, j)) == Registers(a, r[..])
    {
      a := WrapRound(f, start, StepsIn(n, j), a, r);
    }
    SixRounds(n);
    end := Registers(a, r[..]);
  }

  method UnwrapRound<H>(g: Step<H>, ghost start: Registers<H>, ghost top: nat, base: nat, a0: H, r: array<H>)
    returns (a: H)
    requires r.Length == |start.r| && base + r.Length <= top && (base < top ==> start.r != [])
    requires UnshiftTo(g, start, top, base + r.Length) == Registers(a0, r[..])
    modifies r
    ensures UnshiftTo(g, start, top, base) == Registers(a, r[..])
  {
    a := a0;
    for i := r.Length downto 0
      invariant UnshiftTo(g, start, top, base + i) == Registers(a, Rotate(r[..], i))
    {
      ghost var before := r[..];
      InPlaceUnshift(g, a, before, i, base + (i + 1));
      var (b, x) := g(base + (i + 1), a, r[i]);
      a := b;
      r[i] := x;
      assert r[..] == before[i := x];
    }
  }

  /** Six rounds of overwriting registers in place, backwards, compute the 6n inverse shifts. */
  method UnwrapInPlace<H>(g: Step<H>, start: Registers<H>) returns (end: Registers<H>)
    ensures end == UnshiftTo(g, start, 6 * |start.r|, 0)
  {
    var n := |start.r|;
    var a := start.a;
    var r := new H[n](k requires 0 <= k < n => start.r[k]);
    assert r[..] == start.r;
    SixRounds(n);
    for j := 6 downto 0
      invariant StepsIn(n, j) <= 6 * n
      invariant UnshiftTo(g, start, 6 * n, StepsIn(n, j)) == Registers(a, r[..])
    {
      a := UnwrapRound(g, start, 6 * n, StepsIn(n, j), a, r);
    }
    end := Registers(a, r[..]);
  }
}

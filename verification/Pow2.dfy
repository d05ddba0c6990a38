/**
 Powers of two by repeated squaring (`pow2f`, `pow2d` and `pow2l` of test-float.c)
 against the linear `my_ldexp` of test-frexp.h.  Values are real numbers.
 */
module Pow2 {

  function Pow(b: real, k: nat): real {
    if k == 0 then 1.0 else b * Pow(b, k - 1)
  }

  /** 2^n. */
  function Exp2(n: int): real {
    if n < 0 then Pow(0.5, -n) else Pow(2.0, n)
  }

  lemma Assoc(a: real, b: real, c: real)
    ensures a * (b * c) == (a * b) * c
  {
  }

  /** Exp2 is the power of two: it doubles at every step, on both sides of 0. */
  lemma Exp2Doubles(n: int)
    ensures Exp2(0) == 1.0 && Exp2(n + 1) == 2.0 * Exp2(n)
  {
    if n < 0 {
      Assoc(2.0, 0.5, Pow(0.5, -n - 1));
    }
  }

  lemma {:induction false} PowAdd(b: real, i: nat, j: nat)
    ensures Pow(b, i + j) == Pow(b, i) * Pow(b, j)
    decreases i
  {
    if i > 0 {
      PowAdd(b, i - 1, j);
      assert i - 1 + j == i + j - 1;
      Assoc(b, Pow(b, i - 1), Pow(b, j));
    }
  }

  lemma {:induction false} PowPositive(b: real, k: nat)
    requires b > 0.0
    ensures Pow(b, k) > 0.0
  {
    if k > 0 { PowPositive(b, k - 1); }
  }

  lemma Exp2Positive(n: int)
    ensures Exp2(n) > 0.0
  {
    if n < 0 { PowPositive(0.5, -n); } else { PowPositive(2.0, n); }
  }

  lemma {:induction false} Exp2Grows(m: int, n: int)
    requires m < n
    ensures Exp2(m) < Exp2(n)
    decreases n - m
  {
    Exp2Doubles(n - 1);
    Exp2Positive(n - 1);
    if m < n - 1 { Exp2Grows(m, n - 1); }
  }

  lemma Exp2Injective(m: int, n: int)
    requires Exp2(m) == Exp2(n)
    ensures m == n
  {
    if m < n { Exp2Grows(m, n); } else if n < m { Exp2Grows(n, m); }
  }

  // ----- The range of the result -----

  predicate Between(e: int, n: int) {
    0 <= e <= n || n <= e <= 0
  }

  /** A power of two between 1 and 2^n: it is representable wherever these two are. */
  ghost predicate InRange(v: real, n: int) {
    exists e :: Between(e, n) && v == Exp2(e)
  }

  ghost predicate AllInRange(vs: seq<real>, n: int) {
    forall i | 0 <= i < |vs| :: InRange(vs[i], n)
  }

  lemma InRangeExactlyWhen(e: int, n: int)
    ensures InRange(Exp2(e), n) <==> Between(e, n)
  {
    if InRange(Exp2(e), n) {
      var d :| Between(d, n) && Exp2(e) == Exp2(d);
      Exp2Injective(e, d);
    }
  }

  // ----- The loop, with every value that it gives to x and y -----

  datatype Trace = Trace(result: real, xs: seq<real>, ys: seq<real>)

  /** The loop of `pow2f` from `x`, `y` and `k`. */
  function Loop(x: real, y: real, k: nat): Trace
    decreases k
  {
    if k == 0 then Trace(x, [], [])
    else if k != 2 * (k / 2) then
      if k - 1 == 0 then Trace(x * y, [x * y], [])
      else
        var t := Loop(x * y, y * y, (k - 1) / 2);
        Trace(t.result, [x * y] + t.xs, [y * y] + t.ys)
    else
      var t := Loop(x, y * y, k / 2);
      Trace(t.result, t.xs, [y * y] + t.ys)
  }

  /** The values given to `y` before the loop: 2, and then 1/2 for a negative `n`. */
  function FirstFactors(n: int): seq<real> {
    if n < 0 then [2.0, 0.5] else [2.0]
  }

  function Base(n: int): real {
    if n < 0 then 0.5 else 2.0
  }

  function Abs(n: int): nat {
    if n < 0 then -n else n
  }

  /** The whole of `pow2f (n)`. */
  function Trace2(n: int): Trace {
    var t := Loop(1.0, Base(n), Abs(n));
    Trace(t.result, [1.0] + t.xs, FirstFactors(n) + t.ys)
  }

  // ----- The same loop on exponents -----

  datatype Exponents = Exponents(result: nat, xs: seq<nat>, ys: seq<nat>)

  /** The exponents of the values, when `x` and `y` are powers `done` and `unit`. */
  function LoopExponents(done: nat, unit: nat, k: nat): Exponents
    decreases k
  {
    if k == 0 then Exponents(done, [], [])
    else if k != 2 * (k / 2) then
      if k - 1 == 0 then Exponents(done + unit, [done + unit], [])
      else
        var t := LoopExponents(done + unit, unit + unit, (k - 1) / 2);
        Exponents(t.result, [done + unit] + t.xs, [unit + unit] + t.ys)
    else
      var t := LoopExponents(done, unit + unit, k / 2);
      Exponents(t.result, t.xs, [unit + unit] + t.ys)
  }

  function Map(f: nat -> real, es: seq<nat>): (vs: seq<real>)
    ensures |vs| == |es| && forall i | 0 <= i < |es| :: vs[i] == f(es[i])
  {
    seq(|es|, i requires 0 <= i < |es| => f(es[i]))
  }

  function MapTrace(f: nat -> real, t: Exponents): Trace {
    Trace(f(t.result), Map(f, t.xs), Map(f, t.ys))
  }

  predicate Adds(f: nat -> real, a: nat, b: nat) {
    f(a) * f(b) == f(a + b)
  }

  ghost predicate Multiplicative(f: nat -> real) {
    forall a: nat, b: nat :: Adds(f, a, b)
  }

  lemma MapCons(f: nat -> real, e: nat, es: seq<nat>)
    ensures Map(f, [e] + es) == [f(e)] + Map(f, es)
  {
  }

  /** The loop multiplies by adding exponents. */
  lemma {:induction false} LoopMapped(f: nat -> real, done: nat, unit: nat, k: nat)
    requires Multiplicative(f)
    ensures Loop(f(done), f(unit), k) == MapTrace(f, LoopExponents(done, unit, k))
    decreases k
  {
    assert Adds(f, done, unit) && Adds(f, unit, unit);
    if k == 0 {
    } else if k == 1 {
      assert Map(f, [done + unit]) == [f(done + unit)];
    } else if k != 2 * (k / 2) {
      LoopMapped(f, done + unit, unit + unit, (k - 1) / 2);
      var t := LoopExponents(done + unit, unit + unit, (k - 1) / 2);
      MapCons(f, done + unit, t.xs);
      MapCons(f, unit + unit, t.ys);
    } else {
      LoopMapped(f, done, unit + unit, k / 2);
      MapCons(f, unit + unit, LoopExponents(done, unit + unit, k / 2).ys);
    }
  }

  ghost predicate AllAtMost(es: seq<nat>, m: nat) {
    forall i | 0 <= i < |es| :: es[i] <= m
  }

  function LastOf(e: nat, es: seq<nat>): nat {
    if es == [] then e else es[|es| - 1]
  }

  lemma Halve(unit: nat, k: nat)
    requires k >= 1 && k == 2 * (k / 2)
    ensures (unit + unit) * (k / 2) == unit * k && unit + unit <= unit * k
  {
    var h := k / 2;
    assert unit * (2 * h) == (unit + unit) * h;
    assert (unit + unit) * h == (unit + unit) + (unit + unit) * (h - 1);
  }

  /** One odd round: a factor is taken and y is squared. */
  lemma OddRound(done: nat, unit: nat, k: nat, m: nat)
    requires k > 1 && k != 2 * (k / 2) && m == done + unit * k
    ensures m == (done + unit) + (unit + unit) * ((k - 1) / 2)
    ensures done + unit <= m && unit + unit <= m
  {
    assert unit * k == unit + unit * (k - 1);
    Halve(unit, k - 1);
  }

  /** The final exponent is `m`, no exponent exceeds it, and twice the last one of
      y, which was `e` before, does. */
  ghost predicate Fits(t: Exponents, e: nat, m: nat) {
    t.result == m && AllAtMost(t.xs, m) && AllAtMost(t.ys, m) && LastOf(e, t.ys) <= m < 2 * LastOf(e, t.ys)
  }

  lemma FitsCons(xs: seq<nat>, e: nat, e': nat, t: Exponents, m: nat)
    requires Fits(t, e', m) && AllAtMost(xs, m) && e' <= m
    ensures Fits(Exponents(t.result, xs + t.xs, [e'] + t.ys), e, m)
  {
  }

  lemma LastRound(done: nat, unit: nat)
    requires done < unit
    ensures Fits(LoopExponents(done, unit, 1), unit, done + unit)
  {
    assert LoopExponents(done, unit, 1) == Exponents(done + unit, [done + unit], []);
  }

  lemma {:induction false} OddFits(done: nat, unit: nat, k: nat, m: nat)
    requires k > 1 && k != 2 * (k / 2) && done + unit <= m && unit + unit <= m
    requires Fits(LoopExponents(done + unit, unit + unit, (k - 1) / 2), unit + unit, m)
    ensures Fits(LoopExponents(done, unit, k), unit, m)
  {
    FitsCons([done + unit], unit, unit + unit, LoopExponents(done + unit, unit + unit, (k - 1) / 2), m);
  }

  lemma {:induction false} EvenFits(done: nat, unit: nat, k: nat, m: nat)
    requires k > 1 && k == 2 * (k / 2) && unit + unit <= m
    requires Fits(LoopExponents(done, unit + unit, k / 2), unit + unit, m)
    ensures Fits(LoopExponents(done, unit, k), unit, m)
  {
    var t := LoopExponents(done, unit + unit, k / 2);
    FitsCons([], unit, unit + unit, t, m);
    assert [] + t.xs == t.xs;
  }

  /** With the binary digits of `done` below `unit` the exponents fit
      done + unit * k. */
  lemma {:induction false} ExponentsFit(done: nat, unit: nat, k: nat, m: nat)
    requires done < unit && k >= 1 && m == done + unit * k
    ensures Fits(LoopExponents(done, unit, k), unit, m)
    decreases k
  {
    if k == 1 {
      LastRound(done, unit);
    } else if k != 2 * (k / 2) {
      OddRound(done, unit, k, m);
      ExponentsFit(done + unit, unit + unit, (k - 1) / 2, m);
      OddFits(done, unit, k, m);
    } else {
      Halve(unit, k);
      ExponentsFit(done, unit + unit, k / 2, m);
      EvenFits(done, unit, k, m);
    }
  }

  // ----- Every value is in range -----

  function Signed(e: int, n: int): int {
    if n < 0 then -e else e
  }

  lemma {:induction false} Exp2Product(a: nat, b: nat, n: int)
    ensures Exp2(Signed(a, n)) * Exp2(Signed(b, n)) == Exp2(Signed(a + b, n))
  {
    PowAdd(Base(n), a, b);
    SignedPower(a, n);
    SignedPower(b, n);
    SignedPower(a + b, n);
  }

  lemma {:induction false} SignedPower(e: nat, n: int)
    ensures Exp2(Signed(e, n)) == Pow(Base(n), e)
  {
  }

  /** `y` is in range and its square is not. */
  ghost predicate Topmost(y: real, n: int) {
    InRange(y, n) && !InRange(y * y, n)
  }

  lemma SignedInRange(e: nat, n: int)
    requires e <= Abs(n)
    ensures InRange(Exp2(Signed(e, n)), n)
    ensures 2 * e > Abs(n) ==> Topmost(Exp2(Signed(e, n)), n)
  {
    assert Between(Signed(e, n), n);
    Exp2Product(e, e, n);
    InRangeExactlyWhen(Signed(e + e, n), n);
  }

  lemma AllSignedInRange(es: seq<nat>, n: int, f: nat -> real)
    requires AllAtMost(es, Abs(n)) && forall e: nat :: f(e) == Exp2(Signed(e, n))
    ensures AllInRange(Map(f, es), n)
  {
    forall i | 0 <= i < |es| ensures InRange(Map(f, es)[i], n) {
      SignedInRange(es[i], n);
    }
  }

  /** The last value of `y`, whose square the early break does not compute. */
  function Last(y: real, ys: seq<real>): real {
    if ys == [] then y else ys[|ys| - 1]
  }

  lemma LoopInRange(n: int)
    requires n != 0
    ensures var t := Loop(1.0, Base(n), Abs(n));
            && t.result == Exp2(n)
            && AllInRange(t.xs, n) && AllInRange(t.ys, n)
            && Topmost(Last(Base(n), t.ys), n)
  {
    var f := (e: nat) => Exp2(Signed(e, n));
    assert Multiplicative(f) by {
      forall a: nat, b: nat ensures Adds(f, a, b) { Exp2Product(a, b, n); }
    }
    SmallPowers();
    assert f(0) == 1.0 && f(1) == Base(n);
    LoopMapped(f, 0, 1, Abs(n));
    ExponentsFit(0, 1, Abs(n), Abs(n));
    var t := LoopExponents(0, 1, Abs(n));
    AllSignedInRange(t.xs, n, f);
    AllSignedInRange(t.ys, n, f);
    SignedInRange(LastOf(1, t.ys), n);
  }

  lemma SmallPowers()
    ensures Exp2(0) == 1.0 && Exp2(1) == 2.0 && Exp2(-1) == 0.5
  {
    assert Pow(2.0, 1) == 2.0 && Pow(0.5, 1) == 0.5;
  }

  /** For every integer n: the result is 2^n; every value given to x, and every
      value given to y but the first, is a power of two between 1 and 2^n; the
      first value of y, which is 2, is one exactly for positive n; and without the
      early break the next square would not be one. */
  lemma TraceInRange(n: int)
    ensures var t := Trace2(n);
            && t.result == Exp2(n)
            && AllInRange(t.xs, n)
            && t.ys[0] == 2.0 && AllInRange(t.ys[1..], n)
            && (InRange(2.0, n) <==> n > 0)
            && (n != 0 ==> Topmost(t.ys[|t.ys| - 1], n))
  {
    var t, l := Trace2(n), Loop(1.0, Base(n), Abs(n));
    SmallPowers();
    InRangeExactlyWhen(0, n);
    InRangeExactlyWhen(1, n);
    InRangeExactlyWhen(-1, n);
    if n != 0 {
      LoopInRange(n);
      assert t.ys[1..] == FirstFactors(n)[1..] + l.ys;
      assert t.ys[|t.ys| - 1] == Last(Base(n), l.ys);
    }
  }

  /** `pow2f`.  The ghost results are the values that `x` and `y` are given. */
  method Power(n: int) returns (x: real, ghost xs: seq<real>, ghost ys: seq<real>)
    ensures Trace(x, xs, ys) == Trace2(n)
    ensures x == Exp2(n)
    ensures AllInRange(xs, n) && |ys| > 0 && ys[0] == 2.0 && AllInRange(ys[1..], n)
    ensures InRange(ys[0], n) <==> n > 0
    ensures n != 0 ==> Topmost(ys[|ys| - 1], n)
  {
    x, xs, ys := Squaring(n);
    TraceInRange(n);
  }

  /** The code itself. */
  method Squaring(n: int) returns (x: real, ghost xs: seq<real>, ghost ys: seq<real>)
    ensures Trace(x, xs, ys) == Trace2(n)
  {
    var k, y := n, 2.0;
    x := 1.0;
    xs, ys := [x], [y];
    if k < 0 {
      y := 0.5;
      ys := ys + [y];
      k := -k;
    }
    while k > 0
      invariant k >= 0
      invariant Trace2(n) == Then(xs, ys, Loop(x, y, k))
    {
      ThenStep(xs, ys, x, y, k);
      if k != 2 * (k / 2) {
        x := x * y;
        xs := xs + [x];
        k := k - 1;
      }
      if k == 0 { break; }
      y := y * y;
      ys := ys + [y];
      k := k / 2;
    }
    assert xs + [] == xs && ys + [] == ys;
  }

  /** A trace with the values given before it. */
  function Then(xs: seq<real>, ys: seq<real>, t: Trace): Trace {
    Trace(t.result, xs + t.xs, ys + t.ys)
  }

  /** One round of the loop. */
  lemma {:induction false} ThenStep(xs: seq<real>, ys: seq<real>, x: real, y: real, k: nat)
    requires k > 0
    ensures k == 1 ==> Then(xs, ys, Loop(x, y, k)) == Then(xs + [x * y], ys, Loop(x * y, y, 0))
    ensures k > 1 && k != 2 * (k / 2) ==>
              Then(xs, ys, Loop(x, y, k)) == Then(xs + [x * y], ys + [y * y], Loop(x * y, y * y, (k - 1) / 2))
    ensures k == 2 * (k / 2) ==>
              Then(xs, ys, Loop(x, y, k)) == Then(xs, ys + [y * y], Loop(x, y * y, k / 2))
  {
    if k == 1 {
      assert xs + [x * y] == (xs + [x * y]) + [];
    } else if k != 2 * (k / 2) {
      var t := Loop(x * y, y * y, (k - 1) / 2);
      assert xs + ([x * y] + t.xs) == (xs + [x * y]) + t.xs;
      assert ys + ([y * y] + t.ys) == (ys + [y * y]) + t.ys;
    } else {
      var t := Loop(x, y * y, k / 2);
      assert ys + ([y * y] + t.ys) == (ys + [y * y]) + t.ys;
    }
  }

  /** `my_ldexp (x, d)`. */
  method Ldexp(x0: real, d0: int) returns (x: real)
    ensures x == x0 * Exp2(d0)
  {
    var d := d0;
    x := x0;
    while d > 0
      invariant (d0 >= 0 ==> 0 <= d) && (d0 < 0 ==> d == d0)
      invariant x * Exp2(d) == x0 * Exp2(d0)
    {
      Assoc(x, 2.0, Pow(2.0, d - 1));
      x := x * 2.0;
      d := d - 1;
    }
    while d < 0
      invariant d <= 0
      invariant x * Exp2(d) == x0 * Exp2(d0)
    {
      Assoc(x, 0.5, Pow(0.5, -d - 1));
      x := x * 0.5;
      d := d + 1;
    }
  }

  /** The fast form agrees with the slow one. */
  method PowerAgreesWithLdexp(n: int) returns (fast: real, slow: real)
    ensures fast == slow == Exp2(n)
  {
    ghost var xs, ys;
    fast, xs, ys := Power(n);
    slow := Ldexp(1.0, n);
  }
}

/** The state sequence of the PCG-XSH-RR 64/32 generator: one cycle through all 2^64 states, for every odd increment. */
module PcgOrbit {
  import opened Powers

  const MULTIPLIER: nat := 6364136223846793005

  ghost predicate Stream(inc: nat) {
    inc % 2 == 1
  }

  function Step(inc: nat, s: nat): (t: nat)
    ensures t < TWO64
  {
    (s * MULTIPLIER + inc) % TWO64
  }

  /** The first two states of the reference implementation's demo, seeded with 42 on stream 54. */
  lemma DemoStates()
    ensures Step(109, (Step(109, 0) + 42) % TWO64) == 0x1857_06B8_2C2E_03F8
    ensures Step(109, 0x1857_06B8_2C2E_03F8) == 0x2B47_FED8_8766_BB05
  {
    DivModUnique(52, TWO64, 0x1857_06B8_2C2E_03F8);
    DivModUnique(605088803940569381, TWO64, 0x2B47_FED8_8766_BB05);
  }

  // the state after n steps
  ghost function Run(inc: nat, s: nat, n: nat): nat {
    if n == 0 then s else Step(inc, Run(inc, s, n - 1))
  }

  // the same sequence without the reduction modulo 2^64
  ghost function Orbit(inc: nat, x: int, n: nat): int {
    if n == 0 then x else Orbit(inc, x, n - 1) * MULTIPLIER + inc
  }

  lemma {:induction false} RunIsOrbit(inc: nat, s: nat, n: nat)
    requires s < TWO64
    ensures Run(inc, s, n) < TWO64
    ensures Run(inc, s, n) == Orbit(inc, s, n) % TWO64
  {
    if n == 0 {
    } else {
      RunIsOrbit(inc, s, n - 1);
      StepReduces(Orbit(inc, s, n - 1), MULTIPLIER, inc, TWO64);
    }
  }

  lemma StepReduces(o: int, a: int, c: int, m: nat)
    requires m > 0
    ensures ((o % m) * a + c) % m == (o * a + c) % m
  {
    var q, r := o / m, o % m;
    assert o * a + c == (q * a) * m + (r * a + c) by { ExpandQuotient(q, m, r, a); }
    AddMultiple(r * a + c, q * a, m);
  }

  lemma ExpandQuotient(q: int, m: int, r: int, a: int)
    ensures (q * m + r) * a == (q * a) * m + r * a
  {
  }

  lemma AddMultiple(x: int, q: int, m: nat)
    requires m > 0
    ensures (x + q * m) % m == x % m
  {
    MulDistribute(x / m, q, m);
    DivModUnique(x / m + q, m, x % m);
  }

  lemma {:induction false} RunAdd(inc: nat, s: nat, m: nat, n: nat)
    ensures Run(inc, s, m + n) == Run(inc, Run(inc, s, m), n)
  {
    if n == 0 {
    } else {
      RunAdd(inc, s, m, n - 1);
      assert m + n - 1 == m + (n - 1);
    }
  }

  lemma {:induction false} OrbitAdd(inc: nat, x: int, m: nat, n: nat)
    ensures Orbit(inc, x, m + n) == Orbit(inc, Orbit(inc, x, m), n)
  {
    if n == 0 {
    } else {
      OrbitAdd(inc, x, m, n - 1);
      assert m + n - 1 == m + (n - 1);
    }
  }

  // ----- 2^k steps at once: x becomes Factor * x + Shift

  ghost function Factor(k: nat): int {
    if k == 0 then MULTIPLIER else Factor(k - 1) * Factor(k - 1)
  }

  ghost function Shift(inc: nat, k: nat): int {
    if k == 0 then inc else (Factor(k - 1) + 1) * Shift(inc, k - 1)
  }

  lemma AffineTwice(f: int, c: int, x: int)
    ensures f * (f * x + c) + c == (f * f) * x + (f + 1) * c
  {
  }

  lemma {:induction false} Jump(inc: nat, k: nat, x: int)
    ensures Orbit(inc, x, Pow2(k)) == Factor(k) * x + Shift(inc, k)
  {
    if k == 0 {
      assert Orbit(inc, x, 1) == Orbit(inc, x, 0) * MULTIPLIER + inc;
    } else {
      var p := Pow2(k - 1);
      Jump(inc, k - 1, x);
      Jump(inc, k - 1, Orbit(inc, x, p));
      OrbitAdd(inc, x, p, p);
      AffineTwice(Factor(k - 1), Shift(inc, k - 1), x);
    }
  }

  // the factor is 1 modulo 2^(k+2), since the multiplier is 1 modulo 4
  lemma {:induction false} FactorForm(k: nat) returns (t: int)
    ensures Factor(k) == 1 + 4 * (Pow2(k) * t)
  {
    if k == 0 {
      t := (MULTIPLIER - 1) / 4;
    } else {
      var p := Pow2(k - 1);
      var v := FactorForm(k - 1);
      t := v + 2 * (p * v * v);
      FactorSquare(p, v);
    }
  }

  lemma FactorSquare(p: int, v: int)
    ensures (1 + 4 * (p * v)) * (1 + 4 * (p * v)) == 1 + 4 * ((2 * p) * (v + 2 * (p * v * v)))
  {
  }

  // the shift is an odd multiple of 2^k, since the increment is odd
  lemma {:induction false} ShiftForm(inc: nat, k: nat) returns (u: int)
    requires Stream(inc)
    ensures Shift(inc, k) == Pow2(k) * (1 + 2 * u)
  {
    if k == 0 {
      u := (inc - 1) / 2;
    } else {
      var p := Pow2(k - 1);
      var v := ShiftForm(inc, k - 1);
      var t := FactorForm(k - 1);
      u := v + p * t * (1 + 2 * v);
      assert Shift(inc, k) == (Factor(k - 1) + 1) * Shift(inc, k - 1);
      ShiftNext(Factor(k - 1), Shift(inc, k - 1), p, t, v);
    }
  }

  lemma ShiftNext(f: int, c: int, p: int, t: int, v: int)
    requires f == 1 + 4 * (p * t) && c == p * (1 + 2 * v)
    ensures (f + 1) * c == (2 * p) * (1 + 2 * (v + p * t * (1 + 2 * v)))
  {
    ShiftDouble(p, t, v);
  }

  lemma ShiftDouble(p: int, t: int, v: int)
    ensures (1 + 4 * (p * t) + 1) * (p * (1 + 2 * v)) == (2 * p) * (1 + 2 * (v + p * t * (1 + 2 * v)))
  {
  }

  // 2^k steps add 2^k, up to a multiple of 2^(k+1)
  lemma JumpOnce(inc: nat, k: nat, x: int) returns (w: int)
    requires Stream(inc)
    ensures Orbit(inc, x, Pow2(k)) == x + Pow2(k) + 2 * (Pow2(k) * w)
  {
    Jump(inc, k, x);
    var t := FactorForm(k);
    var u := ShiftForm(inc, k);
    w := 2 * (t * x) + u;
    AffineAdds(Pow2(k), t, u, x);
  }

  lemma AffineAdds(p: int, t: int, u: int, x: int)
    ensures (1 + 4 * (p * t)) * x + p * (1 + 2 * u) == x + p + 2 * (p * (2 * (t * x) + u))
  {
  }

  lemma OrbitZero(inc: nat, x: int)
    ensures Orbit(inc, x, 0) == x
  {
  }

  lemma {:induction false} JumpMany(inc: nat, k: nat, q: nat, x: int) returns (w: int)
    requires Stream(inc)
    ensures q * Pow2(k) >= 0
    ensures Orbit(inc, x, q * Pow2(k)) == x + q * Pow2(k) + 2 * (Pow2(k) * w)
  {
    var p := Pow2(k);
    OrbitZero(inc, x);
    hide Orbit, Pow2;
    if q == 0 {
      w := 0;
    } else {
      var v := JumpMany(inc, k, q - 1, x);
      MulDistribute(q - 1, 1, p);
      OrbitAdd(inc, x, (q - 1) * p, p);
      var e := JumpOnce(inc, k, Orbit(inc, x, (q - 1) * p));
      w := v + e;
      MulDistribute(v, e, p);
    }
  }

  // ----- divisibility by a power of two

  ghost predicate Divides(p: nat, d: int)
    requires p > 0
  {
    d % p == 0
  }

  lemma MultipleOf(d: int, p: nat, w: int)
    requires p > 0 && d == p * w
    ensures Divides(p, d)
  {
    DivModUnique(w, p, 0);
  }

  lemma Quotient(d: int, p: nat) returns (w: int)
    requires p > 0 && Divides(p, d)
    ensures d == p * w
  {
    w := d / p;
  }

  // p * q is a multiple of 2 * p exactly when q is even
  lemma TwiceDivides(p: nat, q: int)
    requires p > 0
    ensures Divides(2 * p, p * q) <==> q % 2 == 0
  {
    if q % 2 == 0 {
      MultipleOf(p * q, 2 * p, q / 2);
    } else {
      var h := q / 2;
      assert q == 2 * h + 1;
      assert p * q == h * (2 * p) + p;
      DivModUnique(h, 2 * p, p);
    }
  }

  lemma HalfDivides(d: int, p: nat)
    requires p > 0
    ensures Divides(2 * p, d) ==> Divides(p, d)
  {
    hide Divides;
    if Divides(2 * p, d) {
      var e := Quotient(d, 2 * p);
      MultipleOf(d, p, 2 * e);
    }
  }

  // d and n have the same multiplicity of p, up to one factor of 2 more, when d = n + 2pw
  lemma SameMultiplicity(d: int, n: int, p: nat, w: int)
    requires p > 0 && Divides(p, n) && d == n + 2 * (p * w)
    ensures Divides(2 * p, d) <==> Divides(2 * p, n)
  {
    hide Divides;
    var q := Quotient(n, p);
    CollectTwo(p, q, w);
    TwiceDivides(p, q);
    TwiceDivides(p, q + 2 * w);
  }

  lemma CollectTwo(p: int, q: int, w: int)
    ensures p * q + 2 * (p * w) == p * (q + 2 * w)
  {
  }

  // ----- the period

  lemma {:induction false} Period(inc: nat, k: nat, x: int, n: nat)
    requires Stream(inc)
    ensures Divides(Pow2(k), Orbit(inc, x, n) - x) <==> Divides(Pow2(k), n)
    decreases k
  {
    if k == 0 {
    } else {
      Period(inc, k - 1, x, n);
      PeriodStep(inc, k - 1, x, n);
    }
  }

  lemma PeriodStep(inc: nat, k: nat, x: int, n: nat)
    requires Stream(inc)
    requires Divides(Pow2(k), Orbit(inc, x, n) - x) <==> Divides(Pow2(k), n)
    ensures Divides(2 * Pow2(k), Orbit(inc, x, n) - x) <==> Divides(2 * Pow2(k), n)
  {
    hide Divides, Orbit;
    var p := Pow2(k);
    if !Divides(p, n) {
      HalfDivides(Orbit(inc, x, n) - x, p);
      HalfDivides(n, p);
    } else {
      var q := Quotient(n, p);
      MulNonNegative(q, p);
      var w := JumpMany(inc, k, q, x);
      SameMultiplicity(Orbit(inc, x, n) - x, n, p, w);
    }
  }

  lemma MulNonNegative(q: int, p: int)
    requires p > 0 && p * q >= 0
    ensures q >= 0 && q * p == p * q
  {
    if q < 0 { MulMonotone(q, -1, p); }
  }

  /** The period is exactly 2^64: a state comes back after n steps when, and only when, 2^64 divides n. */
  lemma FullPeriod(inc: nat, s: nat, n: nat)
    requires Stream(inc) && s < TWO64
    ensures Run(inc, s, n) == s <==> n % TWO64 == 0
  {
    hide Run, Orbit, Step, Pow2;
    RunIsOrbit(inc, s, n);
    Period(inc, Width(), s, n);
    SameResidue(Orbit(inc, s, n), s, TWO64);
    assert Divides(TWO64, n) <==> n % TWO64 == 0;
  }

  lemma SameResidue(a: int, b: int, m: nat)
    requires m > 0
    ensures Divides(m, a - b) <==> a % m == b % m
  {
    var qa, qb := a / m, b / m;
    assert a - b == m * (qa - qb) + (a % m - b % m);
    if a % m == b % m {
      MultipleOf(a - b, m, qa - qb);
    } else if Divides(m, a - b) {
      var w := Quotient(a - b, m);
      var e := w - (qa - qb);
      assert m * e == a % m - b % m;
      if e >= 1 { MulMonotone(1, e, m); } else if e <= -1 { MulMonotone(e, -1, m); }
    }
  }

  // ----- the number of steps from one state to another

  // the steps from x to a state that agrees with y in its low k bits, found one bit at a time
  ghost function Steps(inc: nat, k: nat, x: int, y: int): nat
    decreases k
  {
    if k == 0 then 0
    else
      var n := Steps(inc, k - 1, x, y);
      if Divides(Pow2(k), Orbit(inc, x, n) - y) then n else n + Pow2(k - 1)
  }

  lemma {:induction false} StepsReach(inc: nat, k: nat, x: int, y: int)
    requires Stream(inc)
    ensures Steps(inc, k, x, y) < Pow2(k)
    ensures Divides(Pow2(k), Orbit(inc, x, Steps(inc, k, x, y)) - y)
    decreases k
  {
    hide Divides, Orbit, Steps, Pow2;
    StepsUnfold(inc, k, x, y);
    if k == 0 {
    } else {
      var p, n := Pow2(k - 1), Steps(inc, k - 1, x, y);
      StepsReach(inc, k - 1, x, y);
      if !Divides(2 * p, Orbit(inc, x, n) - y) {
        OneMoreBit(inc, k - 1, x, y, n);
      }
    }
  }

  lemma StepsUnfold(inc: nat, k: nat, x: int, y: int)
    ensures k == 0 ==> Steps(inc, k, x, y) == 0 && Pow2(k) == 1 && Divides(Pow2(k), Orbit(inc, x, 0) - y)
    ensures k > 0 ==>
      var p, n := Pow2(k - 1), Steps(inc, k - 1, x, y);
      Pow2(k) == 2 * p && Steps(inc, k, x, y) == if Divides(2 * p, Orbit(inc, x, n) - y) then n else n + p
  {
    hide Orbit;
  }

  lemma OneMoreBit(inc: nat, k: nat, x: int, y: int, n: nat)
    requires Stream(inc)
    requires Divides(Pow2(k), Orbit(inc, x, n) - y)
    requires !Divides(2 * Pow2(k), Orbit(inc, x, n) - y)
    ensures Divides(2 * Pow2(k), Orbit(inc, x, n + Pow2(k)) - y)
  {
    hide Divides, Orbit;
    var w := JumpOnce(inc, k, Orbit(inc, x, n));
    OrbitAdd(inc, x, n, Pow2(k));
    var p := Pow2(k);
    var q := Quotient(Orbit(inc, x, n) - y, p);
    TwiceDivides(p, q);
    OddMultiplePlus(p, q, w);
  }

  // an odd multiple of p becomes a multiple of 2p when p is added, and any multiple of 2p
  lemma OddMultiplePlus(p: nat, q: int, w: int)
    requires p > 0 && q % 2 != 0
    ensures Divides(2 * p, p * q + p + 2 * (p * w))
  {
    hide Divides;
    TwiceDivides(p, q + 1 + 2 * w);
    CollectMultiples(p, q, w);
  }

  lemma CollectMultiples(p: int, q: int, w: int)
    ensures p * q + p + 2 * (p * w) == p * (q + 1 + 2 * w)
  {
  }

  // the width of a state, 64 bits, by the property the proofs use
  ghost function Width(): (k: nat)
    ensures Pow2(k) == TWO64
  {
    Pow2Values();
    var k: nat :| Pow2(k) == TWO64; k
  }

  ghost function Distance(inc: nat, s: nat, t: nat): nat {
    Steps(inc, Width(), s, t)
  }

  lemma DistanceReaches(inc: nat, s: nat, t: nat)
    requires Stream(inc) && s < TWO64 && t < TWO64
    ensures Distance(inc, s, t) < TWO64
    ensures Run(inc, s, Distance(inc, s, t)) == t
  {
    WidthReaches(inc, Width(), s, t);
  }

  lemma WidthReaches(inc: nat, k: nat, s: nat, t: nat)
    requires Stream(inc) && s < TWO64 && t < TWO64 && Pow2(k) == TWO64
    ensures Steps(inc, k, s, t) < TWO64
    ensures Run(inc, s, Steps(inc, k, s, t)) == t
  {
    StepsReach(inc, k, s, t);
    ReachedModulo(inc, s, t, Steps(inc, k, s, t));
  }

  lemma ReachedModulo(inc: nat, s: nat, t: nat, n: nat)
    requires s < TWO64 && t < TWO64
    requires Divides(TWO64, Orbit(inc, s, n) - t)
    ensures Run(inc, s, n) == t
  {
    RunIsOrbit(inc, s, n);
    SameResidue(Orbit(inc, s, n), t, TWO64);
  }

  lemma VisitsOnce(inc: nat, s: nat, m: nat, n: nat)
    requires Stream(inc) && s < TWO64 && m <= n < TWO64
    requires Run(inc, s, m) == Run(inc, s, n)
    ensures m == n
  {
    hide Run, Orbit, Step;
    RunIsOrbit(inc, s, m);
    RunAdd(inc, s, m, n - m);
    FullPeriod(inc, Run(inc, s, m), n - m);
  }

  /** Every state is reached from every state, at exactly one point of the period. */
  lemma EachStateOnce(inc: nat, s: nat, t: nat)
    requires Stream(inc) && s < TWO64 && t < TWO64
    ensures Distance(inc, s, t) < TWO64
    ensures forall n | 0 <= n < TWO64 :: Run(inc, s, n) == t <==> n == Distance(inc, s, t)
  {
    DistanceReaches(inc, s, t);
    var d := Distance(inc, s, t);
    forall n | 0 <= n < TWO64 && Run(inc, s, n) == t
      ensures n == d
    {
      if n <= d { VisitsOnce(inc, s, n, d); } else { VisitsOnce(inc, s, d, n); }
    }
  }

  /** One step permutes the 2^64 states. */
  lemma StepPermutes(inc: nat, t: nat) returns (s: nat)
    requires Stream(inc) && t < TWO64
    ensures s < TWO64 && Step(inc, s) == t
    ensures forall r | 0 <= r < TWO64 && Step(inc, r) == t :: r == s
  {
    s := Run(inc, t, TWO64 - 1);
    RunIsOrbit(inc, t, TWO64 - 1);
    FullPeriod(inc, t, TWO64);
    assert Step(inc, s) == Run(inc, t, TWO64);
    forall r | 0 <= r < TWO64 && Step(inc, r) == t
      ensures r == s
    {
      RunAdd(inc, r, 1, TWO64 - 1);
      assert Run(inc, r, 1) == Step(inc, Run(inc, r, 0));
      FullPeriod(inc, r, TWO64);
    }
  }

  // a step toward a state is one step less to go
  lemma StepNearer(inc: nat, s: nat, t: nat)
    requires Stream(inc) && s < TWO64 && t < TWO64 && s != t
    ensures Distance(inc, s, t) > 0
    ensures Distance(inc, Step(inc, s), t) == Distance(inc, s, t) - 1
  {
    EachStateOnce(inc, s, t);
    var d := Distance(inc, s, t);
    assert Run(inc, s, 0) == s;
    RunAdd(inc, s, 1, d - 1);
    assert Run(inc, s, 1) == Step(inc, Run(inc, s, 0));
    EachStateOnce(inc, Step(inc, s), t);
  }

  // the low bit of the state flips at every step
  lemma DistanceParity(inc: nat, s: nat, t: nat)
    requires Stream(inc) && s < TWO64 && t < TWO64 && s % 2 == t % 2
    ensures Distance(inc, s, t) % 2 == 0
  {
    DistanceReaches(inc, s, t);
    EvenRun(inc, s, t, Distance(inc, s, t));
  }

  lemma EvenRun(inc: nat, s: nat, t: nat, n: nat)
    requires Stream(inc) && s < TWO64 && s % 2 == t % 2
    requires Run(inc, s, n) == t
    ensures n % 2 == 0
  {
    RunParity(inc, s, n);
  }

  lemma {:induction false} RunParity(inc: nat, s: nat, n: nat)
    requires Stream(inc) && s < TWO64
    ensures Run(inc, s, n) % 2 == (s + n) % 2
  {
    hide Step;
    if n == 0 {
    } else {
      RunParity(inc, s, n - 1);
      StepParity(inc, Run(inc, s, n - 1));
    }
  }

  lemma StepParity(inc: nat, s: nat)
    requires Stream(inc)
    ensures Step(inc, s) % 2 == (s + 1) % 2
  {
    var h, g := MULTIPLIER / 2, inc / 2;
    OddTimes(s, h, g);
    ModEven(s * MULTIPLIER + inc, TWO64 / 2);
  }

  lemma OddTimes(s: nat, h: nat, g: nat)
    ensures (s * (2 * h + 1) + (2 * g + 1)) % 2 == (s + 1) % 2
  {
    EvenAndMore(s, h, g);
    AddMultiple(s + 1, s * h + g, 2);
  }

  lemma EvenAndMore(s: int, h: int, g: int)
    ensures s * (2 * h + 1) + (2 * g + 1) == s + 1 + (s * h + g) * 2
  {
  }
}

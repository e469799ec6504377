/** The generator object, its bounded draws by rejection, and how often each bounded value comes up. */
module PcgDraws {
  import opened Powers
  import opened Bitwise
  import opened PcgOrbit
  import opened PcgOutput

  class Pcg32 {
    var state: nat
    const inc: nat

    ghost predicate Valid()
      reads this
    {
      state < TWO64 && Stream(inc)
    }

    /** Seeds as the reference implementation: from state 0, a step, the seed added, and another step. */
    constructor (initstate: nat, initseq: nat)
      requires initstate < TWO64 && initseq < TWO64
      ensures Valid()
      ensures inc == (2 * initseq + 1) % TWO64
      ensures state == Step(inc, (Step(inc, 0) + initstate) % TWO64)
    {
      hide Step, Output;
      inc := (2 * initseq + 1) % TWO64;
      state := 0;
      new;
      var ignored := NextU32();
      state := (state + initstate) % TWO64;
      ignored := NextU32();
    }

    method NextU32() returns (draw: nat)
      requires Valid()
      modifies this`state
      ensures Valid()
      ensures draw == Output(old(state)) && state == Step(inc, old(state))
    {
      draw := Output(state);
      state := Step(inc, state);
    }

    method NextU64() returns (draw: nat)
      requires Valid()
      modifies this`state
      ensures Valid()
      ensures draw == Output64(inc, old(state)) && state == Run(inc, old(state), 2)
    {
      var high := NextU32();
      var low := NextU32();
      draw := high * TWO32 + low;
      RunTwo(inc, old(state));
    }
  }

  // two outputs as one u64, the first in the high half
  function Output64(inc: nat, s: nat): nat {
    Output(s) * TWO32 + Output(Step(inc, s))
  }

  lemma RunTwo(inc: nat, s: nat)
    ensures Run(inc, s, 1) == Step(inc, s) && Run(inc, s, 2) == Step(inc, Step(inc, s))
  {
    hide Step;
    assert Run(inc, s, 1) == Step(inc, Run(inc, s, 0));
    assert Run(inc, s, 2) == Step(inc, Run(inc, s, 1));
  }

  // ----- the rejection loops

  /** The first n draws are below the threshold, so the loop throws them away. */
  ghost predicate Rejected32(inc: nat, s: nat, n: nat, threshold: nat) {
    forall i: nat | i < n :: Output(Run(inc, s, i)) < threshold
  }

  ghost predicate Rejected64(inc: nat, s: nat, n: nat, threshold: nat) {
    forall i: nat | i < n :: Output64(inc, Run(inc, s, 2 * i)) < threshold
  }

  // a state whose output is the largest u32, so no threshold rejects it, of either parity
  lemma AcceptingState(parity: nat, largest: nat) returns (s: nat)
    requires parity < 2 && largest == TWO32 - 1
    ensures s < TWO64 && Output(s) == largest && s % 2 == parity
  {
    hide Output, StateWith, Rotation;
    Pow2Values();
    s := StateWith(0, largest, parity);
    StateWithSplits(0, largest, parity);
    assert Mask(s, 27) % 2 == s % 2;
  }

  /**
   * A bounded draw from state s: `rejected` draws below the threshold are thrown away, the next is at least the
   * threshold, and its remainder by the bound is the value; u32 draws for a bound up to 2^32, else u64 draws.
   */
  ghost predicate BoundedDraw(inc: nat, s: nat, bound: nat, rejected: nat, draw: nat, after: nat)
    requires bound > 0
  {
    if bound <= TWO32 then
      var at := Run(inc, s, rejected);
      && Rejected32(inc, s, rejected, TWO32 % bound)
      && Output(at) >= TWO32 % bound && draw == Output(at) % bound && after == Step(inc, at)
    else
      var at := Run(inc, s, 2 * rejected);
      && Rejected64(inc, s, rejected, TWO64 % bound)
      && Output64(inc, at) >= TWO64 % bound && draw == Output64(inc, at) % bound && after == Run(inc, at, 2)
  }

  /**
   * An unbiased draw below the bound. `rejected` counts the draws the loop threw away: fewer than 2^64 for every
   * seed, each below the threshold, and the next one is taken.
   */
  method Bounded(rng: Pcg32, bound: nat) returns (draw: nat, ghost rejected: nat)
    requires rng.Valid() && 0 < bound <= TWO64
    modifies rng`state
    ensures rng.Valid() && draw < bound && rejected < TWO64
    ensures BoundedDraw(rng.inc, old(rng.state), bound, rejected, draw, rng.state)
  {
    hide Output, Output64, Step, Run, Rejected32, Rejected64;
    if bound <= TWO32 {
      draw, rejected := BoundedU32(rng, bound);
    } else {
      draw, rejected := BoundedU64(rng, bound);
    }
  }

  method BoundedU32(rng: Pcg32, bound: nat) returns (draw: nat, ghost rejected: nat)
    requires rng.Valid() && 0 < bound <= TWO32
    modifies rng`state
    ensures rng.Valid() && draw < bound && rejected < TWO64
    ensures var at := Run(rng.inc, old(rng.state), rejected);
      && Rejected32(rng.inc, old(rng.state), rejected, TWO32 % bound)
      && Output(at) >= TWO32 % bound && draw == Output(at) % bound
      && rng.state == Step(rng.inc, at)
  {
    hide Output, Step, Distance;
    var threshold := TWO32 % bound;
    ghost var goal := AcceptingState(0, TWO32 - 1);
    ghost var start := rng.state;
    rejected := 0;
    DistanceReaches(rng.inc, start, goal);
    while true
      invariant rng.Valid()
      invariant rng.state == Run(rng.inc, start, rejected)
      invariant Rejected32(rng.inc, start, rejected, threshold)
      invariant Distance(rng.inc, rng.state, goal) + rejected == Distance(rng.inc, start, goal)
      decreases Distance(rng.inc, rng.state, goal)
    {
      ghost var before := rng.state;
      draw := rng.NextU32();
      if draw >= threshold {
        draw := draw % bound;
        return;
      }
      StepNearer(rng.inc, before, goal);
      rejected := rejected + 1;
    }
  }

  method BoundedU64(rng: Pcg32, bound: nat) returns (draw: nat, ghost rejected: nat)
    requires rng.Valid() && TWO32 < bound <= TWO64
    modifies rng`state
    ensures rng.Valid() && draw < bound && rejected < TWO64
    ensures var at := Run(rng.inc, old(rng.state), 2 * rejected);
      && Rejected64(rng.inc, old(rng.state), rejected, TWO64 % bound)
      && Output64(rng.inc, at) >= TWO64 % bound && draw == Output64(rng.inc, at) % bound
      && rng.state == Run(rng.inc, at, 2)
  {
    hide Output, Output64, Step, Distance, Run;
    var threshold := TWO64 % bound;
    ghost var start := rng.state;
    ghost var goal := AcceptingState(start % 2, TWO32 - 1);
    GoalAccepted(rng.inc, goal, bound);
    rejected := 0;
    DistanceReaches(rng.inc, start, goal);
    RunZero(rng.inc, start);
    while true
      invariant rng.Valid()
      invariant rng.state == Run(rng.inc, start, 2 * rejected)
      invariant Rejected64(rng.inc, start, rejected, threshold)
      invariant rng.state % 2 == goal % 2
      invariant Distance(rng.inc, rng.state, goal) + 2 * rejected == Distance(rng.inc, start, goal)
      decreases Distance(rng.inc, rng.state, goal)
    {
      ghost var before := rng.state;
      draw := rng.NextU64();
      RunAdd(rng.inc, start, 2 * rejected, 2);
      if draw >= threshold {
        draw := draw % bound;
        return;
      }
      TwoStepsNearer(rng.inc, before, goal);
      rejected := rejected + 1;
    }
  }

  lemma RunZero(inc: nat, s: nat)
    ensures Run(inc, s, 0) == s
  {
  }

  // a pair of draws whose high half is the largest u32 passes any u64 threshold
  lemma GoalAccepted(inc: nat, s: nat, bound: nat)
    requires 0 < bound <= TWO64 && Output(s) == TWO32 - 1
    ensures Output64(inc, s) >= TWO64 % bound
  {
    hide Output, Step;
    HalfThreshold(bound);
  }

  // the remainder of 2^64 by a bound it reaches is less than half of it
  lemma HalfThreshold(bound: nat)
    requires 0 < bound <= TWO64
    ensures TWO64 % bound < TWO64 / 2
  {
    var q := TWO64 / bound;
    assert q >= 1 by {
      if q < 1 { MulMonotone(q, 0, bound); }
    }
    MulMonotone(1, q, bound);
  }

  lemma TwoStepsNearer(inc: nat, s: nat, goal: nat)
    requires Stream(inc) && s < TWO64 && goal < TWO64 && s % 2 == goal % 2
    requires s != goal
    ensures Run(inc, s, 2) % 2 == goal % 2
    ensures Distance(inc, s, goal) >= 2
    ensures Distance(inc, Run(inc, s, 2), goal) == Distance(inc, s, goal) - 2
  {
    hide Step, Distance, Run;
    RunTwo(inc, s);
    StepNearer(inc, s, goal);
    DistanceParity(inc, s, goal);
    StepParity(inc, s);
    StepParity(inc, Step(inc, s));
    StepNearer(inc, Step(inc, s), goal);
  }

  // ----- how often each residue comes up

  /** A set indexed, one to one, by the numbers below n has n elements. */
  lemma {:induction false} CountIndexed<T(!new)>(s: set<T>, n: nat, element: nat -> T, index: T -> nat)
    requires forall i | 0 <= i < n :: element(i) in s && index(element(i)) == i
    requires forall x | x in s :: index(x) < n && element(index(x)) == x
    ensures |s| == n
    decreases n
  {
    if n == 0 {
      assert s == {};
    } else {
      var last := element(n - 1);
      var rest := s - {last};
      forall i | 0 <= i < n - 1
        ensures element(i) in rest
      {
        assert index(element(i)) == i && index(last) == n - 1;
      }
      CountIndexed(rest, n - 1, element, index);
      assert s == rest + {last};
    }
  }

  // the accepted draws with one residue, in order
  ghost function NthDraw(range: nat, bound: nat, residue: nat, j: nat): nat
    requires bound > 0
  {
    MulMonotone(0, j, bound);
    (if residue >= range % bound then residue else residue + bound) + j * bound
  }

  ghost function DrawIndex(range: nat, bound: nat, residue: nat, d: nat): nat
    requires bound > 0
  {
    if residue >= range % bound || d < bound then d / bound else d / bound - 1
  }

  lemma DrawOfIndex(range: nat, bound: nat, residue: nat, j: nat)
    requires 0 < bound <= range && residue < bound && j < range / bound
    ensures range % bound <= NthDraw(range, bound, residue, j) < range
    ensures NthDraw(range, bound, residue, j) % bound == residue
    ensures DrawIndex(range, bound, residue, NthDraw(range, bound, residue, j)) == j
  {
    MulMonotone(0, j, bound);
    if residue >= range % bound {
      DivModUnique(j, bound, residue);
      DrawBelow(range, bound, j, residue);
    } else {
      DivModUnique(j + 1, bound, residue);
      MulDistribute(j, 1, bound);
      DrawBelow(range, bound, j, residue + bound);
    }
  }

  lemma DrawBelow(range: nat, bound: nat, j: nat, first: nat)
    requires 0 < bound && j < range / bound && first < range % bound + bound
    ensures first + j * bound < range
  {
    MulMonotone(j + 1, range / bound, bound);
    MulDistribute(j, 1, bound);
  }

  lemma IndexOfDraw(range: nat, bound: nat, residue: nat, d: nat)
    requires 0 < bound <= range && residue < bound
    requires range % bound <= d < range && d % bound == residue
    ensures DrawIndex(range, bound, residue, d) < range / bound
    ensures NthDraw(range, bound, residue, DrawIndex(range, bound, residue, d)) == d
  {
    var q := d / bound;
    assert d == q * bound + residue;
    if residue >= range % bound {
      QuotientBelow(range, bound, q, residue);
    } else {
      MulDistribute(q - 1, 1, bound);
      QuotientBelow(range, bound, q - 1, residue + bound);
    }
  }

  lemma QuotientBelow(range: nat, bound: nat, q: int, first: nat)
    requires 0 < bound && range % bound <= first && q * bound + first < range
    ensures q < range / bound
  {
    if q >= range / bound {
      MulMonotone(range / bound, q, bound);
    }
  }

  // the draws below the range that are accepted with this residue
  ghost function DrawsOf(range: nat, bound: nat, residue: nat): set<nat>
    requires bound > 0
  {
    set d: nat | range % bound <= d < range && d % bound == residue
  }

  /** Among the draws of a range that a rejection loop accepts, every residue below the bound comes up equally often. */
  lemma ResiduesEqual(range: nat, bound: nat, residue: nat)
    requires 0 < bound <= range && residue < bound
    ensures |DrawsOf(range, bound, residue)| == range / bound
  {
    var draws := DrawsOf(range, bound, residue);
    var draw: nat -> nat := (j: nat) => NthDraw(range, bound, residue, j);
    var index: nat -> nat := (d: nat) => DrawIndex(range, bound, residue, d);
    forall j | 0 <= j < range / bound
      ensures draw(j) in draws && index(draw(j)) == j
    {
      DrawOfIndex(range, bound, residue, j);
    }
    forall d | d in draws
      ensures index(d) < range / bound && draw(index(d)) == d
    {
      IndexOfDraw(range, bound, residue, d);
    }
    CountIndexed(draws, range / bound, draw, index);
  }

  // ----- over a whole period

  // a state's bits that leave its output open, as one number below 2^32
  ghost function OtherBits(t: nat): nat {
    Rotation(t) * TWO27 + LowBits(t)
  }

  ghost function StateOf(others: nat, output: nat): nat
    requires others < TWO32
  {
    StateWith(others / TWO27, output, others % TWO27)
  }

  lemma StateOfSplits(others: nat, output: nat)
    requires others < TWO32 && output < TWO32
    ensures StateOf(others, output) < TWO64
    ensures OtherBits(StateOf(others, output)) == others && Output(StateOf(others, output)) == output
  {
    hide Output, StateWith, Rotation, LowBits;
    Pow2Values();
    StateWithSplits(others / TWO27, output, others % TWO27);
  }

  lemma StateOfJoins(t: nat)
    requires t < TWO64
    ensures OtherBits(t) < TWO32 && Output(t) < TWO32 && StateOf(OtherBits(t), Output(t)) == t
  {
    hide Output, StateWith, Rotation, LowBits;
    Pow2Values();
    StateFromSplit(t);
  }

  // a pair of numbers, the second below n, as one
  ghost function Paired(high: nat, n: nat, low: nat): nat {
    MulMonotone(0, high, n);
    high * n + low
  }

  lemma PairBounds(i: nat, m: nat, n: nat)
    requires n > 0 && i < m * n
    ensures i / n < m && Paired(i / n, n, i % n) == i
  {
    if i / n >= m {
      MulMonotone(m, i / n, n);
    }
  }

  lemma PairSplits(high: nat, m: nat, n: nat, low: nat)
    requires high < m && low < n
    ensures Paired(high, n, low) < m * n
    ensures Paired(high, n, low) / n == high && Paired(high, n, low) % n == low
  {
    DivModUnique(high, n, low);
    MulMonotone(high + 1, m, n);
    MulDistribute(high, 1, n);
  }

  lemma QuotientPositive(n: nat, d: nat)
    requires 0 < d <= n
    ensures n / d >= 1
  {
    if n / d < 1 {
      MulMonotone(n / d, 0, d);
    }
  }

  /**
   * The u32 draws a condition holds of, as an enumeration by `nth` with its inverse `place`: `n` of them.
   */
  ghost predicate Enumerates(accepts: nat -> bool, n: nat, nth: nat -> nat, place: nat -> nat) {
    && n > 0
    && (forall j: nat | j < n :: nth(j) < TWO32 && accepts(nth(j)) && place(nth(j)) == j)
    && (forall d: nat | d < TWO32 && accepts(d) :: place(d) < n && nth(place(d)) == d)
  }

  // the i-th state, in some order, whose output meets the condition
  ghost function StateOfIndex(n: nat, nth: nat -> nat, i: nat): nat
    requires n > 0 && i / n < TWO32
  {
    StateOf(i / n, nth(i % n))
  }

  ghost function IndexOfState(n: nat, place: nat -> nat, t: nat): nat {
    Paired(OtherBits(t), n, place(Output(t)))
  }

  lemma StateOfIndexSound(accepts: nat -> bool, n: nat, nth: nat -> nat, place: nat -> nat, i: nat)
    requires Enumerates(accepts, n, nth, place) && i < TWO32 * n
    ensures i / n < TWO32
    ensures var t := StateOfIndex(n, nth, i);
      t < TWO64 && accepts(Output(t)) && IndexOfState(n, place, t) == i
  {
    hide Output, OtherBits, StateOf, Paired;
    PairBounds(i, TWO32, n);
    StateOfSplits(i / n, nth(i % n));
  }

  lemma IndexOfStateSound(accepts: nat -> bool, n: nat, nth: nat -> nat, place: nat -> nat, t: nat)
    requires Enumerates(accepts, n, nth, place) && t < TWO64 && accepts(Output(t))
    ensures IndexOfState(n, place, t) < TWO32 * n && IndexOfState(n, place, t) / n < TWO32
    ensures StateOfIndex(n, nth, IndexOfState(n, place, t)) == t
  {
    hide Output, OtherBits, StateOf, Paired;
    StateOfJoins(t);
    PairSplits(OtherBits(t), TWO32, n, place(Output(t)));
  }

  // the steps of a period from s whose draw meets the condition
  ghost function StepsWith(inc: nat, s: nat, accepts: nat -> bool): set<nat> {
    set n: nat | n < TWO64 && accepts(Output(Run(inc, s, n)))
  }

  /** Over a whole period, from any seed, each of the u32 draws comes up equally often: n draws, n * 2^32 times. */
  lemma PeriodCounts(inc: nat, s: nat, accepts: nat -> bool, n: nat, nth: nat -> nat, place: nat -> nat)
    requires Stream(inc) && s < TWO64 && Enumerates(accepts, n, nth, place)
    ensures |StepsWith(inc, s, accepts)| == TWO32 * n
  {
    hide StateOfIndex, IndexOfState, Output, Run, Distance, Orbit, Enumerates;
    var steps, total := StepsWith(inc, s, accepts), TWO32 * n;
    assert n > 0 by { SomeDraws(accepts, n, nth, place); }
    var step: nat -> nat := (i: nat) =>
      if n > 0 && i / n < TWO32 then Distance(inc, s, StateOfIndex(n, nth, i)) else 0;
    var index: nat -> nat := (m: nat) => IndexOfState(n, place, Run(inc, s, m));
    forall i | 0 <= i < total
      ensures step(i) in steps && index(step(i)) == i
    {
      StateOfIndexSound(accepts, n, nth, place, i);
      DistanceReaches(inc, s, StateOfIndex(n, nth, i));
    }
    forall m | m in steps
      ensures index(m) < total && step(index(m)) == m
    {
      RunIsOrbit(inc, s, m);
      IndexOfStateSound(accepts, n, nth, place, Run(inc, s, m));
      EachStateOnce(inc, s, Run(inc, s, m));
    }
    CountIndexed(steps, total, step, index);
  }

  lemma SomeDraws(accepts: nat -> bool, n: nat, nth: nat -> nat, place: nat -> nat)
    requires Enumerates(accepts, n, nth, place)
    ensures n > 0
  {
  }

  ghost predicate AcceptedAs(bound: nat, residue: nat, draw: nat)
    requires bound > 0
  {
    TWO32 % bound <= draw && draw % bound == residue
  }

  // the steps of a period from s whose draw is accepted with this residue
  ghost function StepsDrawing(inc: nat, s: nat, bound: nat, residue: nat): set<nat>
    requires bound > 0
  {
    set n: nat | n < TWO64 && AcceptedAs(bound, residue, Output(Run(inc, s, n)))
  }

  /** Over a whole period, from any seed, the accepted u32 draws have each residue below the bound equally often. */
  lemma PeriodResiduesEqual(inc: nat, s: nat, bound: nat, residue: nat)
    requires Stream(inc) && s < TWO64 && 0 < bound <= TWO32 && residue < bound
    ensures |StepsDrawing(inc, s, bound, residue)| == TWO32 * (TWO32 / bound)
  {
    hide AcceptedAs, Output, Run, NthDraw, DrawIndex;
    var accepts: nat -> bool := (d: nat) => AcceptedAs(bound, residue, d);
    var nth: nat -> nat := (j: nat) => NthDraw(TWO32, bound, residue, j);
    var place: nat -> nat := (d: nat) => DrawIndex(TWO32, bound, residue, d);
    var n := TWO32 / bound;
    QuotientPositive(TWO32, bound);
    forall j: nat | j < n
      ensures nth(j) < TWO32 && accepts(nth(j)) && place(nth(j)) == j
    {
      DrawAt(bound, residue, j);
    }
    forall d: nat | d < TWO32 && accepts(d)
      ensures place(d) < n && nth(place(d)) == d
    {
      DrawBack(bound, residue, d);
    }
    PeriodCounts(inc, s, accepts, n, nth, place);
    assert StepsDrawing(inc, s, bound, residue) == StepsWith(inc, s, accepts);
  }

  lemma DrawAt(bound: nat, residue: nat, j: nat)
    requires 0 < bound <= TWO32 && residue < bound && j < TWO32 / bound
    ensures var draw := NthDraw(TWO32, bound, residue, j);
      draw < TWO32 && AcceptedAs(bound, residue, draw) && DrawIndex(TWO32, bound, residue, draw) == j
  {
    hide NthDraw, DrawIndex;
    DrawOfIndex(TWO32, bound, residue, j);
  }

  lemma DrawBack(bound: nat, residue: nat, draw: nat)
    requires 0 < bound <= TWO32 && residue < bound && draw < TWO32 && AcceptedAs(bound, residue, draw)
    ensures var j := DrawIndex(TWO32, bound, residue, draw);
      j < TWO32 / bound && NthDraw(TWO32, bound, residue, j) == draw
  {
    hide NthDraw, DrawIndex;
    IndexOfDraw(TWO32, bound, residue, draw);
  }
}

/** Held-out inputs: the plan of a uniform entry, and the elements of uniform and integers entries. */
module UniformInputs {
  import opened Outcomes
  import opened Powers
  import opened Floats
  import opened PcgOrbit
  import opened PcgOutput
  import opened PcgDraws
  import LassiFile

  datatype PlanError = BoundsNotIncreasing | PastFiniteRange | PastTypeRange | WidthOverflows | NoValueInside

  datatype Plan = Plan(fmt: Format, lo: Double, hi: Double, loKey: int, hiKey: int)

  // ----- the plan

  // the lowest key whose value is at least the double, and the highest whose value is below it
  function KeyAtLeast(v: Double, fmt: Format): int
    requires Sound(fmt) && IsDouble(v) && InRange(v, fmt)
  {
    RoundedKey(v, fmt);
    var bits := RoundBits(v, fmt).value;
    BitsValueExact(bits, fmt);
    Key(bits, fmt) + if Value(BitsValue(bits, fmt)) < Value(v) then 1 else 0
  }

  function KeyBelow(v: Double, fmt: Format): int
    requires Sound(fmt) && IsDouble(v) && InRange(v, fmt)
  {
    RoundedKey(v, fmt);
    var bits := RoundBits(v, fmt).value;
    BitsValueExact(bits, fmt);
    Key(bits, fmt) - if Value(BitsValue(bits, fmt)) >= Value(v) then 1 else 0
  }

  /**
   * Checks a uniform entry's bounds and gives the keys of the values it may take. Whether hi - lo is a finite double
   * is double arithmetic, so it is a parameter.
   */
  function FloatPlan(fmt: Format, lo: Double, hi: Double, widthIsFinite: bool): Result<Plan, PlanError>
    requires Sound(fmt) && IsDouble(lo) && IsDouble(hi)
  {
    LargestValue(fmt);
    var largest := Units(BitsValue(MaxFinite(fmt), fmt));
    if Value(lo) >= Value(hi) then Err(BoundsNotIncreasing)
    else if Units(lo) > largest || Units(hi) > largest then Err(PastFiniteRange)
    else if !widthIsFinite then Err(WidthOverflows)
    else
      var loKey, hiKey := KeyAtLeast(lo, fmt), KeyBelow(hi, fmt);
      if loKey > hiKey then Err(NoValueInside) else Ok(Plan(fmt, lo, hi, loKey, hiKey))
  }

  lemma KeyAtLeastSound(v: Double, fmt: Format, key: int)
    requires Sound(fmt) && IsDouble(v) && InRange(v, fmt)
    ensures key >= KeyAtLeast(v, fmt) <==> KeyValue(key, fmt) >= Value(v)
    ensures KeyAtLeast(v, fmt) >= -(MaxFinite(fmt) as int)
  {
    hide RoundBits, Key, KeyValue, BitsValue, MaxFinite, InRange, Finite, Value, PatternValue;
    RoundedKey(v, fmt);
    var bits := RoundBits(v, fmt).value;
    BitsValueExact(bits, fmt);
    KeyBounds(bits, fmt);
    var k := Key(bits, fmt);
    CompareKeys(key, k - 1, fmt);
    CompareKeys(key, k, fmt);
    CompareKeys(key, k + 1, fmt);
  }

  lemma KeyBelowSound(v: Double, fmt: Format, key: int)
    requires Sound(fmt) && IsDouble(v) && InRange(v, fmt)
    ensures key <= KeyBelow(v, fmt) <==> KeyValue(key, fmt) < Value(v)
    ensures KeyBelow(v, fmt) <= MaxFinite(fmt)
  {
    hide RoundBits, Key, KeyValue, BitsValue, MaxFinite, InRange, Finite, Value, PatternValue;
    RoundedKey(v, fmt);
    var bits := RoundBits(v, fmt).value;
    BitsValueExact(bits, fmt);
    KeyBounds(bits, fmt);
    var k := Key(bits, fmt);
    CompareKeys(key, k - 1, fmt);
    CompareKeys(key, k, fmt);
    CompareKeys(key, k + 1, fmt);
  }

  lemma CompareKeys(a: int, b: int, fmt: Format)
    requires Sound(fmt)
    ensures a < b ==> KeyValue(a, fmt) < KeyValue(b, fmt)
    ensures a > b ==> KeyValue(a, fmt) > KeyValue(b, fmt)
  {
    if a < b { KeyOrder(a, b, fmt); }
    if a > b { KeyOrder(b, a, fmt); }
  }

  ghost predicate Between(lo: Double, value: int, hi: Double)
    requires IsDouble(lo) && IsDouble(hi)
  {
    Value(lo) <= value < Value(hi)
  }

  /** The plan's key range holds exactly the keys of the format's values in [lo, hi). */
  lemma PlanHoldsExactly(fmt: Format, lo: Double, hi: Double, bits: nat)
    requires Sound(fmt) && IsDouble(lo) && IsDouble(hi) && Finite(bits, fmt)
    requires FloatPlan(fmt, lo, hi, true).Ok?
    ensures var plan := FloatPlan(fmt, lo, hi, true).value;
            plan.loKey <= Key(bits, fmt) <= plan.hiKey <==> Between(lo, PatternValue(bits, fmt), hi)
  {
    hide Key, KeyValue, Value, PatternValue, KeyAtLeast, KeyBelow, MaxFinite, Units, Grid, BitsValue;
    LargestValue(fmt);
    KeyValueIsPatternValue(bits, fmt);
    KeyAtLeastSound(lo, fmt, Key(bits, fmt));
    KeyBelowSound(hi, fmt, Key(bits, fmt));
  }

  /** Bounds in range are refused as holding no value exactly when no finite pattern's value lies in [lo, hi). */
  lemma PlanRefusesExactly(fmt: Format, lo: Double, hi: Double)
    requires Sound(fmt) && IsDouble(lo) && IsDouble(hi)
    requires Value(lo) < Value(hi) && InRange(lo, fmt) && InRange(hi, fmt)
    ensures FloatPlan(fmt, lo, hi, true).Ok?
       <==> exists bits: nat :: Finite(bits, fmt) && Between(lo, PatternValue(bits, fmt), hi)
    ensures FloatPlan(fmt, lo, hi, true).Err? ==> FloatPlan(fmt, lo, hi, true).error == NoValueInside
  {
    hide Key, KeyValue, Value, PatternValue, KeyAtLeast, KeyBelow, MaxFinite, Units, Grid, BitsValue, Finite, FromKey;
    LargestValue(fmt);
    var loKey, hiKey := KeyAtLeast(lo, fmt), KeyBelow(hi, fmt);
    if loKey <= hiKey {
      KeyAtLeastSound(lo, fmt, loKey);
      KeyBelowSound(hi, fmt, loKey);
      FromKeySound(loKey, fmt);
      KeyValueIsPatternValue(FromKey(loKey, fmt), fmt);
      assert Between(lo, PatternValue(FromKey(loKey, fmt), fmt), hi);
    } else {
      forall bits: nat | Finite(bits, fmt) && Between(lo, PatternValue(bits, fmt), hi)
        ensures false
      {
        KeyValueIsPatternValue(bits, fmt);
        KeyAtLeastSound(lo, fmt, Key(bits, fmt));
        KeyBelowSound(hi, fmt, Key(bits, fmt));
      }
    }
  }

  /** Which error an entry's bounds give: not increasing first, then out of range, then a width that is not finite. */
  lemma PlanErrors(fmt: Format, lo: Double, hi: Double, widthIsFinite: bool)
    requires Sound(fmt) && IsDouble(lo) && IsDouble(hi)
    ensures var plan := FloatPlan(fmt, lo, hi, widthIsFinite);
      var inRange := InRange(lo, fmt) && InRange(hi, fmt);
      && (plan == Err(BoundsNotIncreasing) <==> Value(hi) <= Value(lo))
      && (plan == Err(PastFiniteRange) <==> Value(lo) < Value(hi) && !inRange)
      && (plan == Err(WidthOverflows) <==> Value(lo) < Value(hi) && inRange && !widthIsFinite)
  {
    hide KeyAtLeast, KeyBelow, MaxFinite, Units, Grid, BitsValue, Value;
    LargestValue(fmt);
  }

  // ----- uniform elements

  /** An element: the draw rounded to the format, or when that falls outside [lo, hi) the nearest value inside. */
  function Element(plan: Plan, draw: Double): nat
    requires Sound(plan.fmt) && IsDouble(draw) && InRange(draw, plan.fmt)
  {
    RoundedKey(draw, plan.fmt);
    var key := RoundedKeyOf(draw, plan.fmt);
    if key < plan.loKey || key > plan.hiKey then
      FromKey(Min(Max(key, plan.loKey), plan.hiKey), plan.fmt)
    else RoundBits(draw, plan.fmt).value
  }

  function RoundedKeyOf(draw: Double, fmt: Format): int
    requires Sound(fmt) && IsDouble(draw) && InRange(draw, fmt)
  {
    RoundedKey(draw, fmt);
    Key(RoundBits(draw, fmt).value, fmt)
  }

  ghost predicate Checked(plan: Plan) {
    && Sound(plan.fmt) && IsDouble(plan.lo) && IsDouble(plan.hi)
    && FloatPlan(plan.fmt, plan.lo, plan.hi, true) == Ok(plan)
  }

  lemma PlanKeys(plan: Plan)
    requires Checked(plan)
    ensures -(MaxFinite(plan.fmt) as int) <= plan.loKey <= plan.hiKey <= MaxFinite(plan.fmt)
  {
    hide KeyAtLeast, KeyBelow, MaxFinite, Units, Grid, BitsValue, KeyValue, Value;
    LargestValue(plan.fmt);
    KeyAtLeastSound(plan.lo, plan.fmt, 0);
    KeyBelowSound(plan.hi, plan.fmt, 0);
  }

  lemma ElementKey(plan: Plan, draw: Double)
    requires Checked(plan) && IsDouble(draw) && InRange(draw, plan.fmt)
    ensures Finite(Element(plan, draw), plan.fmt)
    ensures Key(Element(plan, draw), plan.fmt) == Min(Max(RoundedKeyOf(draw, plan.fmt), plan.loKey), plan.hiKey)
    ensures plan.loKey <= RoundedKeyOf(draw, plan.fmt) <= plan.hiKey ==>
      Some(Element(plan, draw)) == RoundBits(draw, plan.fmt)
  {
    hide Key, FromKey, MaxFinite, RoundBits, Finite, FloatPlan, KeyValue, Value, PatternValue;
    PlanKeys(plan);
    RoundedKey(draw, plan.fmt);
    FromKeySound(Min(Max(RoundedKeyOf(draw, plan.fmt), plan.loKey), plan.hiKey), plan.fmt);
  }

  /** Whatever the draw, the element's value lies in [lo, hi). */
  lemma ElementInside(plan: Plan, draw: Double)
    requires Checked(plan) && IsDouble(draw) && InRange(draw, plan.fmt)
    ensures Finite(Element(plan, draw), plan.fmt)
    ensures Between(plan.lo, PatternValue(Element(plan, draw), plan.fmt), plan.hi)
  {
    hide Key, Element, Finite, FloatPlan, PatternValue, MaxFinite, InRange;
    PlanKeys(plan);
    ElementKey(plan, draw);
    PlanHoldsExactly(plan.fmt, plan.lo, plan.hi, Element(plan, draw));
  }

  /** No value of the format in [lo, hi) is nearer to the draw than the element is. */
  lemma ElementNearest(plan: Plan, draw: Double, other: nat)
    requires Checked(plan) && IsDouble(draw) && InRange(draw, plan.fmt)
    requires Finite(other, plan.fmt) && Between(plan.lo, PatternValue(other, plan.fmt), plan.hi)
    ensures Gap(PatternValue(Element(plan, draw), plan.fmt), Value(draw))
         <= Gap(PatternValue(other, plan.fmt), Value(draw))
  {
    hide Key, Element, Finite, FloatPlan, PatternValue, MaxFinite, InRange, KeyValue, Value, RoundBits, Between;
    var fmt := plan.fmt;
    var element := Element(plan, draw);
    PlanHoldsExactly(fmt, plan.lo, plan.hi, other);
    ElementKey(plan, draw);
    RoundedKey(draw, fmt);
    RoundsToNearestEven(draw, fmt, other);
    KeyValueIsPatternValue(element, fmt);
    KeyValueIsPatternValue(other, fmt);
    var k, e, o := RoundedKeyOf(draw, fmt), Key(element, fmt), Key(other, fmt);
    CompareKeys(k - 1, e, fmt);
    CompareKeys(k + 1, e, fmt);
    CompareKeys(e, o, fmt);
  }

  // the integer a uniform element draws: 24 bits of one u32, or 53 of two
  function DrawnInteger(fmt: Format, inc: nat, s: nat): nat {
    if fmt.draws == 1 then Output(s) / 0x100 else Output64(inc, s) / 0x800
  }

  function DrawnRange(fmt: Format): nat {
    if fmt.draws == 1 then 0x100_0000 else 0x20_0000_0000_0000
  }

  lemma DrawnBelow(fmt: Format, inc: nat, s: nat)
    requires s < TWO64
    ensures DrawnInteger(fmt, inc, s) < DrawnRange(fmt)
  {
    hide Output, StateWith, Rotation, LowBits, Step;
    Pow2Values();
    StateFromSplit(s);
    StateFromSplit(Step(inc, s));
  }

  /** The integer drawn is the top 24 bits of one word, or the top 53 of two: the word's fraction, cut off. */
  lemma DrawnIsTop(fmt: Format, inc: nat, s: nat, r: nat)
    ensures fmt.draws == 1 ==> (r == DrawnInteger(fmt, inc, s) <==> r * 0x100 <= Output(s) < (r + 1) * 0x100)
    ensures fmt.draws != 1 ==> (r == DrawnInteger(fmt, inc, s) <==> r * 0x800 <= Output64(inc, s) < (r + 1) * 0x800)
    ensures if fmt.draws == 1 then DrawnRange(fmt) * 0x100 == TWO32 else DrawnRange(fmt) * 0x800 == TWO64
  {
    hide Output, Step;
  }

  // the steps of a period from s at which this integer is drawn
  ghost function StepsDrawingInteger(fmt: Format, inc: nat, s: nat, r: nat): set<nat> {
    set n: nat | n < TWO64 && DrawnInteger(fmt, inc, Run(inc, s, n)) == r
  }

  /** Over a whole period, from any seed, each integer below 2^24 is drawn by exactly 2^40 steps. */
  lemma PeriodDrawsEqual(fmt: Format, inc: nat, s: nat, r: nat)
    requires Stream(inc) && s < TWO64 && fmt.draws == 1 && r < DrawnRange(fmt)
    ensures |StepsDrawingInteger(fmt, inc, s, r)| == 0x100_0000_0000
  {
    hide Output, Run;
    var accepts: nat -> bool := (d: nat) => d / 0x100 == r;
    var nth: nat -> nat := (j: nat) => r * 0x100 + j;
    var place: nat -> nat := (d: nat) => if d >= r * 0x100 then d - r * 0x100 else 0;
    PeriodCounts(inc, s, accepts, 0x100, nth, place);
    assert StepsDrawingInteger(fmt, inc, s, r) == StepsWith(inc, s, accepts);
  }

  ghost predicate SamplesInRange(fmt: Format, sample: nat -> Double)
    requires Sound(fmt)
  {
    forall r: nat | r < DrawnRange(fmt) :: IsDouble(sample(r)) && InRange(sample(r), fmt)
  }

  // element i comes from the integer drawn at the generator's state i elements after the start
  ghost predicate ElementOf(plan: Plan, sample: nat -> Double, inc: nat, s: nat, bits: nat)
    requires Checked(plan) && SamplesInRange(plan.fmt, sample)
  {
    var r := DrawnInteger(plan.fmt, inc, s);
    r < DrawnRange(plan.fmt) && bits == Element(plan, sample(r))
  }

  // the generator's state after this many elements
  ghost function AfterElements(fmt: Format, inc: nat, s: nat, count: nat): nat {
    MulMonotone(0, count, fmt.draws);
    Run(inc, s, count * fmt.draws)
  }

  lemma AfterOneMore(fmt: Format, inc: nat, s: nat, i: nat)
    ensures AfterElements(fmt, inc, s, 0) == s
    ensures AfterElements(fmt, inc, s, i + 1) == Run(inc, AfterElements(fmt, inc, s, i), fmt.draws)
  {
    hide Step;
    RunZero(inc, s);
    MulMonotone(0, i, fmt.draws);
    MulDistribute(i, 1, fmt.draws);
    RunAdd(inc, s, i * fmt.draws, fmt.draws);
  }

  ghost predicate Inside(plan: Plan, bits: nat)
    requires Checked(plan)
  {
    Finite(bits, plan.fmt) && Between(plan.lo, PatternValue(bits, plan.fmt), plan.hi)
  }

  /**
   * Draws the elements of a uniform entry, in order. `sample` stands for lo + (hi - lo) * u in double arithmetic, u
   * being the fraction an integer draw gives; all that is asked of it is a value in the format's range.
   */
  method UniformData(plan: Plan, count: nat, rng: Pcg32, sample: nat -> Double) returns (out: seq<nat>)
    requires Checked(plan) && plan.fmt.draws in {1, 2} && rng.Valid()
    requires SamplesInRange(plan.fmt, sample)
    modifies rng`state
    ensures rng.Valid() && |out| == count
    ensures rng.state == AfterElements(plan.fmt, rng.inc, old(rng.state), count)
    ensures forall i | 0 <= i < count ::
      ElementOf(plan, sample, rng.inc, AfterElements(plan.fmt, rng.inc, old(rng.state), i), out[i])
    ensures forall i | 0 <= i < count :: Inside(plan, out[i])
  {
    hide Run, AfterElements, Element, Finite, Between, FloatPlan, InRange, PatternValue, DrawnInteger, DrawnRange,
      Units, Stream;
    out := [];
    ghost var start := rng.state;
    AfterOneMore(plan.fmt, rng.inc, start, 0);
    for i := 0 to count
      invariant rng.Valid() && |out| == i
      invariant rng.state == AfterElements(plan.fmt, rng.inc, start, i)
      invariant forall k | 0 <= k < i ::
        ElementOf(plan, sample, rng.inc, AfterElements(plan.fmt, rng.inc, start, k), out[k])
      invariant forall k | 0 <= k < i :: Inside(plan, out[k])
    {
      var r := DrawInteger(plan.fmt, rng);
      AfterOneMore(plan.fmt, rng.inc, start, i);
      var draw := sample(r);
      ElementInside(plan, draw);
      out := out + [Element(plan, draw)];
    }
  }

  method DrawInteger(fmt: Format, rng: Pcg32) returns (r: nat)
    requires rng.Valid() && fmt.draws in {1, 2}
    modifies rng`state
    ensures rng.Valid() && rng.state == Run(rng.inc, old(rng.state), fmt.draws)
    ensures r == DrawnInteger(fmt, rng.inc, old(rng.state)) < DrawnRange(fmt)
  {
    hide Output, Step, Run;
    RunTwo(rng.inc, rng.state);
    DrawnBelow(fmt, rng.inc, rng.state);
    if fmt.draws == 1 {
      var word := rng.NextU32();
      r := word / 0x100;
    } else {
      var word := rng.NextU64();
      r := word / 0x800;
    }
  }

  // ----- the plan of an integers entry

  datatype IntType = IntType(bits: nat, signed: bool)

  const I8 := IntType(8, true)
  const U8 := IntType(8, false)
  const I32 := IntType(32, true)
  const U32 := IntType(32, false)
  const I64 := IntType(64, true)

  function Smallest(kind: IntType): int
    requires kind.bits > 0
  {
    if kind.signed then -(Pow2(kind.bits - 1) as int) else 0
  }

  function Largest(kind: IntType): int
    requires kind.bits > 0
  {
    (if kind.signed then Pow2(kind.bits - 1) else Pow2(kind.bits)) - 1
  }

  predicate Holds(kind: IntType, v: int)
    requires kind.bits > 0
  {
    Smallest(kind) <= v <= Largest(kind)
  }

  function IntPlan(kind: IntType, lo: int, hi: int): Result<(), PlanError>
    requires kind.bits > 0
  {
    if lo >= hi then Err(BoundsNotIncreasing)
    else if lo < Smallest(kind) || hi - 1 > Largest(kind) then Err(PastTypeRange)
    else Ok(())
  }

  /** An entry is accepted exactly when it has values and its type holds all; then one u64 draw spans them. */
  lemma IntPlanExactly(kind: IntType, lo: int, hi: int)
    requires 0 < kind.bits <= 64
    ensures IntPlan(kind, lo, hi).Ok? <==> lo < hi && forall v | lo <= v < hi :: Holds(kind, v)
    ensures IntPlan(kind, lo, hi).Ok? ==> lo < hi <= lo + TWO64
  {
    Pow2Monotone(kind.bits - 1, 63);
    Pow2Monotone(kind.bits, 64);
    Pow2Values();
    assert Pow2(64) == 2 * Pow2(63);
    hide Pow2;
    if lo < hi && forall v | lo <= v < hi :: Holds(kind, v) {
      assert Holds(kind, lo) && Holds(kind, hi - 1);
    }
  }

  /** What the integer types hold; each is one that `IntPlanExactly` is about. */
  lemma IntTypesHold(v: int)
    ensures forall kind | kind in {I8, U8, I32, U32, I64} :: 0 < kind.bits <= 64
    ensures Holds(I8, v) <==> -128 <= v <= 127
    ensures Holds(U8, v) <==> 0 <= v <= 255
    ensures Holds(I32, v) <==> -2_147_483_648 <= v <= 2_147_483_647
    ensures Holds(U32, v) <==> 0 <= v <= 4_294_967_295
    ensures Holds(I64, v) <==> -9_223_372_036_854_775_808 <= v <= 9_223_372_036_854_775_807
  {
    hide Pow2;
    TypeBounds();
  }

  /** A dtype's items have the bytes of its format's or its integer type's width. */
  lemma ItemSizesAre()
    ensures 8 * LassiFile.DType.F16.ItemSize() == F16.Width() && 8 * LassiFile.DType.BF16.ItemSize() == BF16.Width()
    ensures 8 * LassiFile.DType.F32.ItemSize() == F32.Width() && 8 * LassiFile.DType.F64.ItemSize() == F64.Width()
    ensures 8 * LassiFile.DType.I8.ItemSize() == I8.bits && 8 * LassiFile.DType.U8.ItemSize() == U8.bits
    ensures 8 * LassiFile.DType.I32.ItemSize() == I32.bits && 8 * LassiFile.DType.U32.ItemSize() == U32.bits
    ensures 8 * LassiFile.DType.I64.ItemSize() == I64.bits
  {
  }

  lemma TypeBounds()
    ensures Pow2(7) == 128 && Pow2(8) == 256
    ensures Pow2(31) == TWO32 / 2 && Pow2(32) == TWO32
    ensures Pow2(63) == TWO64 / 2 && Pow2(64) == TWO64
  {
    Pow2Values();
  }

  // ----- integer elements

  // each element is a bounded draw from the state the one before it left
  ghost predicate DrawnInOrder(inc: nat, lo: int, hi: int, values: seq<int>, states: seq<nat>, rejected: seq<nat>) {
    && |states| == |values| + 1 && |rejected| == |values|
    && forall i | 0 <= i < |values| ::
      && lo <= values[i] < hi
      && BoundedDraw(inc, states[i], hi - lo, rejected[i], values[i] - lo, states[i + 1])
  }

  lemma OneMoreDrawn(inc: nat, lo: int, hi: int, values: seq<int>, states: seq<nat>, rejected: seq<nat>,
                     value: int, count: nat, after: nat)
    requires DrawnInOrder(inc, lo, hi, values, states, rejected) && lo <= value < hi
    requires BoundedDraw(inc, states[|values|], hi - lo, count, value - lo, after)
    ensures DrawnInOrder(inc, lo, hi, values + [value], states + [after], rejected + [count])
  {
    hide BoundedDraw;
  }

  /** Draws the elements of an integers entry, each lo plus an unbiased draw below hi - lo. */
  method IntegerData(lo: int, hi: int, count: nat, rng: Pcg32)
    returns (values: seq<int>, ghost states: seq<nat>, ghost rejected: seq<nat>)
    requires lo < hi <= lo + TWO64 && rng.Valid()
    modifies rng`state
    ensures rng.Valid() && |values| == count && DrawnInOrder(rng.inc, lo, hi, values, states, rejected)
    ensures states[0] == old(rng.state) && states[count] == rng.state
  {
    hide BoundedDraw, Stream;
    values, states, rejected := [], [rng.state], [];
    for i := 0 to count
      invariant rng.Valid() && |values| == i && DrawnInOrder(rng.inc, lo, hi, values, states, rejected)
      invariant states[0] == old(rng.state) && states[i] == rng.state
    {
      var draw, thrown := Bounded(rng, hi - lo);
      OneMoreDrawn(rng.inc, lo, hi, values, states, rejected, lo + draw, thrown, rng.state);
      values, states, rejected := values + [lo + draw], states + [rng.state], rejected + [thrown];
    }
  }
}

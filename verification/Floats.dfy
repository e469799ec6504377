/**
 * The binary floating-point formats of lassi_io, the integer-only rounding of a double to one of them, and the order
 * of their bit patterns. Magnitudes are whole numbers of units of 2^-1126, which divide every finite double and every
 * value of the formats, so every comparison below is one of integers.
 */
module Floats {
  import opened Outcomes
  import opened Powers

  datatype Format = Format(expBits: nat, fracBits: nat, draws: nat) {
    function Width(): nat {
      1 + expBits + fracBits
    }

    function Bias(): nat
      requires expBits > 0
    {
      Pow2(expBits - 1) - 1
    }
  }

  const F16 := Format(5, 10, 1)
  const BF16 := Format(8, 7, 1)
  const F32 := Format(8, 23, 1)
  const F64 := Format(11, 52, 2)

  // what the four formats have in common; the proofs hold for any such format
  ghost predicate Sound(fmt: Format) {
    2 <= fmt.expBits <= 11 && 1 <= fmt.fracBits <= 52
  }

  lemma FormatsSound()
    ensures Sound(F16) && Sound(BF16) && Sound(F32) && Sound(F64)
  {
  }

  // ----- doubles

  /** A finite double as frexp splits it: significand * 2^(exponent - 53), the significand 53 bits wide or 0. */
  datatype Double = Double(negative: bool, significand: nat, exponent: int)

  const SIGNIFICAND_MIN: nat := 0x10_0000_0000_0000
  const MIN_EXPONENT: int := -1073

  predicate IsDouble(v: Double) {
    v.significand == 0 || (SIGNIFICAND_MIN <= v.significand < 2 * SIGNIFICAND_MIN && MIN_EXPONENT <= v.exponent)
  }

  function Units(v: Double): nat
    requires IsDouble(v)
  {
    if v.significand == 0 then 0 else Times(v.significand, Pow2(v.exponent - MIN_EXPONENT))
  }

  function Value(v: Double): int
    requires IsDouble(v)
  {
    Signed(v.negative, Units(v))
  }

  function Signed(negative: bool, n: int): int {
    if negative then -n else n
  }

  // a product of non-negative numbers
  function Times(a: nat, b: nat): nat {
    MulMonotone(0, a, b);
    a * b
  }

  // ----- bit patterns

  function Magnitude(bits: nat, fmt: Format): nat {
    bits % Pow2(fmt.expBits + fmt.fracBits)
  }

  function Negative(bits: nat, fmt: Format): bool {
    bits / Pow2(fmt.expBits + fmt.fracBits) != 0
  }

  // the exponent field and the fraction of a magnitude
  function Field(m: nat, fmt: Format): nat {
    hide Pow2;
    m / Pow2(fmt.fracBits)
  }

  function Fraction(m: nat, fmt: Format): nat {
    m % Pow2(fmt.fracBits)
  }

  // the magnitude of the largest finite value: every exponent bit but the last, and every fraction bit
  function MaxFinite(fmt: Format): nat
    requires fmt.expBits > 0
  {
    (Pow2(fmt.expBits) - 1) * Pow2(fmt.fracBits) - 1
  }

  ghost predicate Finite(bits: nat, fmt: Format)
    requires fmt.expBits > 0
  {
    bits < Pow2(fmt.Width()) && Magnitude(bits, fmt) <= MaxFinite(fmt)
  }

  function Key(bits: nat, fmt: Format): int {
    Signed(Negative(bits, fmt), Magnitude(bits, fmt))
  }

  function FromKey(key: int, fmt: Format): nat {
    if key >= 0 then key else Pow2(fmt.expBits + fmt.fracBits) - key
  }

  // the exponent, counted from 2^-1126, of the last place of the subnormals
  ghost function LeastPlace(fmt: Format): (e: nat)
    requires Sound(fmt)
    ensures e as int == 1127 - fmt.Bias() - fmt.fracBits && e >= 52
  {
    Pow2Monotone(fmt.expBits - 1, 10);
    assert Pow2(10) == 1024;
    1127 - fmt.Bias() - fmt.fracBits
  }

  /** The value of a magnitude: its fraction in the subnormals' last place, or with the hidden bit in its binade's. */
  ghost function Grid(m: nat, fmt: Format): nat
    requires Sound(fmt)
  {
    if Field(m, fmt) == 0 then Times(Fraction(m, fmt), Pow2(LeastPlace(fmt)))
    else Times(Fraction(m, fmt) + Pow2(fmt.fracBits), Pow2(Field(m, fmt) - 1 + LeastPlace(fmt)))
  }

  ghost function KeyValue(key: int, fmt: Format): int
    requires Sound(fmt)
  {
    Signed(key < 0, Grid(if key < 0 then -key else key, fmt))
  }

  /** The double a finite bit pattern stands for. */
  function BitsValue(bits: nat, fmt: Format): Double
    requires Sound(fmt)
  {
    var field, fraction := Field(Magnitude(bits, fmt), fmt), Fraction(Magnitude(bits, fmt), fmt);
    FractionBelow(Magnitude(bits, fmt), fmt);
    if field == 0 then Scaled(Negative(bits, fmt), fraction, 1 - fmt.Bias() - fmt.fracBits)
    else Scaled(Negative(bits, fmt), fraction + Pow2(fmt.fracBits), field - fmt.Bias() - fmt.fracBits)
  }

  // m * 2^e as frexp splits it
  function Scaled(negative: bool, m: nat, e: int): Double
    requires m < 2 * SIGNIFICAND_MIN
    decreases 2 * SIGNIFICAND_MIN - m
  {
    if m == 0 then Double(negative, 0, 0)
    else if m >= SIGNIFICAND_MIN then Double(negative, m, e + 53)
    else Scaled(negative, 2 * m, e - 1)
  }

  lemma FractionBelow(m: nat, fmt: Format)
    requires Sound(fmt)
    ensures Fraction(m, fmt) + Pow2(fmt.fracBits) < 2 * SIGNIFICAND_MIN
  {
    TwoTo52();
    Pow2Monotone(fmt.fracBits, 52);
  }

  lemma TwoTo52()
    ensures Pow2(52) == SIGNIFICAND_MIN
  {
    Pow2Values();
    Pow2Add(32, 20);
  }

  // ----- rounding

  // the place of the double's binade in the format, or of the subnormals, and how far below it the significand ends
  function Scale(exponent: int, fmt: Format): int
    requires Sound(fmt)
  {
    if exponent > 2 - fmt.Bias() then exponent - 1 - fmt.fracBits else 1 - fmt.Bias() - fmt.fracBits
  }

  function ShiftOf(exponent: int, fmt: Format): (shift: nat)
    requires Sound(fmt)
    ensures shift >= 52 - fmt.fracBits
  {
    Scale(exponent, fmt) - (exponent - 53)
  }

  function RoundsUp(units: nat, rest: nat, shift: nat): bool {
    shift > 0 && (rest > Pow2(shift - 1) || (rest == Pow2(shift - 1) && units % 2 == 1))
  }

  /** The magnitude pattern of units * 2^scale, after a carry into the next binade; None when it overflows. */
  function Assemble(units: nat, scale: int, fmt: Format): Option<nat>
    requires Sound(fmt)
    requires units <= 2 * Pow2(fmt.fracBits) && scale >= 1 - fmt.Bias() - fmt.fracBits
  {
    var carried := units / (2 * Pow2(fmt.fracBits)) != 0;
    Packed(if carried then units / 2 else units, if carried then scale + 1 else scale, fmt)
  }

  // a subnormal's units as they are, else the biased exponent and the fraction
  function Packed(u: nat, s: int, fmt: Format): Option<nat>
    requires Sound(fmt) && s >= 1 - fmt.Bias() - fmt.fracBits
  {
    var p := Pow2(fmt.fracBits);
    if u < p then Some(u)
    else
      var biased: nat := s + fmt.fracBits + fmt.Bias();
      if biased >= Pow2(fmt.expBits) - 1 then None
      else
        MulMonotone(0, biased, p);
        Some(biased * p + (u - p))
  }

  function RoundMagnitude(significand: nat, exponent: int, fmt: Format): Option<nat>
    requires Sound(fmt)
    requires SIGNIFICAND_MIN <= significand < 2 * SIGNIFICAND_MIN
  {
    var shift := ShiftOf(exponent, fmt);
    var units, rest := significand / Pow2(shift), significand % Pow2(shift);
    UnitsBelow(significand, shift, fmt);
    Assemble(if RoundsUp(units, rest, shift) then units + 1 else units, Scale(exponent, fmt), fmt)
  }

  /** The pattern of a double rounded to the format; None stands for the overflow error. */
  function RoundBits(v: Double, fmt: Format): Option<nat>
    requires Sound(fmt) && IsDouble(v)
  {
    var sign := if v.negative then Pow2(fmt.expBits + fmt.fracBits) else 0;
    if v.significand == 0 then Some(sign)
    else
      match RoundMagnitude(v.significand, v.exponent, fmt)
      case None => None
      case Some(m) => Some(sign + m)
  }

  lemma UnitsBelow(significand: nat, shift: nat, fmt: Format)
    requires Sound(fmt) && significand < 2 * SIGNIFICAND_MIN && shift >= 52 - fmt.fracBits
    ensures significand / Pow2(shift) < 2 * Pow2(fmt.fracBits)
  {
    TwoTo52();
    Pow2Add(shift, fmt.fracBits);
    Pow2Monotone(52, shift + fmt.fracBits);
    hide Pow2;
    MulDouble(Pow2(shift), Pow2(fmt.fracBits));
    QuotientBelow(significand, Pow2(shift), 2 * Pow2(fmt.fracBits));
  }

  lemma MulDouble(a: int, b: int)
    ensures a * (2 * b) == 2 * (a * b)
  {
  }

  lemma QuotientBelow(n: nat, d: nat, q: nat)
    requires d > 0 && n < d * q
    ensures n / d < q
  {
    if n / d >= q {
      MulMonotone(q, n / d, d);
    }
  }

  lemma QuotientAtLeast(n: nat, d: nat, q: nat)
    requires d > 0 && n >= d * q
    ensures n / d >= q
  {
    if n / d < q {
      MulMonotone(n / d + 1, q, d);
      MulDistribute(n / d, 1, d);
    }
  }

  // ----- the grid of magnitudes

  // the magnitude u places above the start of binade c, whatever side of the binade's ends u puts it on
  ghost function PlaceAt(c: nat, u: nat, fmt: Format): nat {
    Times(c, Pow2(fmt.fracBits)) + u
  }

  ghost predicate InBinade(c: nat, u: nat, fmt: Format) {
    u <= 2 * Pow2(fmt.fracBits) && (c == 0 || Pow2(fmt.fracBits) <= u)
  }

  lemma GridAt(c: nat, u: nat, fmt: Format)
    requires Sound(fmt) && InBinade(c, u, fmt)
    ensures Grid(PlaceAt(c, u, fmt), fmt) == Times(u, Pow2(c + LeastPlace(fmt)))
  {
    var p, e := Pow2(fmt.fracBits), LeastPlace(fmt);
    var field := c + u / p;
    PlaceSplits(c, u, p);
    if u == 2 * p {
      DivModUnique(2, p, 0);
      Pow2Doubles(p, field - 1 + e);
    } else if u >= p {
      DivModUnique(1, p, u - p);
    } else {
      DivModUnique(0, p, u);
    }
  }

  lemma PlaceSplits(c: nat, u: nat, p: nat)
    requires p > 0
    ensures (Times(c, p) + u) / p == c + u / p && (Times(c, p) + u) % p == u % p
  {
    var q, r := u / p, u % p;
    assert Times(c, p) + u == (c + q) * p + r by { MulDistribute(c, q, p); }
    DivModUnique(c + q, p, r);
  }

  lemma Pow2Doubles(p: nat, k: nat)
    requires k > 0
    ensures Times(p, Pow2(k)) == Times(2 * p, Pow2(k - 1))
  {
    MulAssoc(p, 2, Pow2(k - 1));
  }

  // every magnitude has its place in a binade
  lemma PlaceOf(m: nat, fmt: Format) returns (c: nat, u: nat)
    ensures InBinade(c, u, fmt) && u < 2 * Pow2(fmt.fracBits) && m == PlaceAt(c, u, fmt)
  {
    var p := Pow2(fmt.fracBits);
    if m / p == 0 {
      c, u := 0, m;
    } else {
      c, u := m / p - 1, m % p + p;
      MulDistribute(c, 1, p);
    }
  }

  lemma GridStep(m: nat, fmt: Format)
    requires Sound(fmt)
    ensures Grid(m, fmt) < Grid(m + 1, fmt)
  {
    hide Grid, LeastPlace;
    var c, u := PlaceOf(m, fmt);
    GridAt(c, u, fmt);
    GridAt(c, u + 1, fmt);
    MulDistribute(u, 1, Pow2(c + LeastPlace(fmt)));
  }

  lemma {:induction false} GridMonotone(m: nat, n: nat, fmt: Format)
    requires Sound(fmt) && m <= n
    ensures Grid(m, fmt) <= Grid(n, fmt)
    ensures m < n ==> Grid(m, fmt) < Grid(n, fmt)
    decreases n
  {
    hide Grid;
    if m >= n {
    } else {
      GridMonotone(m, n - 1, fmt);
      GridStep(n - 1, fmt);
    }
  }

  // ----- the reference definition of rounding to nearest, ties to even, on the grid

  ghost predicate Bracket(d: nat, below: nat, fmt: Format)
    requires Sound(fmt)
  {
    Grid(below, fmt) <= d < Grid(below + 1, fmt)
  }

  /** The nearer of the two grid magnitudes around d, the even one when d is halfway. */
  ghost function NearestEven(d: nat, below: nat, fmt: Format): nat
    requires Sound(fmt)
  {
    var middle := Grid(below, fmt) + Grid(below + 1, fmt);
    if 2 * d > middle || (2 * d == middle && below % 2 == 1) then below + 1 else below
  }

  lemma AssembleIsPlace(units: nat, c: nat, fmt: Format)
    requires Sound(fmt) && InBinade(c, units, fmt)
    ensures Assemble(units, c + 1 - fmt.Bias() - fmt.fracBits, fmt)
         == if PlaceAt(c, units, fmt) <= MaxFinite(fmt) then Some(PlaceAt(c, units, fmt)) else None
  {
    var p := Pow2(fmt.fracBits);
    hide Pow2, Packed, MaxFinite, PlaceAt;
    if units == 2 * p {
      DivModUnique(1, 2 * p, 0);
      PackedIsPlace(p, c + 1, fmt);
      NextBinade(c, fmt);
    } else {
      DivModUnique(0, 2 * p, units);
      PackedIsPlace(units, c, fmt);
    }
  }

  lemma NextBinade(c: nat, fmt: Format)
    ensures PlaceAt(c + 1, Pow2(fmt.fracBits), fmt) == PlaceAt(c, 2 * Pow2(fmt.fracBits), fmt)
  {
    MulDistribute(c, 1, Pow2(fmt.fracBits));
  }

  lemma PackedIsPlace(u: nat, c: nat, fmt: Format)
    requires Sound(fmt) && InBinade(c, u, fmt) && u < 2 * Pow2(fmt.fracBits)
    ensures Packed(u, c + 1 - fmt.Bias() - fmt.fracBits, fmt)
         == if PlaceAt(c, u, fmt) <= MaxFinite(fmt) then Some(PlaceAt(c, u, fmt)) else None
  {
    var p := Pow2(fmt.fracBits);
    var top := Pow2(fmt.expBits) - 1;
    Pow2Monotone(1, fmt.expBits);
    PackedAs(u, c, fmt);
    MaxFiniteAs(fmt);
    PlaceAs(u, c, fmt);
    hide Pow2, Times, MaxFinite, PlaceAt, Packed;
    if u < p {
      PlaceFits(0, u, top, p);
    } else {
      PlaceFits(c + 1, u - p, top, p);
    }
  }

  lemma PackedAs(u: nat, c: nat, fmt: Format)
    requires Sound(fmt) && InBinade(c, u, fmt)
    ensures var p := Pow2(fmt.fracBits);
      Packed(u, c + 1 - fmt.Bias() - fmt.fracBits, fmt)
      == if u < p then Some(u) else if c + 1 >= Pow2(fmt.expBits) - 1 then None else Some(Times(c + 1, p) + (u - p))
  {
    hide Pow2;
  }

  lemma MaxFiniteAs(fmt: Format)
    requires fmt.expBits > 0
    ensures MaxFinite(fmt) == Times(Pow2(fmt.expBits) - 1, Pow2(fmt.fracBits)) - 1
  {
    hide Pow2;
  }

  lemma PlaceAs(u: nat, c: nat, fmt: Format)
    requires InBinade(c, u, fmt)
    ensures var p := Pow2(fmt.fracBits);
      PlaceAt(c, u, fmt) == (if u < p then Times(0, p) + u else Times(c + 1, p) + (u - p)) && Times(0, p) == 0
  {
    var p := Pow2(fmt.fracBits);
    hide Pow2;
    MulDistribute(c, 1, p);
    assert u < p ==> c == 0;
  }

  lemma PlaceFits(biased: nat, fraction: nat, top: nat, p: nat)
    requires fraction < p
    ensures biased >= top <==> Times(biased, p) + fraction > Times(top, p) - 1
  {
    if biased >= top {
      MulMonotone(top, biased, p);
    } else {
      MulMonotone(biased + 1, top, p);
      MulDistribute(biased, 1, p);
    }
  }

  // ----- the rounding meets the reference

  lemma TimesSplit(a: nat, b: nat, c: nat)
    ensures Times(a, Times(b, c)) == Times(Times(a, b), c)
    ensures Times(a + b, c) == Times(a, c) + Times(b, c)
  {
    MulAssoc(a, b, c);
    MulDistribute(a, b, c);
  }

  // the integer division puts the double between two neighbours of the grid
  lemma UnitsBracket(significand: nat, units: nat, rest: nat, e: nat, shift: nat)
    requires significand == Times(units, Pow2(shift)) + rest && rest < Pow2(shift)
    ensures Times(significand, Pow2(e)) == Times(units, Pow2(shift + e)) + Times(rest, Pow2(e))
    ensures Times(rest, Pow2(e)) < Pow2(shift + e) == Times(Pow2(shift), Pow2(e))
  {
    Pow2Add(shift, e);
    TimesIs(Pow2(shift), Pow2(e));
    hide *;
    TimesSplit(units, Pow2(shift), Pow2(e));
    TimesSplit(Times(units, Pow2(shift)), rest, Pow2(e));
    TimesLess(rest, Pow2(shift), Pow2(e));
  }

  lemma TimesIs(a: nat, b: nat)
    ensures Times(a, b) == a * b
  {
  }

  lemma TimesLess(a: nat, b: nat, c: nat)
    requires a < b && c > 0
    ensures Times(a, c) < Times(b, c)
  {
    MulMonotone(a + 1, b, c);
    MulDistribute(a, 1, c);
  }

  // comparing the remainder with half a place compares the double with the middle of its bracket
  lemma RoundsUpMeans(units: nat, rest: nat, shift: nat, p: nat)
    requires rest < Pow2(shift) && p > 0
    ensures RoundsUp(units, rest, shift)
       <==> (2 * Times(rest, p) > Times(Pow2(shift), p)
             || (2 * Times(rest, p) == Times(Pow2(shift), p) && units % 2 == 1))
  {
    var q := Pow2(shift);
    TimesSplit(rest, rest, p);
    hide Times;
    if 2 * rest < q {
      TimesLess(2 * rest, q, p);
    } else if 2 * rest > q {
      TimesLess(q, 2 * rest, p);
    }
  }

  // where a double falls on the grid: binade c, and the place in it that its significand's high bits give
  ghost function BinadeOf(exponent: int, fmt: Format): (c: nat)
    requires Sound(fmt)
    ensures Scale(exponent, fmt) == c + 1 - fmt.Bias() - fmt.fracBits
  {
    Scale(exponent, fmt) - (1 - fmt.Bias() - fmt.fracBits)
  }

  ghost function BelowOf(v: Double, fmt: Format): nat
    requires Sound(fmt) && IsDouble(v)
  {
    if v.significand == 0 then 0
    else PlaceAt(BinadeOf(v.exponent, fmt), v.significand / Pow2(ShiftOf(v.exponent, fmt)), fmt)
  }

  lemma UnitsInBinade(v: Double, fmt: Format)
    requires Sound(fmt) && IsDouble(v) && v.significand != 0
    ensures var u := v.significand / Pow2(ShiftOf(v.exponent, fmt));
            InBinade(BinadeOf(v.exponent, fmt), u, fmt) && u < 2 * Pow2(fmt.fracBits)
  {
    var shift := ShiftOf(v.exponent, fmt);
    UnitsBelow(v.significand, shift, fmt);
    if BinadeOf(v.exponent, fmt) > 0 {
      assert shift == 52 - fmt.fracBits;
      TwoTo52();
      Pow2Add(shift, fmt.fracBits);
      QuotientAtLeast(v.significand, Pow2(shift), Pow2(fmt.fracBits));
    }
  }

  lemma PlaceParity(c: nat, u: nat, fmt: Format)
    requires Sound(fmt)
    ensures PlaceAt(c, u, fmt) % 2 == u % 2
  {
    var half := Pow2(fmt.fracBits - 1);
    MulDouble(c, half);
  }

  // the double's distance from its lower neighbour, and the distance between its two neighbours
  ghost function RestUnits(v: Double, fmt: Format): nat
    requires Sound(fmt) && IsDouble(v) && v.significand != 0
  {
    Times(v.significand % Pow2(ShiftOf(v.exponent, fmt)), Pow2(v.exponent - MIN_EXPONENT))
  }

  ghost function GapUnits(v: Double, fmt: Format): nat
    requires Sound(fmt) && IsDouble(v) && v.significand != 0
  {
    Times(Pow2(ShiftOf(v.exponent, fmt)), Pow2(v.exponent - MIN_EXPONENT))
  }

  lemma BracketUnits(v: Double, fmt: Format)
    requires Sound(fmt) && IsDouble(v) && v.significand != 0
    ensures Units(v) == Grid(BelowOf(v, fmt), fmt) + RestUnits(v, fmt)
    ensures Grid(BelowOf(v, fmt) + 1, fmt) == Grid(BelowOf(v, fmt), fmt) + GapUnits(v, fmt)
    ensures RestUnits(v, fmt) < GapUnits(v, fmt)
  {
    var shift, c := ShiftOf(v.exponent, fmt), BinadeOf(v.exponent, fmt);
    var e: nat := v.exponent - MIN_EXPONENT;
    assert shift + e == c + LeastPlace(fmt);
    UnitsInBinade(v, fmt);
    hide Pow2, Grid, ShiftOf, BinadeOf, LeastPlace, InBinade, Times, PlaceAt;
    DivisionTimes(v.significand, Pow2(shift));
    BracketAt(v.significand / Pow2(shift), v.significand % Pow2(shift), c, e, shift, fmt);
    PlaceNext(c, v.significand / Pow2(shift), fmt);
  }

  lemma PlaceNext(c: nat, u: nat, fmt: Format)
    ensures PlaceAt(c, u, fmt) + 1 == PlaceAt(c, u + 1, fmt)
  {
  }

  lemma DivisionTimes(n: nat, d: nat)
    requires d > 0
    ensures n == Times(n / d, d) + n % d
  {
  }

  lemma BracketAt(units: nat, rest: nat, c: nat, e: nat, shift: nat, fmt: Format)
    requires Sound(fmt) && shift + e == c + LeastPlace(fmt)
    requires InBinade(c, units, fmt) && units < 2 * Pow2(fmt.fracBits) && rest < Pow2(shift)
    ensures var low := Grid(PlaceAt(c, units, fmt), fmt);
      && Times(Times(units, Pow2(shift)) + rest, Pow2(e)) == low + Times(rest, Pow2(e))
      && Grid(PlaceAt(c, units + 1, fmt), fmt) == low + Times(Pow2(shift), Pow2(e))
      && Times(rest, Pow2(e)) < Times(Pow2(shift), Pow2(e))
  {
    hide Pow2, Grid, LeastPlace, Times, PlaceAt;
    UnitsBracket(Times(units, Pow2(shift)) + rest, units, rest, e, shift);
    TimesSplit(units, 1, Pow2(shift + e));
    TimesOne(Pow2(shift + e));
    GridAt(c, units, fmt);
    GridAt(c, units + 1, fmt);
  }

  lemma TimesOne(a: nat)
    ensures Times(1, a) == a
  {
  }

  // a nonzero double is rounded to the nearer of its two neighbours
  lemma RoundNonzero(v: Double, fmt: Format)
    requires Sound(fmt) && IsDouble(v) && v.significand != 0
    ensures Bracket(Units(v), BelowOf(v, fmt), fmt)
    ensures var m := NearestEven(Units(v), BelowOf(v, fmt), fmt);
            RoundMagnitude(v.significand, v.exponent, fmt) == if m <= MaxFinite(fmt) then Some(m) else None
  {
    hide Pow2, Grid, ShiftOf, BinadeOf, LeastPlace, Times, MaxFinite, RoundsUp, Units, Assemble;
    var shift, c := ShiftOf(v.exponent, fmt), BinadeOf(v.exponent, fmt);
    var q := Pow2(shift);
    var units, rest := v.significand / q, v.significand % q;
    BracketUnits(v, fmt);
    UnitsInBinade(v, fmt);
    RoundsUpMeans(units, rest, shift, Pow2(v.exponent - MIN_EXPONENT));
    PlaceParity(c, units, fmt);
    AssembleIsPlace(if RoundsUp(units, rest, shift) then units + 1 else units, c, fmt);
  }

  /** A zero too: every double lies in a bracket of the grid. */
  lemma DoubleInBracket(v: Double, fmt: Format)
    requires Sound(fmt) && IsDouble(v)
    ensures Bracket(Units(v), BelowOf(v, fmt), fmt)
  {
    if v.significand == 0 {
      GridStep(0, fmt);
      GridZero(fmt);
    } else {
      RoundNonzero(v, fmt);
    }
  }

  lemma GridZero(fmt: Format)
    requires Sound(fmt)
    ensures Grid(0, fmt) == 0
  {
    DivModUnique(0, Pow2(fmt.fracBits), 0);
  }

  // ----- nearest, ties to even

  /** The pattern lies on one side or the other of the double, no further than its neighbours there. */
  lemma Neighbours(d: nat, below: nat, fmt: Format)
    requires Sound(fmt) && Bracket(d, below, fmt)
    ensures var m := NearestEven(d, below, fmt);
      && (m > 0 ==> Grid(m - 1, fmt) < d) && d < Grid(m + 1, fmt)
      && (Grid(m, fmt) <= d ==> m == below)
  {
    hide Grid;
    GridStep(below, fmt);
    GridStep(below + 1, fmt);
    if below > 0 {
      GridStep(below - 1, fmt);
    }
  }

  ghost function Gap(a: int, b: int): nat {
    if a <= b then b - a else a - b
  }

  // no magnitude is nearer, and one as near is the same or the rounded one is even
  lemma NearestMagnitude(d: nat, below: nat, n: nat, fmt: Format)
    requires Sound(fmt) && Bracket(d, below, fmt)
    ensures var m := NearestEven(d, below, fmt);
      && Gap(Grid(m, fmt), d) <= Gap(Grid(n, fmt), d)
      && (n != m && Gap(Grid(m, fmt), d) == Gap(Grid(n, fmt), d) ==> m % 2 == 0)
  {
    hide Grid;
    if n <= below {
      GridMonotone(n, below, fmt);
    } else {
      GridMonotone(below + 1, n, fmt);
    }
  }

  // the largest finite value bounds the rounding of every double it bounds
  lemma InRangeRounds(v: Double, fmt: Format)
    requires Sound(fmt) && IsDouble(v)
    requires Units(v) <= Grid(MaxFinite(fmt), fmt)
    ensures NearestEven(Units(v), BelowOf(v, fmt), fmt) <= MaxFinite(fmt)
  {
    hide Grid, MaxFinite, BelowOf, Units;
    var below := BelowOf(v, fmt);
    DoubleInBracket(v, fmt);
    if below >= MaxFinite(fmt) {
      GridStep(below, fmt);
      GridMonotone(MaxFinite(fmt), below, fmt);
    }
  }

  ghost predicate InRange(v: Double, fmt: Format)
    requires Sound(fmt) && IsDouble(v)
  {
    Units(v) <= Grid(MaxFinite(fmt), fmt)
  }

  lemma MaxFinitePositive(fmt: Format)
    requires Sound(fmt)
    ensures 0 < MaxFinite(fmt) < Pow2(fmt.expBits + fmt.fracBits)
  {
    Pow2Monotone(2, fmt.expBits);
    Pow2Monotone(1, fmt.fracBits);
    Pow2Add(fmt.expBits, fmt.fracBits);
    MulMonotone(3, Pow2(fmt.expBits) - 1, Pow2(fmt.fracBits));
    MulDistribute(Pow2(fmt.expBits) - 1, 1, Pow2(fmt.fracBits));
  }

  // a sign bit above a magnitude
  lemma SignedBits(negative: bool, m: nat, fmt: Format)
    requires Sound(fmt) && m < Pow2(fmt.expBits + fmt.fracBits)
    ensures var bits := (if negative then Pow2(fmt.expBits + fmt.fracBits) else 0) + m;
      && Magnitude(bits, fmt) == m && Negative(bits, fmt) == negative && bits < Pow2(fmt.Width())
  {
    DivModUnique(if negative then 1 else 0, Pow2(fmt.expBits + fmt.fracBits), m);
  }

  /** The rounding of a double in range: its sign, and the magnitude the reference definition gives. */
  lemma RoundBitsIs(v: Double, fmt: Format)
    requires Sound(fmt) && IsDouble(v) && InRange(v, fmt)
    ensures RoundBits(v, fmt).Some? && Finite(RoundBits(v, fmt).value, fmt)
    ensures Negative(RoundBits(v, fmt).value, fmt) == v.negative
    ensures Magnitude(RoundBits(v, fmt).value, fmt) == NearestEven(Units(v), BelowOf(v, fmt), fmt)
  {
    hide Grid, MaxFinite, BelowOf, Units, Pow2, Magnitude, Negative, RoundMagnitude;
    MaxFinitePositive(fmt);
    InRangeRounds(v, fmt);
    if v.significand == 0 {
      ZeroRounds(v, fmt);
    } else {
      RoundNonzero(v, fmt);
    }
    SignedBits(v.negative, NearestEven(Units(v), BelowOf(v, fmt), fmt), fmt);
  }

  lemma ZeroRounds(v: Double, fmt: Format)
    requires Sound(fmt) && IsDouble(v) && v.significand == 0
    ensures NearestEven(Units(v), BelowOf(v, fmt), fmt) == 0
  {
    hide Grid;
    GridZero(fmt);
    GridStep(0, fmt);
  }

  ghost function PatternValue(bits: nat, fmt: Format): int
    requires Sound(fmt)
  {
    Signed(Negative(bits, fmt), Grid(Magnitude(bits, fmt), fmt))
  }

  /**
   * Rounding a double in the format's finite range never overflows, keeps the sign (of zero too), and gives a value
   * no further from the double than any finite value of the format; when another value is as near, the pattern is
   * the even one.
   */
  lemma RoundsToNearestEven(v: Double, fmt: Format, other: nat)
    requires Sound(fmt) && IsDouble(v) && InRange(v, fmt)
    requires Finite(other, fmt)
    ensures RoundBits(v, fmt).Some?
    ensures var bits := RoundBits(v, fmt).value;
      && Finite(bits, fmt) && Negative(bits, fmt) == v.negative
      && Gap(PatternValue(bits, fmt), Value(v)) <= Gap(PatternValue(other, fmt), Value(v))
      && (PatternValue(bits, fmt) == PatternValue(other, fmt) || bits % 2 == 0
          || Gap(PatternValue(bits, fmt), Value(v)) < Gap(PatternValue(other, fmt), Value(v)))
  {
    hide Grid, Magnitude, Negative, RoundBits, BelowOf, Finite, NearestEven, InRange, Bracket, Units;
    RoundBitsIs(v, fmt);
    var bits := RoundBits(v, fmt).value;
    DoubleInBracket(v, fmt);
    NearestMagnitude(Units(v), BelowOf(v, fmt), Magnitude(other, fmt), fmt);
    NearestMagnitude(Units(v), BelowOf(v, fmt), 0, fmt);
    GridZero(fmt);
    PatternParity(bits, fmt);
  }

  lemma PatternParity(bits: nat, fmt: Format)
    requires Sound(fmt)
    ensures bits % 2 == Magnitude(bits, fmt) % 2
  {
    var w := fmt.expBits + fmt.fracBits;
    assert Pow2(w) == 2 * Pow2(w - 1);
    hide Pow2;
    ModEven(bits, Pow2(w - 1));
  }

  // ----- keys

  lemma KeyValueIsPatternValue(bits: nat, fmt: Format)
    requires Sound(fmt)
    ensures KeyValue(Key(bits, fmt), fmt) == PatternValue(bits, fmt)
  {
    hide Grid, Magnitude, Negative;
    GridZero(fmt);
  }

  /** Keys are ordered as the values they stand for, both zeros at 0. */
  lemma KeyOrder(a: int, b: int, fmt: Format)
    requires Sound(fmt) && a < b
    ensures KeyValue(a, fmt) < KeyValue(b, fmt)
  {
    hide Grid;
    GridZero(fmt);
    if a >= 0 {
      GridMonotone(a, b, fmt);
    } else if b <= 0 {
      GridMonotone(-b, -a, fmt);
    } else {
      GridMonotone(0, b, fmt);
      GridMonotone(0, -a, fmt);
    }
  }

  lemma KeyBounds(bits: nat, fmt: Format)
    requires Sound(fmt) && Finite(bits, fmt)
    ensures -(MaxFinite(fmt) as int) <= Key(bits, fmt) <= MaxFinite(fmt)
  {
  }

  /** Every key in the finite range belongs to a finite pattern, which has that key. */
  lemma FromKeySound(key: int, fmt: Format)
    requires Sound(fmt) && -(MaxFinite(fmt) as int) <= key <= MaxFinite(fmt)
    ensures Finite(FromKey(key, fmt), fmt) && Key(FromKey(key, fmt), fmt) == key
  {
    hide MaxFinite, Magnitude, Negative, Pow2;
    MaxFinitePositive(fmt);
    SignedBits(key < 0, if key < 0 then -key else key, fmt);
  }

  // the rounded key's neighbours lie strictly on either side of the double
  lemma RoundedKey(v: Double, fmt: Format)
    requires Sound(fmt) && IsDouble(v) && InRange(v, fmt)
    ensures RoundBits(v, fmt).Some? && Finite(RoundBits(v, fmt).value, fmt)
    ensures var key := Key(RoundBits(v, fmt).value, fmt);
      && KeyValue(key - 1, fmt) < Value(v) < KeyValue(key + 1, fmt)
      && KeyValue(key, fmt) == PatternValue(RoundBits(v, fmt).value, fmt)
  {
    hide Grid, Magnitude, Negative, RoundBits, BelowOf, Finite, NearestEven, InRange, Bracket, Units;
    RoundBitsIs(v, fmt);
    DoubleInBracket(v, fmt);
    KeyValueIsPatternValue(RoundBits(v, fmt).value, fmt);
    Neighbours(Units(v), BelowOf(v, fmt), fmt);
    GridZero(fmt);
    GridStep(0, fmt);
  }

  lemma NearestEvenMonotone(d: nat, belowD: nat, e: nat, belowE: nat, fmt: Format)
    requires Sound(fmt) && Bracket(d, belowD, fmt) && Bracket(e, belowE, fmt) && d <= e
    ensures NearestEven(d, belowD, fmt) <= NearestEven(e, belowE, fmt)
  {
    hide Grid;
    if belowD > belowE {
      GridMonotone(belowE + 1, belowD, fmt);
    }
  }

  /** Rounding keeps the order of doubles. */
  lemma RoundingMonotone(v: Double, w: Double, fmt: Format)
    requires Sound(fmt) && IsDouble(v) && IsDouble(w) && InRange(v, fmt) && InRange(w, fmt)
    requires Value(v) <= Value(w)
    ensures RoundBits(v, fmt).Some? && RoundBits(w, fmt).Some?
    ensures Key(RoundBits(v, fmt).value, fmt) <= Key(RoundBits(w, fmt).value, fmt)
  {
    hide Grid, Magnitude, Negative, RoundBits, BelowOf, Finite, NearestEven, InRange, Bracket, Units;
    RoundBitsIs(v, fmt);
    RoundBitsIs(w, fmt);
    DoubleInBracket(v, fmt);
    DoubleInBracket(w, fmt);
    if Units(v) == 0 {
      Neighbours(0, BelowOf(v, fmt), fmt);
    }
    if Units(v) <= Units(w) {
      NearestEvenMonotone(Units(v), BelowOf(v, fmt), Units(w), BelowOf(w, fmt), fmt);
    }
    if Units(w) <= Units(v) {
      NearestEvenMonotone(Units(w), BelowOf(w, fmt), Units(v), BelowOf(v, fmt), fmt);
    }
  }

  // ----- a pattern's value as a double, and back

  lemma {:induction false} ScaledValue(negative: bool, m: nat, e: int)
    requires m < 2 * SIGNIFICAND_MIN && e >= -1126
    requires m == 0 || Times(m, Pow2(e + 1126)) >= SIGNIFICAND_MIN
    ensures IsDouble(Scaled(negative, m, e)) && Scaled(negative, m, e).negative == negative
    ensures Units(Scaled(negative, m, e)) == Times(m, Pow2(e + 1126))
    decreases 2 * SIGNIFICAND_MIN - m
  {
    if 0 < m < SIGNIFICAND_MIN {
      PlaceAbove(m, e + 1126);
      Pow2Doubles(m, e + 1126);
      ScaledValue(negative, 2 * m, e - 1);
    }
  }

  lemma PlaceAbove(m: nat, k: nat)
    requires m < SIGNIFICAND_MIN <= Times(m, Pow2(k))
    ensures k > 0
  {
  }

  /** The double of a pattern has the pattern's sign and value, exactly. */
  lemma BitsValueExact(bits: nat, fmt: Format)
    requires Sound(fmt)
    ensures IsDouble(BitsValue(bits, fmt)) && BitsValue(bits, fmt).negative == Negative(bits, fmt)
    ensures Units(BitsValue(bits, fmt)) == Grid(Magnitude(bits, fmt), fmt)
    ensures Value(BitsValue(bits, fmt)) == PatternValue(bits, fmt)
  {
    var m := Magnitude(bits, fmt);
    var e := LeastPlace(fmt);
    FractionBelow(m, fmt);
    hide Magnitude, Negative, Pow2, Fraction, Field, Times, LeastPlace, Scaled;
    if Field(m, fmt) == 0 {
      ScaledLarge(Fraction(m, fmt), e);
      ScaledValue(Negative(bits, fmt), Fraction(m, fmt), e as int - 1126);
    } else {
      ScaledLarge(Fraction(m, fmt) + Pow2(fmt.fracBits), Field(m, fmt) - 1 + e);
      ScaledValue(Negative(bits, fmt), Fraction(m, fmt) + Pow2(fmt.fracBits), Field(m, fmt) - 1 + e as int - 1126);
    }
  }

  lemma ScaledLarge(m: nat, k: nat)
    requires k >= 52
    ensures m == 0 || Times(m, Pow2(k)) >= SIGNIFICAND_MIN
  {
    TwoTo52();
    Pow2Monotone(52, k);
    hide Pow2;
    if m > 0 {
      MulMonotone(1, m, Pow2(k));
    }
  }

  /** Every finite pattern's value is a double in the format's finite range. */
  lemma PatternInRange(bits: nat, fmt: Format)
    requires Sound(fmt) && Finite(bits, fmt)
    ensures IsDouble(BitsValue(bits, fmt)) && InRange(BitsValue(bits, fmt), fmt)
  {
    hide Grid, MaxFinite, BitsValue, Units, Magnitude, Value, PatternValue;
    BitsValueExact(bits, fmt);
    GridMonotone(Magnitude(bits, fmt), MaxFinite(fmt), fmt);
  }

  /** Rounding a finite pattern's value gives the pattern back, the sign of a zero included. */
  lemma RoundTrip(bits: nat, fmt: Format)
    requires Sound(fmt) && Finite(bits, fmt)
    ensures IsDouble(BitsValue(bits, fmt)) && RoundBits(BitsValue(bits, fmt), fmt) == Some(bits)
  {
    var v, m := BitsValue(bits, fmt), Magnitude(bits, fmt);
    BitsValueExact(bits, fmt);
    PatternSplits(bits, fmt);
    GridMonotone(m, MaxFinite(fmt), fmt);
    hide Grid, Magnitude, Negative, RoundBits, BelowOf, MaxFinite, BitsValue, Units, Pow2;
    RoundBitsIs(v, fmt);
    PatternSplits(RoundBits(v, fmt).value, fmt);
    DoubleInBracket(v, fmt);
    var below := BelowOf(v, fmt);
    if below < m { GridMonotone(below + 1, m, fmt); }
    if below > m { GridMonotone(m, below, fmt); }
  }

  lemma PatternSplits(bits: nat, fmt: Format)
    requires bits < Pow2(fmt.Width())
    ensures bits == (if Negative(bits, fmt) then Pow2(fmt.expBits + fmt.fracBits) else 0) + Magnitude(bits, fmt)
  {
    assert Pow2(fmt.Width()) == 2 * Pow2(fmt.expBits + fmt.fracBits);
    hide Pow2;
    TwoParts(bits, Pow2(fmt.expBits + fmt.fracBits));
  }

  lemma TwoParts(n: nat, d: nat)
    requires d > 0 && n < 2 * d
    ensures n == (if n / d != 0 then d else 0) + n % d
  {
    QuotientBelow(n, d, 2);
    assert n == d * (n / d) + n % d;
  }

  /** The largest finite value of the format, as a double. */
  lemma LargestValue(fmt: Format)
    requires Sound(fmt)
    ensures IsDouble(BitsValue(MaxFinite(fmt), fmt))
    ensures Units(BitsValue(MaxFinite(fmt), fmt)) == Grid(MaxFinite(fmt), fmt)
  {
    hide Grid, MaxFinite, BitsValue, Magnitude, Negative, Pow2, Units;
    MaxFinitePositive(fmt);
    SignedBits(false, MaxFinite(fmt), fmt);
    BitsValueExact(MaxFinite(fmt), fmt);
  }

  // ----- the four formats in numbers

  lemma GridParts(field: nat, fraction: nat, fmt: Format)
    requires Sound(fmt) && field >= 1 && fraction < Pow2(fmt.fracBits)
    ensures Grid(field * Pow2(fmt.fracBits) + fraction, fmt)
         == Times(fraction + Pow2(fmt.fracBits), Pow2(field - 1 + LeastPlace(fmt)))
  {
    hide Pow2;
    DivModUnique(field, Pow2(fmt.fracBits), fraction);
  }

  // the bias, the largest pattern, and the values of the patterns of 1, the least positive one and the largest
  lemma FormatIs(fmt: Format, bias: nat, one: nat, largest: nat)
    requires Sound(fmt) && Pow2(fmt.expBits) == 2 * (bias + 1)
    requires one == bias * Pow2(fmt.fracBits) && largest == (2 * bias + 1) * Pow2(fmt.fracBits) - 1
    ensures fmt.Bias() == bias && MaxFinite(fmt) == largest
    ensures Grid(one, fmt) == Times(Pow2(fmt.fracBits), Pow2(1126 - fmt.fracBits))
    ensures Grid(1, fmt) == Pow2(1127 - bias - fmt.fracBits)
    ensures Grid(largest, fmt) == Times(2 * Pow2(fmt.fracBits) - 1, Pow2(1126 + bias - fmt.fracBits))
  {
    hide Pow2, Grid, Times, MaxFinite, Format.Bias;
    BiasIs(fmt, bias);
    LeastIs(fmt);
    GridParts(bias, 0, fmt);
    LargestIs(fmt, bias);
  }

  lemma BiasIs(fmt: Format, bias: nat)
    requires Sound(fmt) && Pow2(fmt.expBits) == 2 * (bias + 1)
    ensures fmt.Bias() == bias >= 1 && MaxFinite(fmt) == (2 * bias + 1) * Pow2(fmt.fracBits) - 1
  {
    Pow2Monotone(1, fmt.expBits - 1);
  }

  lemma LargestIs(fmt: Format, bias: nat)
    requires Sound(fmt) && fmt.Bias() == bias >= 1
    ensures (2 * bias + 1) * Pow2(fmt.fracBits) >= 1
    ensures Grid((2 * bias + 1) * Pow2(fmt.fracBits) - 1, fmt)
         == Times(2 * Pow2(fmt.fracBits) - 1, Pow2(1126 + bias - fmt.fracBits))
  {
    var p := Pow2(fmt.fracBits);
    hide Pow2, Grid, Times, Format.Bias;
    MulDistribute(2 * bias, 1, p);
    MulMonotone(0, 2 * bias, p);
    GridParts(2 * bias, p - 1, fmt);
  }

  lemma LeastIs(fmt: Format)
    requires Sound(fmt)
    ensures Grid(1, fmt) == Pow2(LeastPlace(fmt))
  {
    Pow2Monotone(1, fmt.fracBits);
    hide Pow2;
    DivModUnique(0, Pow2(fmt.fracBits), 1);
  }

  /**
   * Each format by its width, the pattern of 1 (2^1126 units), the value of its least positive pattern, and the
   * pattern and value of its largest.
   */
  lemma FormatsAre()
    ensures F16.Width() == 16 && BF16.Width() == 16 && F32.Width() == 32 && F64.Width() == 64
    ensures Grid(0x3C00, F16) == Grid(0x3F80, BF16) == Grid(0x3F80_0000, F32) == Grid(0x3FF0_0000_0000_0000, F64)
         == Pow2(1126)
    ensures Grid(1, F16) == Pow2(1126 - 24) && Grid(1, BF16) == Pow2(1126 - 133)
    ensures Grid(1, F32) == Pow2(1126 - 149) && Grid(1, F64) == Pow2(1126 - 1074)
    ensures MaxFinite(F16) == 0x7BFF && Grid(0x7BFF, F16) == Times(0x7FF, Pow2(1126 + 5))
    ensures MaxFinite(BF16) == 0x7F7F && Grid(0x7F7F, BF16) == Times(0xFF, Pow2(1126 + 120))
    ensures MaxFinite(F32) == 0x7F7F_FFFF && Grid(0x7F7F_FFFF, F32) == Times(0xFF_FFFF, Pow2(1126 + 104))
    ensures MaxFinite(F64) == 0x7FEF_FFFF_FFFF_FFFF
         && Grid(0x7FEF_FFFF_FFFF_FFFF, F64) == Times(0x1F_FFFF_FFFF_FFFF, Pow2(1126 + 971))
  {
    FieldPowers();
    hide Pow2, Grid, Times, MaxFinite;
    FormatIs(F16, 15, 0x3C00, 0x7BFF);
    FormatIs(BF16, 127, 0x3F80, 0x7F7F);
    FormatIs(F32, 127, 0x3F80_0000, 0x7F7F_FFFF);
    FormatIs(F64, 1023, 0x3FF0_0000_0000_0000, 0x7FEF_FFFF_FFFF_FFFF);
    TimesPowers(10, 1126);
    TimesPowers(7, 1126);
    TimesPowers(23, 1126);
    TimesPowers(52, 1126);
  }

  lemma FieldPowers()
    ensures Pow2(5) == 32 && Pow2(8) == 256 && Pow2(11) == 2048
    ensures Pow2(7) == 0x80 && Pow2(10) == 0x400 && Pow2(23) == 0x80_0000 && Pow2(52) == 0x10_0000_0000_0000
  {
    Pow2Values();
    PowerBefore(23, 4);
    PowerBefore(52, 7);
  }

  // a power of two from one with a few more twos
  lemma PowerBefore(n: nat, k: nat)
    ensures Pow2(n + k) == Pow2(n) * Pow2(k)
  {
    Pow2Add(n, k);
  }

  lemma TimesPowers(n: nat, m: nat)
    requires n <= m
    ensures Times(Pow2(n), Pow2(m - n)) == Pow2(m)
  {
    Pow2Add(n, m - n);
  }
}

/** The Wilson score interval in exact arithmetic; a square root is given as the number whose square it is. */
module WilsonInterval {
  import opened Outcomes

  // what the interval takes the square root of
  function UnderRoot(rate: real, n: real, z: real): real
    requires n > 0.0
  {
    rate * (1.0 - rate) / n + z * z / (4.0 * n * n)
  }

  ghost predicate IsRoot(root: real, x: real) {
    root >= 0.0 && root * root == x
  }

  datatype Bounds = Bounds(low: real, high: real)

  /** The two bounds before they are cut to [0, 1]. */
  function Unclamped(rate: real, n: real, z: real, root: real): Bounds
    requires n > 0.0
  {
    var scale := 1.0 + z * z / n;
    ScalePositive(n, z);
    var centre, half := (rate + z * z / (2.0 * n)) / scale, z * root / scale;
    Bounds(centre - half, centre + half)
  }

  lemma ScalePositive(n: real, z: real)
    requires n > 0.0
    ensures 1.0 + z * z / n > 0.0
  {
    assert z * z >= 0.0;
  }

  function Max(a: real, b: real): real {
    if a < b then b else a
  }

  function Min(a: real, b: real): real {
    if b < a then b else a
  }

  /** The interval of `successes`, which may be fractional, out of n. */
  function Wilson(successes: real, n: int, z: real, root: real): Result<Bounds, StatError> {
    if n < 1 || !(0.0 <= successes <= n as real) || z <= 0.0 then Err(BadArguments)
    else
      var b := Unclamped(successes / n as real, n as real, z, root);
      Ok(Bounds(Max(0.0, b.low), Min(1.0, b.high)))
  }

  // ----- the equation the bounds solve

  // n (rate - p)^2 = z^2 p (1 - p)
  predicate Solves(p: real, rate: real, n: real, z: real) {
    n * ((rate - p) * (rate - p)) == z * z * (p * (1.0 - p))
  }

  // the same, divided by n, as a difference: w is z^2 / n
  function Gap(p: real, rate: real, w: real): real {
    (rate - p) * (rate - p) - w * (p * (1.0 - p))
  }

  lemma Scaled(p: real, rate: real, n: real, z: real)
    requires n > 0.0
    ensures Solves(p, rate, n, z) <==> Gap(p, rate, z * z / n) == 0.0
  {
    var w, a, b := z * z / n, (rate - p) * (rate - p), p * (1.0 - p);
    assert w * n == z * z;
    Regroup(w, n, b);
    assert n * a == n * (w * b) <==> a == w * b by { Cancel(n, a, w * b); }
  }

  lemma Regroup(w: real, n: real, b: real)
    ensures (w * n) * b == n * (w * b)
  {
  }

  lemma Cancel(n: real, a: real, b: real)
    requires n > 0.0
    ensures n * a == n * b <==> a == b
  {
    assert (n * a) / n == a && (n * b) / n == b;
  }

  // the scaled bounds: the two bounds times 1 + w, with their half width d
  ghost predicate ScaledBounds(rate: real, w: real, d: real, low: real, high: real) {
    && w > 0.0 && d >= 0.0 && d * d == w * (rate * (1.0 - rate)) + w * w / 4.0
    && (1.0 + w) * low == rate + w / 2.0 - d && (1.0 + w) * high == rate + w / 2.0 + d
  }

  // the bounds with the scale multiplied out: b and d are the scaled centre and half width
  lemma Multiplied(rate: real, n: real, z: real, root: real)
    requires n > 0.0 && z > 0.0 && IsRoot(root, UnderRoot(rate, n, z))
    ensures var bounds := Unclamped(rate, n, z, root);
      ScaledBounds(rate, z * z / n, z * root, bounds.low, bounds.high)
  {
    hide UnderRoot;
    var w, d := z * z / n, z * root;
    WeightPositive(n, z, z);
    NotNegative(z, root);
    HalfWeight(z * z, n);
    Spread(1.0 + w, rate + w / 2.0, d);
    SquareIs(rate, n, z, root);
  }

  lemma SquareIs(rate: real, n: real, z: real, root: real)
    requires n > 0.0 && IsRoot(root, UnderRoot(rate, n, z))
    ensures var w := z * z / n; (z * root) * (z * root) == w * (rate * (1.0 - rate)) + w * w / 4.0
  {
    SquareOfProduct(z, root);
    Weighted(rate * (1.0 - rate), n, z * z);
  }

  lemma WeightPositive(n: real, a: real, b: real)
    requires n > 0.0 && a > 0.0 && b > 0.0
    ensures a * b / n > 0.0
  {
    PositiveRatio(a * b, n);
  }

  lemma PositiveRatio(a: real, n: real)
    requires a > 0.0 && n > 0.0
    ensures a / n > 0.0
  {
  }

  lemma HalfWeight(a: real, n: real)
    requires n > 0.0
    ensures a / (2.0 * n) == (a / n) / 2.0
  {
  }

  lemma Spread(s: real, c: real, d: real)
    requires s > 0.0
    ensures s * (c / s - d / s) == c - d && s * (c / s + d / s) == c + d
  {
    var x, y := c / s, d / s;
    assert s * x == c && s * y == d;
    Distributes(s, x, y);
  }

  lemma Distributes(s: real, x: real, y: real)
    ensures s * (x - y) == s * x - s * y && s * (x + y) == s * x + s * y
  {
  }

  lemma SquareOfProduct(z: real, root: real)
    ensures (z * root) * (z * root) == (z * z) * (root * root)
  {
  }

  lemma Weighted(v: real, n: real, a: real)
    requires n > 0.0
    ensures a * (v / n + a / (4.0 * n * n)) == (a / n) * v + (a / n) * (a / n) / 4.0
  {
    var w := a / n;
    assert a == w * n;
    Reduced(w, n);
    assert (w * n) * (v / n) == w * v;
    assert (w * n) * (w / (4.0 * n)) == w * w / 4.0;
  }

  lemma Reduced(w: real, n: real)
    requires n > 0.0
    ensures w * n / (4.0 * n * n) == w / (4.0 * n)
  {
    var x, q := w / (4.0 * n), 4.0 * n;
    assert x * q == w;
    CancelProduct(x, q * n, q, n);
  }

  lemma CancelProduct(x: real, m: real, q: real, n: real)
    requires m == q * n && q > 0.0 && n > 0.0
    ensures m > 0.0 && x * m / m == x
  {
  }

  // ----- the bounds are its roots

  lemma SameSquares(x: real, d: real)
    requires d >= 0.0
    ensures x * x == d * d <==> x == d || x == -d
    ensures x * x <= d * d <==> -d <= x <= d
  {
    assert x * x - d * d == (x - d) * (x + d);
    Signs(x - d, x + d);
  }

  lemma Signs(a: real, b: real)
    ensures a * b == 0.0 <==> a == 0.0 || b == 0.0
    ensures a * b <= 0.0 <==> (a <= 0.0 <= b) || (b <= 0.0 <= a)
  {
    if a > 0.0 && b > 0.0 { Positive(a, b); }
    if a < 0.0 && b < 0.0 { Positive(-a, -b); }
    if a > 0.0 && b < 0.0 { Positive(a, -b); }
    if a < 0.0 && b > 0.0 { Positive(-a, b); }
  }

  lemma Positive(a: real, b: real)
    requires a > 0.0 && b > 0.0
    ensures a * b > 0.0 && (-a) * (-b) > 0.0 && a * (-b) < 0.0 && (-a) * b < 0.0
  {
  }

  // how a scaled number compares, and that scaling keeps the order
  lemma Order(s: real, p: real, q: real)
    requires s > 0.0
    ensures (s * p == s * q <==> p == q) && (s * p <= s * q <==> p <= q)
  {
    assert s * p - s * q == s * (p - q);
    Signs(s, p - q);
  }

  // a number whose scaled distance from the centre is x, and the two at distance d
  lemma WithRoots(s: real, b: real, d: real, p: real, low: real, high: real, x: real, gap: real)
    requires s > 0.0 && d >= 0.0 && s * low == b - d && s * high == b + d
    requires x == s * p - b && x * x - d * d == s * gap
    ensures gap == 0.0 <==> p == low || p == high
    ensures gap <= 0.0 <==> low <= p <= high
  {
    SameSquares(x, d);
    Order(s, p, low);
    Order(s, p, high);
    Order(s, low, p);
    Signs(s, gap);
  }

  lemma Between(p: real, rate: real, n: real, z: real, root: real)
    requires n > 0.0 && z > 0.0 && IsRoot(root, UnderRoot(rate, n, z))
    ensures var gap, bounds := Gap(p, rate, z * z / n), Unclamped(rate, n, z, root);
      && (gap == 0.0 <==> p == bounds.low || p == bounds.high)
      && (gap <= 0.0 <==> bounds.low <= p <= bounds.high)
  {
    var bounds := Unclamped(rate, n, z, root);
    Multiplied(rate, n, z, root);
    BetweenScaled(p, rate, z * z / n, z * root, bounds.low, bounds.high);
  }

  // with s = 1 + w and b = rate + w / 2, the equation is (s p - b)^2 = d^2
  lemma Completed(p: real, rate: real, w: real, d: real, low: real, high: real)
    requires ScaledBounds(rate, w, d, low, high)
    ensures var x := (1.0 + w) * p - (rate + w / 2.0); x * x - d * d == (1.0 + w) * Gap(p, rate, w)
  {
  }

  lemma Sides(rate: real, w: real, d: real, low: real, high: real)
    requires ScaledBounds(rate, w, d, low, high)
    ensures 1.0 + w > 0.0 && d >= 0.0
    ensures (1.0 + w) * low == rate + w / 2.0 - d && (1.0 + w) * high == rate + w / 2.0 + d
  {
  }

  lemma BetweenScaled(p: real, rate: real, w: real, d: real, low: real, high: real)
    requires ScaledBounds(rate, w, d, low, high)
    ensures Gap(p, rate, w) == 0.0 <==> p == low || p == high
    ensures Gap(p, rate, w) <= 0.0 <==> low <= p <= high
  {
    hide Gap, ScaledBounds;
    Sides(rate, w, d, low, high);
    Completed(p, rate, w, d, low, high);
    WithRoots(1.0 + w, rate + w / 2.0, d, p, low, high, (1.0 + w) * p - (rate + w / 2.0), Gap(p, rate, w));
  }

  /** The two bounds are exactly the solutions of n (rate - p)^2 = z^2 p (1 - p). */
  lemma BoundsAreRoots(p: real, rate: real, n: real, z: real, root: real)
    requires n > 0.0 && z > 0.0 && IsRoot(root, UnderRoot(rate, n, z))
    ensures Solves(p, rate, n, z) <==> p == Unclamped(rate, n, z, root).low || p == Unclamped(rate, n, z, root).high
  {
    hide Unclamped, Solves, Gap;
    Scaled(p, rate, n, z);
    Between(p, rate, n, z, root);
  }

  /** The rate lies between the bounds, and both lie in [0, 1], so cutting them changes nothing. */
  lemma BoundsHoldRate(rate: real, n: real, z: real, root: real)
    requires n > 0.0 && z > 0.0 && 0.0 <= rate <= 1.0 && IsRoot(root, UnderRoot(rate, n, z))
    ensures var bounds := Unclamped(rate, n, z, root); 0.0 <= bounds.low <= rate <= bounds.high <= 1.0
  {
    var bounds := Unclamped(rate, n, z, root);
    Multiplied(rate, n, z, root);
    HoldScaled(rate, z * z / n, z * root, bounds.low, bounds.high);
  }

  function Square(x: real): real {
    x * x
  }

  function Times(a: real, b: real): real {
    a * b
  }

  lemma CompletedAtEnds(rate: real, w: real, d: real, low: real, high: real)
    requires ScaledBounds(rate, w, d, low, high)
    ensures var s, b := 1.0 + w, rate + w / 2.0;
      && Square(b) - Square(d) == Times(s, Gap(0.0, rate, w))
      && Square(s - b) - Square(d) == Times(s, Gap(1.0, rate, w))
  {
    Completed(0.0, rate, w, d, low, high);
    Completed(1.0, rate, w, d, low, high);
    assert (1.0 + w) * 0.0 == 0.0 && (1.0 + w) * 1.0 == 1.0 + w;
    hide Gap, ScaledBounds;
  }

  lemma HoldScaled(rate: real, w: real, d: real, low: real, high: real)
    requires ScaledBounds(rate, w, d, low, high) && 0.0 <= rate <= 1.0
    ensures 0.0 <= low <= rate <= high <= 1.0
  {
    assert w > 0.0;
    hide Gap, ScaledBounds;
    GapAt(rate, w);
    BetweenScaled(rate, rate, w, d, low, high);
    UnitScaled(rate, w, d, low, high);
  }

  lemma UnitScaled(rate: real, w: real, d: real, low: real, high: real)
    requires ScaledBounds(rate, w, d, low, high) && 0.0 <= rate <= 1.0
    ensures 0.0 <= low && high <= 1.0
  {
    assert w > 0.0;
    hide Gap, ScaledBounds, Square, Times;
    GapAt(rate, w);
    Sides(rate, w, d, low, high);
    CompletedAtEnds(rate, w, d, low, high);
    InUnit(1.0 + w, rate + w / 2.0, d, low, high, Gap(0.0, rate, w), Gap(1.0, rate, w));
  }

  lemma GapAt(rate: real, w: real)
    requires 0.0 <= rate <= 1.0 && w > 0.0
    ensures Gap(rate, rate, w) <= 0.0 && Gap(0.0, rate, w) >= 0.0 && Gap(1.0, rate, w) >= 0.0
  {
    NotNegative(rate, 1.0 - rate);
    NotNegative(w, rate * (1.0 - rate));
    NotNegative(rate, rate);
    NotNegative(1.0 - rate, 1.0 - rate);
  }

  lemma InUnit(s: real, b: real, d: real, low: real, high: real, atZero: real, atOne: real)
    requires s > 0.0 && d >= 0.0 && 0.0 <= b <= s && s * low == b - d && s * high == b + d
    requires atZero >= 0.0 && atOne >= 0.0
    requires Square(b) - Square(d) == Times(s, atZero) && Square(s - b) - Square(d) == Times(s, atOne)
    ensures 0.0 <= low && high <= 1.0
  {
    NotNegative(s, atZero);
    NotNegative(s, atOne);
    SameSquares(d, b);
    SameSquares(d, s - b);
    Order(s, 0.0, low);
    Order(s, high, 1.0);
  }

  // moving the rate nearer to p lowers the gap
  lemma GapShift(p: real, rate: real, nearer: real, w: real)
    requires p - rate <= nearer - p <= rate - p || rate - p <= nearer - p <= p - rate
    ensures Gap(p, nearer, w) <= Gap(p, rate, w)
  {
    SameSquares(nearer - p, if rate < p then p - rate else rate - p);
  }

  /** More successes never lower either bound. */
  lemma BoundsGrow(rate: real, more: real, n: real, z: real, root: real, other: real)
    requires n > 0.0 && z > 0.0 && 0.0 <= rate <= more <= 1.0
    requires IsRoot(root, UnderRoot(rate, n, z)) && IsRoot(other, UnderRoot(more, n, z))
    ensures Unclamped(rate, n, z, root).low <= Unclamped(more, n, z, other).low
    ensures Unclamped(rate, n, z, root).high <= Unclamped(more, n, z, other).high
  {
    BoundsHoldRate(rate, n, z, root);
    BoundsHoldRate(more, n, z, other);
    hide Unclamped, UnderRoot, IsRoot, Gap;
    var w, high, low := z * z / n, Unclamped(rate, n, z, root).high, Unclamped(more, n, z, other).low;
    if more <= high {
      Between(high, rate, n, z, root);
      Between(high, more, n, z, other);
      GapShift(high, rate, more, w);
    }
    if low <= rate {
      Between(low, more, n, z, other);
      Between(low, rate, n, z, root);
      GapShift(low, more, rate, w);
    }
  }

  lemma NotNegative(a: real, b: real)
    requires a >= 0.0 && b >= 0.0
    ensures a * b >= 0.0
  {
  }

  /** The interval reported for some successes, whatever they are: the roots themselves, around the rate. */
  lemma WilsonIsUnclamped(successes: real, n: int, z: real, root: real)
    requires n >= 1 && 0.0 <= successes <= n as real && z > 0.0
    requires IsRoot(root, UnderRoot(successes / n as real, n as real, z))
    ensures Wilson(successes, n, z, root) == Ok(Unclamped(successes / n as real, n as real, z, root))
  {
    RateInUnit(successes, n as real);
    BoundsHoldRate(successes / n as real, n as real, z, root);
  }

  /** Only these arguments are refused: no trials, successes outside them, or a quantile that is not positive. */
  lemma WilsonRefuses(successes: real, n: int, z: real, root: real)
    ensures Wilson(successes, n, z, root) == Err(BadArguments)
       <==> n <= 0 || successes < 0.0 || n as real < successes || z <= 0.0
  {
  }

  lemma RateInUnit(a: real, n: real)
    requires n > 0.0 && 0.0 <= a <= n
    ensures 0.0 <= a / n <= 1.0
  {
  }
}

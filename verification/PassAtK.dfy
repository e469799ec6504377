/** The unbiased pass@k estimator, in exact arithmetic, and the k-subsets it counts. */
module PassAtK {
  import opened Outcomes
  import opened Powers

  /** The ways to choose k of n. */
  function Choose(n: nat, k: nat): nat
    decreases n, k
  {
    if k == 0 then 1
    else if n == 0 then 0
    else Choose(n - 1, k - 1) + Choose(n - 1, k)
  }

  /** pass@k of n samples of which c are correct; None when there are fewer than k samples. */
  function PassAtK(n: int, c: int, k: int): Result<Option<real>, StatError> {
    if k < 1 || !(0 <= c <= n) then Err(BadArguments)
    else if n < k then Ok(None)
    else if n - c < k then Ok(Some(1.0))
    else
      ChoosePositive(n, k);
      Ok(Some(1.0 - Choose(n - c, k) as real / Choose(n, k) as real))
  }

  lemma {:induction false} ChoosePositive(n: nat, k: nat)
    ensures Choose(n, k) > 0 <==> k <= n
    ensures Choose(n, 1) == n && Choose(n, 0) == 1
    decreases n, k
  {
    if n == 0 {
    } else {
      ChoosePositive(n - 1, k);
      if k > 0 {
        ChoosePositive(n - 1, k - 1);
      }
    }
  }

  /** Refused without a sample to draw or a count of correct ones that fits; unknown with fewer than k samples. */
  lemma PassRefuses(n: int, c: int, k: int)
    ensures PassAtK(n, c, k) == Err(BadArguments) <==> k <= 0 || c < 0 || n < c
    ensures PassAtK(n, c, k) == Ok(None) <==> k >= 1 && 0 <= c <= n < k
  {
  }

  // ----- the subsets

  function Subsets(s: set<nat>, k: nat): set<set<nat>> {
    set t | t <= s && |t| == k
  }

  // the k-subsets that hold a correct sample
  function Passing(samples: set<nat>, correct: set<nat>, k: nat): set<set<nat>> {
    set t | t in Subsets(samples, k) && t * correct != {}
  }

  function With(sets: set<set<nat>>, x: nat): set<set<nat>> {
    set t | t in sets :: t + {x}
  }

  lemma {:induction false} WithSize(sets: set<set<nat>>, x: nat)
    requires forall t | t in sets :: x !in t
    ensures |With(sets, x)| == |sets|
    decreases |sets|
  {
    if sets == {} {
      assert With(sets, x) == {};
    } else {
      var t :| t in sets;
      var rest := sets - {t};
      WithSize(rest, x);
      assert t + {x} !in With(rest, x) by {
        forall u | u in rest
          ensures u + {x} != t + {x}
        {
          assert (u + {x}) - {x} == u && (t + {x}) - {x} == t;
        }
      }
      assert With(sets, x) == With(rest, x) + {t + {x}};
    }
  }

  /** A set of n samples has Choose(n, k) subsets of size k. */
  lemma {:induction false} SubsetsCounted(s: set<nat>, k: nat)
    ensures |Subsets(s, k)| == Choose(|s|, k)
    decreases |s|
  {
    if k == 0 {
      assert Subsets(s, 0) == {{}} by {
        forall t | t <= s && |t| == 0
          ensures t == {}
        {
        }
      }
    } else if s == {} {
      assert Subsets(s, k) == {};
    } else {
      var x :| x in s;
      var rest := s - {x};
      SubsetsCounted(rest, k);
      SubsetsCounted(rest, k - 1);
      WithSize(Subsets(rest, k - 1), x);
      SubsetsSplit(s, x, k);
    }
  }

  lemma SubsetsSplit(s: set<nat>, x: nat, k: nat)
    requires x in s && k > 0
    ensures |Subsets(s, k)| == |Subsets(s - {x}, k)| + |With(Subsets(s - {x}, k - 1), x)|
  {
    var rest := s - {x};
    forall t
      ensures t in Subsets(s, k) <==> t in Subsets(rest, k) || t in With(Subsets(rest, k - 1), x)
      ensures t in Subsets(rest, k) ==> t !in With(Subsets(rest, k - 1), x)
    {
      SubsetSplits(s, x, k, t);
    }
    hide Subsets, With;
    assert Subsets(s, k) == Subsets(rest, k) + With(Subsets(rest, k - 1), x);
    assert Subsets(rest, k) !! With(Subsets(rest, k - 1), x);
  }

  // a subset either lacks x, or is a smaller one with x added
  lemma SubsetSplits(s: set<nat>, x: nat, k: nat, t: set<nat>)
    requires x in s && k > 0
    ensures t in With(Subsets(s - {x}, k - 1), x) <==> t in Subsets(s, k) && x in t
    ensures t in Subsets(s - {x}, k) <==> t in Subsets(s, k) && x !in t
  {
    if t in Subsets(s, k) && x in t {
      assert t - {x} in Subsets(s - {x}, k - 1) && t == (t - {x}) + {x};
    }
  }

  /** pass@k is the share of the k-subsets of the samples that hold a correct one. */
  lemma PassIsShare(samples: set<nat>, correct: set<nat>, k: nat)
    requires correct <= samples && 1 <= k <= |samples|
    ensures |Subsets(samples, k)| > 0
    ensures PassAtK(|samples|, |correct|, k)
         == Ok(Some(|Passing(samples, correct, k)| as real / |Subsets(samples, k)| as real))
  {
    var wrong := samples - correct;
    var all, none, some := Subsets(samples, k), Subsets(wrong, k), Passing(samples, correct, k);
    assert |wrong| == |samples| - |correct|;
    SubsetsCounted(samples, k);
    SubsetsCounted(wrong, k);
    ChoosePositive(|samples|, k);
    ChoosePositive(|wrong|, k);
    AvoidingAreWrong(samples, correct, k);
    assert |all| == |none| + |some|;
    Share(|all|, |none|, |some|);
  }

  lemma AvoidingAreWrong(samples: set<nat>, correct: set<nat>, k: nat)
    requires correct <= samples
    ensures |Subsets(samples, k)| == |Subsets(samples - correct, k)| + |Passing(samples, correct, k)|
  {
    var none, some := Subsets(samples - correct, k), Passing(samples, correct, k);
    forall t | t in Subsets(samples, k) && t * correct == {}
      ensures t in none
    {
      assert forall x | x in t && x in correct :: x in t * correct;
    }
    assert Subsets(samples, k) == none + some;
    assert none !! some;
  }

  lemma Share(all: nat, none: nat, some: nat)
    requires all == none + some && all > 0
    ensures 1.0 - none as real / all as real == some as real / all as real
  {
    Ratios(all as real, none as real, some as real);
  }

  lemma Ratios(all: real, none: real, some: real)
    requires all == none + some && all > 0.0
    ensures 1.0 - none / all == some / all
  {
    var x, y := none / all, some / all;
    assert x * all == none && y * all == some;
    var over := x + y - 1.0;
    assert over * all == 0.0;
    assert (over * all) / all == over;
  }

  lemma RatioBounds(a: nat, b: nat, c: nat, d: nat)
    requires b > 0 && d > 0
    ensures a * d <= c * b ==> a as real / b as real <= c as real / d as real
    ensures a <= b ==> 0.0 <= a as real / b as real <= 1.0
  {
    Crossed(a as real, b as real, c as real, d as real);
    Crossed(a as real, b as real, 1.0, 1.0);
    assert a * d <= c * b ==> a as real * d as real <= c as real * b as real;
  }

  lemma Crossed(a: real, b: real, c: real, d: real)
    requires a >= 0.0 && b > 0.0 && d > 0.0
    ensures a * d <= c * b ==> a / b <= c / d
    ensures a / b >= 0.0
  {
    var x, y := a / b, c / d;
    assert a == x * b && c == y * d;
    if x > y {
      assert x * b * d > y * d * b by {
        assert (x - y) * (b * d) > 0.0;
      }
    }
  }

  // ----- its laws

  lemma {:induction false} ChooseNext(m: nat, k: nat)
    ensures (k + 1) * Choose(m, k + 1) == (m - k) * Choose(m, k)
    decreases m, k
  {
    ChoosePositive(m, k);
    if m == 0 {
    } else if k == 0 {
      ChooseNext(m - 1, 0);
    } else {
      ChooseNext(m - 1, k);
      ChooseNext(m - 1, k - 1);
      NextFromBoth(m, k, Choose(m - 1, k), Choose(m - 1, k + 1), Choose(m - 1, k - 1));
    }
  }

  lemma NextFromBoth(m: int, k: int, p: int, q: int, r: int)
    requires (k + 1) * q == (m - 1 - k) * p && k * p == (m - k) * r
    ensures (k + 1) * (p + q) == (m - k) * (r + p)
  {
  }

  lemma {:induction false} ChooseGrows(m: nat, n: nat, k: nat)
    requires m <= n
    ensures Choose(m, k) <= Choose(n, k)
    decreases n
  {
    if m >= n {
    } else {
      ChooseGrows(m, n - 1, k);
    }
  }

  /** The share that avoids the correct samples does not grow with k. */
  lemma ChooseRatio(m: nat, n: nat, k: nat)
    requires m <= n
    ensures Choose(m, k + 1) * Choose(n, k) <= Choose(m, k) * Choose(n, k + 1)
  {
    var a, b, x, y := Choose(m, k), Choose(n, k), Choose(m, k + 1), Choose(n, k + 1);
    ChooseNext(m, k);
    ChooseNext(n, k);
    CrossChoose(k, m, n, a, b, x, y);
  }

  lemma CrossChoose(k: nat, m: nat, n: nat, a: nat, b: nat, x: nat, y: nat)
    requires m <= n && (k + 1) * x == (m - k) * a && (k + 1) * y == (n - k) * b
    ensures x * b <= a * y
  {
    MulAssoc(k + 1, x, b);
    MulAssoc(m - k, a, b);
    MulMonotone(m - k, n - k, a * b);
    Rotates(n - k, a, b);
    Rotates(k + 1, a, y);
    Cancels(k + 1, x * b, a * y);
  }

  lemma Rotates(c: int, a: int, b: int)
    ensures c * (a * b) == a * (c * b)
  {
  }

  lemma Cancels(c: int, a: int, b: int)
    requires c > 0 && c * a <= c * b
    ensures a <= b
  {
    if a > b {
      MulMonotone(b + 1, a, c);
    }
  }

  /** pass@k lies in [0, 1], is c/n at k = 1, and its shortcut is what the formula gives. */
  lemma PassBounds(n: nat, c: nat, k: nat)
    requires c <= n && 1 <= k <= n
    ensures Choose(n, k) > 0
    ensures var p := PassAtK(n, c, k);
      && p.Ok? && p.value.Some? && 0.0 <= p.value.value <= 1.0
      && p.value.value == 1.0 - Choose(n - c, k) as real / Choose(n, k) as real
      && (p.value.value == 1.0 <==> n - c < k)
      && (k == 1 ==> p.value.value == c as real / n as real)
  {
    ChoosePositive(n, k);
    ChoosePositive(n - c, k);
    ChooseGrows(n - c, n, k);
    RatioBounds(Choose(n - c, k), Choose(n, k), 0, 1);
    Crossed(1.0, Choose(n, k) as real, 0.0, 1.0);
    Share(n, n - c, c);
  }

  /** More correct samples never lower pass@k. */
  lemma PassGrowsWithCorrect(n: nat, c: nat, d: nat, k: nat)
    requires c <= d <= n && 1 <= k <= n
    ensures PassAtK(n, c, k).value.value <= PassAtK(n, d, k).value.value
  {
    PassBounds(n, c, k);
    PassBounds(n, d, k);
    ChooseGrows(n - d, n - c, k);
    MulMonotone(Choose(n - d, k), Choose(n - c, k), Choose(n, k));
    RatioBounds(Choose(n - d, k), Choose(n, k), Choose(n - c, k), Choose(n, k));
  }

  /** A larger k never lowers pass@k. */
  lemma {:induction false} PassGrowsWithK(n: nat, c: nat, j: nat, k: nat)
    requires c <= n && 1 <= j <= k <= n
    ensures PassAtK(n, c, j).value.value <= PassAtK(n, c, k).value.value
    decreases k
  {
    if j >= k {
    } else {
      PassGrowsWithK(n, c, j, k - 1);
      PassBounds(n, c, k - 1);
      PassBounds(n, c, k);
      ChooseRatio(n - c, n, k - 1);
      RatioBounds(Choose(n - c, k), Choose(n, k), Choose(n - c, k - 1), Choose(n, k - 1));
    }
  }
}

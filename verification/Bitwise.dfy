/** Shifts, masks, and the bitwise or and exclusive or of non-negative integers, one bit at a time. */
module Bitwise {
  import opened Powers

  // the right shift by k bits
  function Shr(n: nat, k: nat): nat
    decreases k, n
  {
    if k == 0 then n else Shr(n / 2, k - 1)
  }

  // the left shift by k bits
  function Shl(n: nat, k: nat): nat
    decreases k, n
  {
    if k == 0 then n else 2 * Shl(n, k - 1)
  }

  // the low k bits
  function Mask(n: nat, k: nat): nat
    decreases k, n
  {
    if k == 0 then 0 else 2 * Mask(n / 2, k - 1) + n % 2
  }

  function Xor(a: nat, b: nat): nat
    decreases a + b
  {
    if a == 0 && b == 0 then 0
    else 2 * Xor(a / 2, b / 2) + (if a % 2 == b % 2 then 0 else 1)
  }

  function Or(a: nat, b: nat): nat
    decreases a + b
  {
    if a == 0 && b == 0 then 0
    else 2 * Or(a / 2, b / 2) + (if a % 2 == 0 && b % 2 == 0 then 0 else 1)
  }

  // ----- shifts and masks

  lemma {:induction false} SplitAt(n: nat, k: nat)
    ensures Mask(n, k) < Pow2(k)
    ensures n == Shl(Shr(n, k), k) + Mask(n, k)
    decreases k
  {
    if k == 0 {
    } else {
      SplitAt(n / 2, k - 1);
    }
  }

  lemma {:induction false} JoinAt(high: nat, low: nat, k: nat)
    requires low < Pow2(k)
    ensures Shr(Shl(high, k) + low, k) == high && Mask(Shl(high, k) + low, k) == low
    decreases k
  {
    if k == 0 {
    } else {
      JoinAt(high, low / 2, k - 1);
      assert (Shl(high, k) + low) / 2 == Shl(high, k - 1) + low / 2;
    }
  }

  lemma {:induction false} ShrAdd(n: nat, j: nat, k: nat)
    ensures Shr(Shr(n, j), k) == Shr(n, j + k)
    decreases j
  {
    if j == 0 {
    } else {
      ShrAdd(n / 2, j - 1, k);
    }
  }

  lemma {:induction false} ShrBound(n: nat, j: nat, k: nat)
    requires n < Pow2(j + k)
    ensures Shr(n, k) < Pow2(j)
    decreases k
  {
    if k == 0 {
    } else {
      ShrBound(n / 2, j, k - 1);
    }
  }

  lemma {:induction false} ShlBound(n: nat, j: nat, k: nat)
    requires n < Pow2(j)
    ensures Shl(n, k) + Pow2(k) <= Pow2(j + k)
    decreases k
  {
    if k > 0 {
      ShlBound(n, j, k - 1);
    } else {
      assert Pow2(0) == 1;
    }
  }

  lemma {:induction false} ShrShrinks(n: nat, k: nat)
    ensures Shr(n, k) <= n
    decreases k
  {
    if k == 0 {
    } else {
      ShrShrinks(n / 2, k - 1);
    }
  }

  lemma {:induction false} MaskShl(n: nat, j: nat, k: nat)
    ensures Mask(Shl(n, k), j + k) == Shl(Mask(n, j), k)
    decreases k
  {
    if k == 0 {
    } else {
      MaskShl(n, j, k - 1);
      assert Shl(n, k) / 2 == Shl(n, k - 1);
    }
  }

  lemma {:induction false} MaskSmall(n: nat, k: nat)
    requires n < Pow2(k)
    ensures Mask(n, k) == n && Shr(n, k) == 0
    decreases k
  {
    if k == 0 {
    } else {
      MaskSmall(n / 2, k - 1);
    }
  }

  // ----- exclusive or

  lemma XorHalf(a: nat, b: nat)
    ensures Xor(a, b) / 2 == Xor(a / 2, b / 2)
    ensures Xor(a, b) % 2 == if a % 2 == b % 2 then 0 else 1
  {
  }

  lemma {:induction false} XorZero(a: nat)
    ensures Xor(a, 0) == a && Xor(0, a) == a && Xor(a, a) == 0
  {
    if a == 0 {
    } else {
      XorZero(a / 2);
    }
  }

  lemma {:induction false} XorCommutes(a: nat, b: nat)
    ensures Xor(a, b) == Xor(b, a)
    decreases a + b
  {
    if a + b == 0 {
    } else {
      XorCommutes(a / 2, b / 2);
    }
  }

  lemma {:induction false} XorAssociates(a: nat, b: nat, c: nat)
    ensures Xor(Xor(a, b), c) == Xor(a, Xor(b, c))
    decreases a + b + c
  {
    if a + b + c == 0 {
    } else {
      XorAssociates(a / 2, b / 2, c / 2);
      XorHalf(a, b);
      XorHalf(b, c);
      XorHalf(Xor(a, b), c);
      XorHalf(a, Xor(b, c));
    }
  }

  // a right shift passes through the exclusive or
  lemma {:induction false} XorShiftRight(a: nat, b: nat, k: nat)
    ensures Shr(Xor(a, b), k) == Xor(Shr(a, k), Shr(b, k))
    decreases k
  {
    if k == 0 {
    } else {
      XorHalf(a, b);
      XorShiftRight(a / 2, b / 2, k - 1);
    }
  }

  lemma {:induction false} XorBound(a: nat, b: nat, k: nat)
    requires a < Pow2(k) && b < Pow2(k)
    ensures Xor(a, b) < Pow2(k)
    decreases k
  {
    if k == 0 {
    } else {
      XorBound(a / 2, b / 2, k - 1);
      XorHalf(a, b);
    }
  }

  // ----- inclusive or

  lemma OrHalf(a: nat, b: nat)
    ensures Or(a, b) / 2 == Or(a / 2, b / 2)
    ensures Or(a, b) % 2 == if a % 2 == 0 && b % 2 == 0 then 0 else 1
  {
  }

  // an inclusive or of disjoint bit ranges is a sum
  lemma {:induction false} OrDisjoint(low: nat, high: nat, k: nat)
    requires low < Pow2(k)
    ensures Or(low, Shl(high, k)) == low + Shl(high, k)
    decreases k
  {
    if k == 0 {
      OrSame(high);
    } else {
      OrDisjoint(low / 2, high, k - 1);
      OrHalf(low, Shl(high, k));
      assert Shl(high, k) / 2 == Shl(high, k - 1);
    }
  }

  lemma {:induction false} OrSame(a: nat)
    ensures Or(0, a) == a && Or(a, a) == a
  {
    if a == 0 {
    } else {
      OrSame(a / 2);
    }
  }

  // a mask passes through the inclusive or
  lemma {:induction false} OrMask(a: nat, b: nat, k: nat)
    ensures Mask(Or(a, b), k) == Or(Mask(a, k), Mask(b, k))
    decreases k
  {
    OrHalf(a, b);
    OrHalf(0, 0);
    hide Or, Mask;
    MaskHalf(a, k);
    MaskHalf(b, k);
    MaskHalf(Or(a, b), k);
    if k == 0 {
    } else {
      OrMask(a / 2, b / 2, k - 1);
      OrHalf(Mask(a, k), Mask(b, k));
    }
  }

  lemma MaskHalf(n: nat, k: nat)
    ensures k == 0 ==> Mask(n, k) == 0
    ensures k > 0 ==> Mask(n, k) / 2 == Mask(n / 2, k - 1) && Mask(n, k) % 2 == n % 2
  {
  }
}

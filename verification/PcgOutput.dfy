/** The XSH-RR output of a PCG state: every output belongs to the same number of states. */
module PcgOutput {
  import opened Powers
  import opened Bitwise

  /** The output of a state: a xorshift of its high bits, rotated right by its top five. */
  function Output(s: nat): nat {
    var shifted := Mask(Shr(Xor(Shr(s, 18), s), 27), 32);
    var rotation := Shr(s, 59);
    Mask(Or(Shr(shifted, rotation), Shl(shifted, (32 - rotation % 32) % 32)), 32)
  }

  function Rotation(s: nat): nat {
    Shr(s, 59)
  }

  function LowBits(s: nat): nat {
    Mask(s, 27)
  }

  function XorShift(x: nat): nat {
    Xor(Shr(x, 18), x)
  }

  function UndoXorShift(y: nat): nat {
    Xor(y, Xor(Shr(y, 18), Shr(y, 36)))
  }

  function RotateRight(v: nat, r: nat): nat
    requires r <= 32
  {
    Shl(Mask(v, r), 32 - r) + Shr(v, r)
  }

  /** The one state with this rotation field, output, and low 27 bits. */
  function StateWith(rotation: nat, output: nat, low: nat): nat
    requires rotation <= 32
  {
    Shl(UndoXorShift(Shl(rotation, 32) + RotateRight(output, 32 - rotation)), 27) + low
  }

  lemma XorCancel(y: nat, c: nat)
    ensures Xor(c, Xor(y, c)) == y && Xor(Xor(y, c), c) == y
  {
    XorCommutes(y, c);
    XorAssociates(c, c, y);
    XorAssociates(y, c, c);
    XorZero(c);
    XorZero(y);
  }

  // the xorshift loses nothing: below 2^54 its three-term inverse gives the number back
  lemma UndoThenXorShift(y: nat)
    requires y < Pow2(54)
    ensures XorShift(UndoXorShift(y)) == y
  {
    hide Xor, Shr;
    var a, b := Shr(y, 18), Shr(y, 36);
    ShrAdd(y, 18, 18);
    ShrAdd(y, 36, 18);
    MaskSmall(y, 54);
    XorShiftRight(y, Xor(a, b), 18);
    XorShiftRight(a, b, 18);
    XorZero(b);
    XorCancel(y, Xor(a, b));
  }

  lemma XorShiftThenUndo(x: nat)
    requires x < Pow2(54)
    ensures UndoXorShift(XorShift(x)) == x
  {
    hide Xor, Shr;
    var a, b := Shr(x, 18), Shr(x, 36);
    ShrAdd(x, 18, 18);
    ShrAdd(x, 36, 18);
    MaskSmall(x, 54);
    XorShiftRight(a, x, 18);
    XorShiftRight(a, x, 36);
    ShrAdd(x, 18, 36);
    XorZero(b);
    XorCommutes(a, x);
    XorCancel(x, a);
    XorCommutes(a, b);
    XorCancel(a, b);
  }

  lemma XorShiftBound(x: nat, k: nat)
    requires x < Pow2(k)
    ensures XorShift(x) < Pow2(k) && UndoXorShift(x) < Pow2(k)
  {
    hide Xor, Shr;
    ShrShrinks(x, 18);
    ShrShrinks(x, 36);
    XorBound(Shr(x, 18), x, k);
    XorBound(Shr(x, 18), Shr(x, 36), k);
    XorBound(x, Xor(Shr(x, 18), Shr(x, 36)), k);
  }

  // the top five of 37 bits pass through the xorshift unchanged
  lemma XorShiftTop(x: nat)
    requires x < Pow2(37)
    ensures Shr(XorShift(x), 32) == Shr(x, 32)
  {
    hide Xor, Shr;
    XorShiftRight(Shr(x, 18), x, 32);
    ShrAdd(x, 18, 32);
    Pow2Monotone(37, 50);
    MaskSmall(x, 50);
    XorZero(Shr(x, 32));
  }

  // a rotation by r and one by the rest of the 32 bits undo each other
  lemma RotateUndone(v: nat, r: nat)
    requires r <= 32 && v < Pow2(32)
    ensures RotateRight(v, r) < Pow2(32)
    ensures RotateRight(RotateRight(v, r), 32 - r) == v
  {
    hide Shr, Shl, Mask, Pow2;
    SplitAt(v, r);
    ShrBound(v, 32 - r, r);
    ShlBound(Mask(v, r), r, 32 - r);
    JoinAt(Mask(v, r), Shr(v, r), 32 - r);
  }

  lemma RotationIsOr(v: nat, r: nat)
    requires v < Pow2(32) && r < 32
    ensures Mask(Or(Shr(v, r), Shl(v, (32 - r) % 32)), 32) == RotateRight(v, r)
  {
    hide Shr, Shl, Mask, Or, Pow2;
    if r == 0 {
      UnrotatedIsOr(v, 32);
    } else {
      PartialRotationIsOr(v, r, 32 - r, 32);
    }
  }

  lemma UnrotatedIsOr(v: nat, n: nat)
    requires v < Pow2(n)
    ensures Mask(Or(Shr(v, 0), Shl(v, 0)), n) == Shl(Mask(v, 0), n) + Shr(v, 0)
  {
    hide Or;
    OrSame(v);
    MaskSmall(v, n);
    ShlZero(n);
  }

  lemma PartialRotationIsOr(v: nat, r: nat, k: nat, n: nat)
    requires r + k == n && v < Pow2(n)
    ensures Mask(Or(Shr(v, r), Shl(v, k)), n) == Shl(Mask(v, r), k) + Shr(v, r)
  {
    hide *;
    ShrBound(v, k, r);
    Pow2Monotone(k, n);
    OrMask(Shr(v, r), Shl(v, k), n);
    MaskSmall(Shr(v, r), n);
    MaskShl(v, r, k);
    OrDisjoint(Shr(v, r), Mask(v, r), k);
  }

  lemma {:induction false} ShlZero(k: nat)
    ensures Shl(0, k) == 0
  {
    if k > 0 { ShlZero(k - 1); }
  }

  /** The output rotates 32 bits of the xorshift of the 37 high bits, by the rotation field. */
  lemma OutputRotates(s: nat)
    requires s < Pow2(64)
    ensures Rotation(s) < 32
    ensures Output(s) == RotateRight(Mask(XorShift(Shr(s, 27)), 32), Rotation(s))
  {
    hide Xor, Shr, Shl, Mask, Or, RotateRight, Pow2;
    var y := XorShift(Shr(s, 27));
    Pow2Five();
    ShrBound(s, 5, 59);
    XorShiftRight(Shr(s, 18), s, 27);
    ShrAdd(s, 18, 27);
    ShrAdd(s, 27, 18);
    SplitAt(y, 32);
    RotationIsOr(Mask(y, 32), Rotation(s));
  }

  lemma Pow2Five()
    ensures Pow2(5) == 32
  {
  }

  lemma HighBits(x: nat, low: nat)
    requires x < Pow2(37) && low < Pow2(27)
    ensures Shr(Shl(x, 27) + low, 27) == x && LowBits(Shl(x, 27) + low) == low
    ensures Rotation(Shl(x, 27) + low) == Shr(x, 32) == Shr(XorShift(x), 32)
    ensures Shl(x, 27) + low < Pow2(64)
  {
    hide Shr, Shl, Mask, XorShift, Pow2;
    JoinAt(x, low, 27);
    ShrAdd(Shl(x, 27) + low, 27, 32);
    XorShiftTop(x);
    ShlBound(x, 37, 27);
  }

  /** Each combination of a rotation field, a u32 output, and low 27 bits belongs to a state. */
  lemma StateWithSplits(rotation: nat, output: nat, low: nat)
    requires rotation < 32 && output < Pow2(32) && low < Pow2(27)
    ensures StateWith(rotation, output, low) < Pow2(64)
    ensures Rotation(StateWith(rotation, output, low)) == rotation
    ensures Output(StateWith(rotation, output, low)) == output
    ensures LowBits(StateWith(rotation, output, low)) == low
  {
    hide Shr, Shl, Mask, XorShift, UndoXorShift, RotateRight, Rotation, LowBits, Output, Pow2;
    var v := RotateRight(output, 32 - rotation);
    RotateUndone(output, 32 - rotation);
    var y := Shl(rotation, 32) + v;
    Pow2Five();
    ShlBound(rotation, 5, 32);
    JoinAt(rotation, v, 32);
    XorShiftBound(y, 37);
    Pow2Monotone(37, 54);
    UndoThenXorShift(y);
    HighBits(UndoXorShift(y), low);
    OutputRotates(StateWith(rotation, output, low));
  }

  /** And to no other: a state is made from its rotation field, output, and low bits. */
  lemma StateFromSplit(s: nat)
    requires s < Pow2(64)
    ensures Rotation(s) < 32 && Output(s) < Pow2(32) && LowBits(s) < Pow2(27)
    ensures StateWith(Rotation(s), Output(s), LowBits(s)) == s
  {
    hide Shr, Shl, Mask, XorShift, UndoXorShift, RotateRight, Output, Pow2;
    OutputRotates(s);
    var x := Shr(s, 27);
    SplitAt(s, 27);
    ShrBound(s, 37, 27);
    HighBits(x, LowBits(s));
    Pow2Monotone(37, 54);
    XorShiftThenUndo(x);
    SplitAt(XorShift(x), 32);
    RotateUndone(Mask(XorShift(x), 32), Rotation(s));
  }
}

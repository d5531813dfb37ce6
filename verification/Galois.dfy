/** Arithmetic in GF(2^w) as `galois.c` defines it: multiplication by 2 with reduction
    (`XTime`) and shift-and-add multiplication (`Mul`), for every word size and every
    reduction polynomial. */
module Galois {
  import opened Bits

  /** Word size and reduction polynomial (`prim_poly[w]`, with or without its top bit). */
  datatype Field = GF(w: nat, poly: nat) {

    predicate El(x: nat) { x < Pow2(w) }

    /** `y << 1`, then `(y ^ prim_poly[w]) & nwm1[w]` when the top bit of `y` was set. */
    function XTime(y: nat): nat
      requires w >= 1
    {
      if Bit(y, w - 1) then Xor(2 * y, poly) % Pow2(w) else 2 * y
    }

    /** The product of `x` and `y`: the sum of 2^i * y over the bits i of `x`. */
    function Mul(x: nat, y: nat): nat
      requires w >= 1
    {
      ShiftAndAdd(x, y)
    }

    function ShiftAndAdd(x: nat, y: nat): nat
      requires w >= 1
    {
      if x == 0 then 0
      else Xor(if x % 2 == 1 then y else 0, ShiftAndAdd(x / 2, XTime(y)))
    }

    /** `i`-fold multiplication by 2. */
    function XPow(i: nat, y: nat): nat
      requires w >= 1
    {
      if i == 0 then y else XPow(i - 1, XTime(y))
    }
  }

  ghost predicate HasInverse(F: Field, x: nat)
    requires F.w >= 1
  {
    exists y :: F.El(y) && F.Mul(x, y) == 1
  }

  /** Every non-zero element has an inverse: what the reduction polynomial has to provide. */
  ghost predicate IsField(F: Field) {
    F.w >= 1 && forall x :: F.El(x) && x != 0 ==> HasInverse(F, x)
  }

  // ----- multiplication by 2 is linear and stays in the field

  lemma TopBit(F: Field, y: nat)
    requires F.w >= 1 && F.El(y)
    ensures Bit(y, F.w - 1) <==> y >= Pow2(F.w - 1)
  {
    TopBitOf(y, F.w - 1);
  }

  lemma {:induction false} TopBitOf(y: nat, n: nat)
    requires y < 2 * Pow2(n)
    ensures Bit(y, n) <==> y >= Pow2(n)
  {
    if n > 0 { TopBitOf(y / 2, n - 1); }
  }

  lemma XTimeEl(F: Field, y: nat)
    requires F.w >= 1 && F.El(y)
    ensures F.El(F.XTime(y))
  {
    TopBit(F, y);
  }

  lemma XTimeSplit(F: Field, y: nat)
    requires F.w >= 1 && F.El(y)
    ensures F.XTime(y) == Xor(2 * y % Pow2(F.w), if Bit(y, F.w - 1) then F.poly % Pow2(F.w) else 0)
  {
    TopBit(F, y);
    var p, b := Pow2(F.w), Bit(y, F.w - 1);
    assert p == 2 * Pow2(F.w - 1);
    assert F.XTime(y) == if b then Xor(2 * y, F.poly) % p else 2 * y;
    hide *;
    XorMod(2 * y, F.poly, F.w);
    if !b {
      ModUnique(2 * y, p, 0, 2 * y);
      XorUnit(2 * y);
    }
  }

  lemma XTimeXor(F: Field, a: nat, b: nat)
    requires F.w >= 1 && F.El(a) && F.El(b)
    ensures F.XTime(Xor(a, b)) == Xor(F.XTime(a), F.XTime(b))
  {
    hide *;
    var p, q := Pow2(F.w), F.poly % Pow2(F.w);
    var ta, tb := Bit(a, F.w - 1), Bit(b, F.w - 1);
    assert F.El(Xor(a, b)) by { ElXor(F, a, b); }
    XTimeSplit(F, a);
    XTimeSplit(F, b);
    XTimeSplit(F, Xor(a, b));
    XorBit(a, b, F.w - 1);
    XorDouble(a, b);
    XorMod(2 * a, 2 * b, F.w);
    XorMedial(2 * a % p, if ta then q else 0, 2 * b % p, if tb then q else 0);
    XorUnit(q);
    XorUnit(0);
    XorSelf(q);
  }

  lemma ElXor(F: Field, a: nat, b: nat)
    requires F.El(a) && F.El(b)
    ensures F.El(Xor(a, b))
  {
    XorBound(a, b, F.w);
  }

  // ----- the ring laws of multiplication

  lemma {:induction false} MulEl(F: Field, x: nat, y: nat)
    requires F.w >= 1 && F.El(y)
    ensures F.El(F.Mul(x, y))
  {
    if x != 0 {
      XTimeEl(F, y);
      MulEl(F, x / 2, F.XTime(y));
      ElXor(F, if x % 2 == 1 then y else 0, F.Mul(x / 2, F.XTime(y)));
    }
  }

  lemma {:induction false} MulXorLeft(F: Field, a: nat, b: nat, y: nat)
    requires F.w >= 1
    ensures F.Mul(Xor(a, b), y) == Xor(F.Mul(a, y), F.Mul(b, y))
    decreases a + b
  {
    if a == 0 || b == 0 {
      XorUnit(F.Mul(a, y));
      XorUnit(F.Mul(b, y));
    } else {
      var t := F.XTime(y);
      MulXorLeft(F, a / 2, b / 2, t);
      XorHalves(a, b);
      MulStep(F, Xor(a, b), y);
      XorMedial(if a % 2 == 1 then y else 0, F.Mul(a / 2, t), if b % 2 == 1 then y else 0, F.Mul(b / 2, t));
      XorSelf(y);
    }
  }

  lemma MulStep(F: Field, x: nat, y: nat)
    requires F.w >= 1
    ensures F.Mul(x, y) == Xor(if x % 2 == 1 then y else 0, F.Mul(x / 2, F.XTime(y)))
  {
  }

  lemma {:induction false} MulXorRight(F: Field, x: nat, a: nat, b: nat)
    requires F.w >= 1 && F.El(a) && F.El(b)
    ensures F.Mul(x, Xor(a, b)) == Xor(F.Mul(x, a), F.Mul(x, b))
    decreases x
  {
    if x != 0 {
      XTimeEl(F, a);
      XTimeEl(F, b);
      XTimeXor(F, a, b);
      MulXorRight(F, x / 2, F.XTime(a), F.XTime(b));
      XorMedial(if x % 2 == 1 then a else 0, F.Mul(x / 2, F.XTime(a)),
                if x % 2 == 1 then b else 0, F.Mul(x / 2, F.XTime(b)));
    }
  }

  lemma {:induction false} MulXTime(F: Field, x: nat, y: nat)
    requires F.w >= 1 && F.El(y)
    ensures F.Mul(x, F.XTime(y)) == F.XTime(F.Mul(x, y))
    decreases x
  {
    XTimeZero(F);
    if x != 0 {
      XTimeEl(F, y);
      MulXTime(F, x / 2, F.XTime(y));
      MulEl(F, x / 2, F.XTime(y));
      XTimeXor(F, if x % 2 == 1 then y else 0, F.Mul(x / 2, F.XTime(y)));
    }
  }

  lemma XTimeZero(F: Field)
    requires F.w >= 1
    ensures F.XTime(0) == 0
  {
    ZeroBits(F.w - 1);
  }

  lemma MulOneLeft(F: Field, y: nat)
    requires F.w >= 1
    ensures F.Mul(1, y) == y
  {
    MulStep(F, 1, y);
    XorUnit(y);
  }

  lemma MulZeroLeft(F: Field, y: nat)
    requires F.w >= 1
    ensures F.Mul(0, y) == 0
  {
  }

  lemma {:induction false} MulZeroRight(F: Field, x: nat)
    requires F.w >= 1
    ensures F.Mul(x, 0) == 0
  {
    XTimeZero(F);
    if x != 0 { MulZeroRight(F, x / 2); }
  }

  /** The value built so far is the low bits of `x`; the bit weights are 2^i * y. */
  lemma {:induction false} MulOneRight(F: Field, x: nat)
    requires F.w >= 1 && F.El(x)
    ensures F.Mul(x, 1) == x
  {
    if x != 0 {
      var h := x / 2;
      MulOneRight(F, h);
      MulXTime(F, h, 1);
      TopBit(F, h);
      assert F.XTime(h) == 2 * h;
      XorLowBit(x);
    }
  }

  lemma XorLowBit(x: nat)
    ensures Xor(x % 2, 2 * (x / 2)) == x
  {
    XorUnit(x / 2);
  }

  lemma {:induction false} MulComm(F: Field, x: nat, y: nat)
    requires F.w >= 1 && F.El(x) && F.El(y)
    ensures F.Mul(x, y) == F.Mul(y, x)
    decreases x
  {
    if x == 0 {
      MulZeroRight(F, y);
    } else {
      var h, b := x / 2, x % 2;
      TopBit(F, h);
      assert F.El(h) && F.El(b) && F.XTime(h) == 2 * h;
      hide *;
      calc {
        F.Mul(y, x);
        { XorLowBit(x); MulXorRight(F, y, b, F.XTime(h)); XTimeEl(F, h); }
        Xor(F.Mul(y, b), F.Mul(y, F.XTime(h)));
        { MulXTime(F, y, h); MulXTime(F, h, y); MulComm(F, h, y); }
        Xor(F.Mul(y, b), F.Mul(h, F.XTime(y)));
        { MulOneRight(F, y); MulZeroRight(F, y); }
        Xor(if b == 1 then y else 0, F.Mul(h, F.XTime(y)));
        { MulStep(F, x, y); }
        F.Mul(x, y);
      }
    }
  }

  lemma {:induction false} MulAssoc(F: Field, x: nat, y: nat, z: nat)
    requires F.w >= 1 && F.El(x) && F.El(y) && F.El(z)
    ensures F.Mul(F.Mul(x, y), z) == F.Mul(x, F.Mul(y, z))
    decreases x
  {
    if x != 0 {
      var h, b, t := x / 2, if x % 2 == 1 then y else 0, F.XTime(y);
      assert F.El(h) && F.El(b);
      assert F.Mul(b, z) == if x % 2 == 1 then F.Mul(y, z) else 0;
      hide *;
      XTimeEl(F, y);
      calc {
        F.Mul(F.Mul(x, y), z);
        { MulStep(F, x, y); MulXorLeft(F, b, F.Mul(h, t), z); }
        Xor(F.Mul(b, z), F.Mul(F.Mul(h, t), z));
        { MulAssoc(F, h, t, z); }
        Xor(F.Mul(b, z), F.Mul(h, F.Mul(t, z)));
        { MulComm(F, t, z); MulXTime(F, z, y); MulComm(F, z, y); }
        Xor(F.Mul(b, z), F.Mul(h, F.XTime(F.Mul(y, z))));
        { MulStep(F, x, F.Mul(y, z)); }
        F.Mul(x, F.Mul(y, z));
      }
    }
  }

  // ----- inverses

  lemma InverseUnique(F: Field, x: nat, y: nat, z: nat)
    requires F.w >= 1 && F.El(x) && F.El(y) && F.El(z)
    requires F.Mul(x, y) == 1 && F.Mul(x, z) == 1
    ensures y == z
  {
    hide *;
    calc {
      y;
      { MulOneRight(F, y); }
      F.Mul(y, F.Mul(x, z));
      { MulAssoc(F, y, x, z); MulComm(F, y, x); }
      F.Mul(1, z);
      { MulOneLeft(F, z); }
      z;
    }
  }

  /** The quotient 1 / x, whichever way the code computes it. */
  function Inv(F: Field, x: nat): (y: nat)
    requires IsField(F) && F.El(x) && x != 0
    ensures F.El(y) && F.Mul(x, y) == 1
  {
    assert HasInverse(F, x);
    assert forall y, z :: F.El(y) && F.El(z) && F.Mul(x, y) == 1 && F.Mul(x, z) == 1 ==> y == z by {
      forall y, z | F.El(y) && F.El(z) && F.Mul(x, y) == 1 && F.Mul(x, z) == 1 ensures y == z {
        InverseUnique(F, x, y, z);
      }
    }
    var y: nat :| y < Pow2(F.w) && F.Mul(x, y) == 1;
    y
  }

  /** `galois_single_divide(a, b, w)` for a divisor that is not zero. */
  function Div(F: Field, a: nat, b: nat): (q: nat)
    requires IsField(F) && F.El(a) && F.El(b) && b != 0
    ensures F.El(q) && F.Mul(b, q) == a
  {
    DivIsQuotient(F, a, b);
    F.Mul(a, Inv(F, b))
  }

  lemma DivIsQuotient(F: Field, a: nat, b: nat)
    requires IsField(F) && F.El(a) && F.El(b) && b != 0
    ensures F.El(F.Mul(a, Inv(F, b))) && F.Mul(b, F.Mul(a, Inv(F, b))) == a
  {
    var i := Inv(F, b);
    hide *;
    MulEl(F, a, i);
    calc {
      F.Mul(b, F.Mul(a, i));
      { MulComm(F, a, i); }
      F.Mul(b, F.Mul(i, a));
      { MulAssoc(F, b, i, a); }
      F.Mul(1, a);
      { MulOneLeft(F, a); }
      a;
    }
  }

  lemma MulNonzero(F: Field, x: nat, y: nat)
    requires IsField(F) && F.El(x) && F.El(y)
    ensures F.Mul(x, y) == 0 <==> x == 0 || y == 0
  {
    MulZeroRight(F, x);
    if x != 0 && F.Mul(x, y) == 0 {
      var i := Inv(F, x);
      assert F.Mul(0, y) == 0;
      hide *;
      calc {
        y;
        { MulOneLeft(F, y); }
        F.Mul(F.Mul(x, i), y);
        { MulComm(F, x, i); MulAssoc(F, i, x, y); }
        F.Mul(i, 0);
        { MulZeroRight(F, i); }
        0;
      }
    }
  }
}

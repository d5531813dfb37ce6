/** `galois_shift_multiply`: the scratch-array loop that every other multiplication of
    `galois.c` is measured against. */
module GaloisMultiply {
  import opened Bits
  import opened Galois

  lemma {:induction false} XPowStep(F: Field, i: nat, y: nat)
    requires F.w >= 1
    ensures F.XPow(i + 1, y) == F.XTime(F.XPow(i, y))
  {
    if i > 0 { XPowStep(F, i - 1, F.XTime(y)); }
  }

  lemma {:induction false} XPowEl(F: Field, i: nat, y: nat)
    requires F.w >= 1 && F.El(y)
    ensures F.El(F.XPow(i, y))
  {
    if i > 0 {
      XTimeEl(F, y);
      XPowEl(F, i - 1, F.XTime(y));
    }
  }

  lemma {:induction false} MulPow2(F: Field, i: nat, y: nat)
    requires F.w >= 1
    ensures F.Mul(Pow2(i), y) == F.XPow(i, y)
  {
    if i > 0 { MulPow2(F, i - 1, F.XTime(y)); } else { MulOneLeft(F, y); }
  }

  /** Processing one more bit of `x`. */
  lemma MulLowBits(F: Field, x: nat, y: nat, i: nat)
    requires F.w >= 1
    ensures F.Mul(x % Pow2(i + 1), y) == Xor(F.Mul(x % Pow2(i), y), if Bit(x, i) then F.XPow(i, y) else 0)
  {
    assert F.Mul(0, y) == 0;
    hide *;
    LowBitsStep(x, i);
    AndPow2(i, x);
    MulXorLeft(F, x % Pow2(i), And(Pow2(i), x), y);
    MulPow2(F, i, y);
  }

  /** The innermost loop: the `w` bits of `s` are added to `prod` one at a time. */
  method AddBits(prod: nat, s: nat, w: nat) returns (r: nat)
    requires s < Pow2(w)
    ensures r == Xor(prod, s)
  {
    r := prod;
    XorUnit(prod);
    var j: nat, k: nat := 1, 0;
    assert s % 1 == 0 && Pow2(0) == 1;
    hide Xor, And;
    while k < w
      invariant 0 <= k <= w && j == Pow2(k)
      invariant r == Xor(prod, s % Pow2(k))
    {
      LowBitsStep(s, k);
      XorAssoc(prod, s % Pow2(k), And(j, s));
      r := Xor(r, And(j, s));
      j := j * 2;
      k := k + 1;
    }
    SmallMod(s, w);
  }

  /** Shift left by one bit and reduce. */
  method Double(F: Field, y: nat) returns (r: nat)
    requires F.w >= 1 && F.El(y)
    ensures r == F.XTime(y) && F.El(r) && r < Pow2(F.w)
  {
    XTimeEl(F, y);
    if Bit(y, F.w - 1) {
      r := y * 2;
      r := Xor(r, F.poly) % Pow2(F.w);
    } else {
      r := y * 2;
    }
  }

  method ShiftMultiply(F: Field, x: nat, y0: nat) returns (prod: nat)
    requires F.w >= 1 && F.El(x) && F.El(y0)
    ensures prod == F.Mul(x, y0)
  {
    assert F.Mul(x % Pow2(0), y0) == 0 && F.XPow(0, y0) == y0 && x < Pow2(F.w) && y0 < Pow2(F.w);
    hide *;
    prod := 0;
    var y: nat := y0;
    var scratch := new nat[F.w];
    var i := 0;
    while i < F.w
      invariant 0 <= i <= F.w && F.El(y) && y < Pow2(F.w) && y == F.XPow(i, y0)
      invariant forall l :: 0 <= l < i ==> scratch[l] == F.XPow(l, y0) && scratch[l] < Pow2(F.w)
    {
      scratch[i] := y;
      XPowStep(F, i, y0);
      y := Double(F, y);
      i := i + 1;
    }
    i := 0;
    while i < F.w
      invariant 0 <= i <= F.w
      invariant prod == F.Mul(x % Pow2(i), y0)
      invariant forall l :: 0 <= l < F.w ==> scratch[l] == F.XPow(l, y0) && scratch[l] < Pow2(F.w)
    {
      MulLowBits(F, x, y0, i);
      XorUnit(prod);
      if Bit(x, i) {
        prod := AddBits(prod, scratch[i], F.w);
      }
      i := i + 1;
    }
    SmallMod(x, F.w);
  }
}

/** Vectors and matrices over GF(2^w): inner products and what row operations do to them. */
module LinearAlgebra {
  import opened Bits
  import opened Galois

  type Row = seq<nat>

  ghost predicate Elements(F: Field, a: Row) {
    forall j :: 0 <= j < |a| ==> F.El(a[j])
  }

  ghost predicate Vec(F: Field, x: Row, n: nat) { |x| == n && Elements(F, x) }

  ghost predicate Matrix(F: Field, M: seq<Row>, m: nat, n: nat) {
    |M| == m && forall i :: 0 <= i < m ==> Vec(F, M[i], n)
  }

  /** The inner product of the first `n` entries. */
  ghost function Dot(F: Field, a: Row, x: Row, n: nat): nat
    requires F.w >= 1 && n <= |a| && n <= |x|
  {
    SumOfProducts(F, a, x, n)
  }

  ghost function SumOfProducts(F: Field, a: Row, x: Row, n: nat): nat
    requires F.w >= 1 && n <= |a| && n <= |x|
  {
    if n == 0 then 0 else Xor(SumOfProducts(F, a, x, n - 1), F.Mul(a[n - 1], x[n - 1]))
  }

  lemma DotStep(F: Field, a: Row, x: Row, n: nat)
    requires F.w >= 1 && 1 <= n <= |a| && n <= |x|
    ensures Dot(F, a, x, n) == Xor(Dot(F, a, x, n - 1), F.Mul(a[n - 1], x[n - 1]))
  {
  }

  /** The matrix-vector product. */
  ghost function Apply(F: Field, M: seq<Row>, x: Row): (y: Row)
    requires F.w >= 1 && Matrix(F, M, |M|, |x|)
    ensures |y| == |M| && forall i :: 0 <= i < |M| ==> y[i] == Dot(F, M[i], x, |x|)
  {
    seq(|M|, i requires 0 <= i < |M| => Dot(F, M[i], x, |x|))
  }

  lemma {:induction false} DotEl(F: Field, a: Row, x: Row, n: nat)
    requires F.w >= 1 && n <= |a| && n <= |x| && Elements(F, x)
    ensures F.El(Dot(F, a, x, n))
  {
    if n > 0 {
      DotEl(F, a, x, n - 1);
      MulEl(F, a[n - 1], x[n - 1]);
      ElXor(F, Dot(F, a, x, n - 1), F.Mul(a[n - 1], x[n - 1]));
    }
  }

  lemma ApplyVec(F: Field, M: seq<Row>, x: Row)
    requires F.w >= 1 && Matrix(F, M, |M|, |x|) && Elements(F, x)
    ensures Vec(F, Apply(F, M, x), |M|)
  {
    forall i | 0 <= i < |M| ensures F.El(Apply(F, M, x)[i]) { DotEl(F, M[i], x, |x|); }
  }

  /** Adding `t` times a row adds `t` times its inner product. */
  lemma {:induction false} DotAxpy(F: Field, t: nat, a: Row, b: Row, c: Row, x: Row, n: nat)
    requires F.w >= 1 && n <= |a| && n <= |b| && n <= |c| && n <= |x|
    requires F.El(t) && Elements(F, a) && Elements(F, x)
    requires forall j :: 0 <= j < n ==> c[j] == Xor(b[j], F.Mul(t, a[j]))
    ensures Dot(F, c, x, n) == Xor(Dot(F, b, x, n), F.Mul(t, Dot(F, a, x, n)))
  {
    if n == 0 {
      MulZeroRight(F, t);
    } else {
      DotAxpy(F, t, a, b, c, x, n - 1);
      var a', b', c', x' := a[n - 1], b[n - 1], c[n - 1], x[n - 1];
      var da, db := Dot(F, a, x, n - 1), Dot(F, b, x, n - 1);
      assert F.El(a') && F.El(x') && c' == Xor(b', F.Mul(t, a'));
      DotEl(F, a, x, n - 1);
      assert Dot(F, a, x, n) == Xor(da, F.Mul(a', x')) && Dot(F, b, x, n) == Xor(db, F.Mul(b', x'));
      assert Dot(F, c, x, n) == Xor(Xor(db, F.Mul(t, da)), F.Mul(c', x'));
      hide *;
      MulXorLeft(F, b', F.Mul(t, a'), x');
      MulAssoc(F, t, a', x');
      MulEl(F, a', x');
      MulXorRight(F, t, da, F.Mul(a', x'));
      XorMedial(db, F.Mul(t, da), F.Mul(b', x'), F.Mul(t, F.Mul(a', x')));
    }
  }

  lemma {:induction false} DotScale(F: Field, t: nat, a: Row, c: Row, x: Row, n: nat)
    requires F.w >= 1 && n <= |a| && n <= |c| && n <= |x|
    requires F.El(t) && Elements(F, a) && Elements(F, x)
    requires forall j :: 0 <= j < n ==> c[j] == F.Mul(t, a[j])
    ensures Dot(F, c, x, n) == F.Mul(t, Dot(F, a, x, n))
  {
    var zero := seq(|c|, _ => 0);
    forall j | 0 <= j < n ensures c[j] == Xor(zero[j], F.Mul(t, a[j])) { XorUnit(c[j]); }
    DotAxpy(F, t, a, zero, c, x, n);
    DotZero(F, zero, x, n);
    XorUnit(F.Mul(t, Dot(F, a, x, n)));
  }

  lemma {:induction false} DotZero(F: Field, a: Row, x: Row, n: nat)
    requires F.w >= 1 && n <= |a| && n <= |x|
    requires forall j :: 0 <= j < n ==> a[j] == 0 || x[j] == 0
    ensures Dot(F, a, x, n) == 0
  {
    if n > 0 {
      DotZero(F, a, x, n - 1);
      MulZeroRight(F, a[n - 1]);
    }
  }

  lemma {:induction false} DotUnit(F: Field, a: Row, x: Row, p: nat, n: nat)
    requires F.w >= 1 && n <= |a| && n <= |x| && p < n
    requires forall j :: 0 <= j < n ==> a[j] == if j == p then 1 else 0
    ensures Dot(F, a, x, n) == x[p]
  {
    if p == n - 1 {
      DotZero(F, a, x, n - 1);
      MulOneLeft(F, x[p]);
    } else {
      DotUnit(F, a, x, p, n - 1);
      XorUnit(x[p]);
    }
  }

  lemma {:induction false} DotSame(F: Field, a: Row, b: Row, x: Row, y: Row, n: nat)
    requires F.w >= 1 && n <= |a| && n <= |b| && n <= |x| && n <= |y|
    requires forall j :: 0 <= j < n ==> a[j] == b[j] && x[j] == y[j]
    ensures Dot(F, a, x, n) == Dot(F, b, y, n)
  {
    if n > 0 { DotSame(F, a, b, x, y, n - 1); }
  }

  /** Filling in an entry that was zero. */
  lemma {:induction false} DotFill(F: Field, a: Row, x: Row, j: nat, v: nat, n: nat)
    requires F.w >= 1 && n <= |a| && n <= |x| && j < |x| && x[j] == 0
    ensures Dot(F, a, x[j := v], n) == Xor(Dot(F, a, x, n), if j < n then F.Mul(a[j], v) else 0)
  {
    if n > 0 {
      DotFill(F, a, x, j, v, n - 1);
      XorUnit(Dot(F, a, x, n));
      if j == n - 1 {
        DotSame(F, a, a, x, x[j := v], n - 1);
        MulZeroRight(F, a[j]);
        XorUnit(Dot(F, a, x, n - 1));
      } else if j < n - 1 {
        var d, p, q := Dot(F, a, x, n - 1), F.Mul(a[j], v), F.Mul(a[n - 1], x[n - 1]);
        XorAssoc(d, p, q);
        XorComm(p, q);
        XorAssoc(d, q, p);
      }
    }
  }
}

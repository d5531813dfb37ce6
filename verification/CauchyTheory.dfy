/** Why Cauchy matrices cannot be singular: a kernel vector of the matrix 1 / (x + y) is zero,
    for any set of row values x and distinct column values y, none of them in common. */
module CauchyTheory {
  import opened Bits
  import opened Galois
  import opened LinearAlgebra

  /** A set of at least `|ys|` row values, and distinct column values that are no row values. */
  ghost predicate CauchyPoints(F: Field, xs: set<nat>, ys: seq<nat>) {
    && |xs| >= |ys|
    && (forall x :: x in xs ==> F.El(x) && x !in ys)
    && Elements(F, ys)
    && forall i, j :: 0 <= i < j < |ys| ==> ys[i] != ys[j]
  }

  ghost function Sum(vs: Row, n: nat): nat
    requires n <= |vs|
  {
    if n == 0 then 0 else Xor(Sum(vs, n - 1), vs[n - 1])
  }

  lemma MulSwap(F: Field, a: nat, b: nat, c: nat)
    requires F.w >= 1 && F.El(a) && F.El(b) && F.El(c)
    ensures F.Mul(a, F.Mul(b, c)) == F.Mul(b, F.Mul(a, c))
  {
    hide *;
    MulAssoc(F, a, b, c);
    MulAssoc(F, b, a, c);
    MulComm(F, a, b);
  }

  lemma XorSplit(x: nat, y: nat, e: nat)
    ensures Xor(Xor(x, y), Xor(y, e)) == Xor(x, e)
    ensures Xor(Xor(x, y), Xor(e, y)) == Xor(x, e)
  {
    hide *;
    XorAssoc(x, y, Xor(y, e));
    XorCancel(y, e);
    XorComm(y, e);
  }

  /** a * (v / a) is v. */
  lemma MulRecip(F: Field, a: nat, v: nat, r: nat)
    requires F.w >= 1 && F.El(a) && F.El(v) && F.El(r) && F.Mul(a, r) == 1
    ensures F.Mul(a, F.Mul(v, r)) == v
  {
    hide *;
    MulSwap(F, a, v, r);
    MulOneRight(F, v);
  }

  /** (x + e) * v / (x + y) is v plus v * (y + e) / (x + y). */
  lemma ShiftTerm(F: Field, x: nat, y: nat, e: nat, v: nat, r: nat)
    requires F.w >= 1 && F.El(x) && F.El(y) && F.El(e) && F.El(v) && F.El(r) && F.Mul(Xor(x, y), r) == 1
    ensures F.Mul(Xor(x, e), F.Mul(v, r)) == Xor(v, F.Mul(F.Mul(v, Xor(y, e)), r))
  {
    hide *;
    ElXor(F, x, y);
    ElXor(F, y, e);
    XorSplit(x, y, e);
    MulXorLeft(F, Xor(x, y), Xor(y, e), F.Mul(v, r));
    MulRecip(F, Xor(x, y), v, r);
    assert F.Mul(Xor(y, e), F.Mul(v, r)) == F.Mul(F.Mul(v, Xor(y, e)), r) by {
      MulAssoc(F, Xor(y, e), v, r);
      MulComm(F, Xor(y, e), v);
    }
  }

  lemma ShiftSumStep(F: Field, d: nat, s: nat, t: nat, a: nat, b: nat, v: nat, u: nat)
    requires F.w >= 1 && F.El(s) && F.El(t)
    requires F.Mul(d, s) == Xor(a, b) && F.Mul(d, t) == Xor(v, u)
    ensures F.Mul(d, Xor(s, t)) == Xor(Xor(a, v), Xor(b, u))
  {
    hide *;
    MulXorRight(F, d, s, t);
    XorMedial(a, b, v, u);
  }

  /** u / (x + y) + u / (z + y) is (x + z) * (u / (z + y)) / (x + y). */
  lemma DifferenceTerm(F: Field, x: nat, z: nat, y: nat, u: nat, r: nat, q: nat)
    requires F.w >= 1 && F.El(x) && F.El(z) && F.El(y) && F.El(u) && F.El(r) && F.El(q)
    requires F.Mul(Xor(x, y), r) == 1 && F.Mul(Xor(z, y), q) == 1
    ensures F.Mul(Xor(x, z), F.Mul(F.Mul(u, q), r)) == Xor(F.Mul(u, r), F.Mul(u, q))
  {
    hide *;
    var a, b, uq := Xor(x, y), Xor(z, y), F.Mul(u, q);
    ElXor(F, x, y);
    ElXor(F, z, y);
    MulEl(F, u, q);
    XorSplit(x, y, z);
    MulXorLeft(F, a, b, F.Mul(uq, r));
    MulRecip(F, a, uq, r);
    assert F.Mul(b, F.Mul(uq, r)) == F.Mul(u, r) by {
      MulAssoc(F, b, uq, r);
      MulRecip(F, b, u, q);
    }
    XorComm(uq, F.Mul(u, r));
  }

  /** `rs` holds the reciprocals 1 / (x + y[j]). */
  ghost predicate AreRecips(F: Field, x: nat, ys: seq<nat>, rs: Row)
    requires F.w >= 1
  {
    && |rs| == |ys| && Elements(F, ys) && Elements(F, rs) && F.El(x)
    && forall j :: 0 <= j < |ys| ==> F.Mul(Xor(x, ys[j]), rs[j]) == 1
  }

  lemma {:induction false} ShiftSum(F: Field, x: nat, ys: seq<nat>, rs: Row, e: nat, vs: Row, us: Row, n: nat)
    requires F.w >= 1 && AreRecips(F, x, ys, rs) && F.El(e) && Elements(F, vs)
    requires n <= |ys| && |vs| == |us| == |ys|
    requires forall j :: 0 <= j < n ==> us[j] == F.Mul(vs[j], Xor(ys[j], e))
    ensures F.Mul(Xor(x, e), Dot(F, vs, rs, n)) == Xor(Sum(vs, n), Dot(F, us, rs, n))
  {
    if n == 0 {
      MulZeroRight(F, Xor(x, e));
    } else {
      ShiftSum(F, x, ys, rs, e, vs, us, n - 1);
      var y, v, r := ys[n - 1], vs[n - 1], rs[n - 1];
      assert F.El(x) && F.El(y) && F.El(v) && F.El(r) && F.El(Dot(F, vs, rs, n - 1)) && F.Mul(Xor(x, y), r) == 1 by {
        DotEl(F, vs, rs, n - 1);
      }
      assert us[n - 1] == F.Mul(v, Xor(y, e)) && Sum(vs, n) == Xor(Sum(vs, n - 1), v);
      hide *;
      ShiftTerm(F, x, y, e, v, r);
      MulEl(F, v, r);
      DotStep(F, vs, rs, n);
      DotStep(F, us, rs, n);
      ShiftSumStep(F, Xor(x, e), Dot(F, vs, rs, n - 1), F.Mul(v, r), Sum(vs, n - 1), Dot(F, us, rs, n - 1),
                   v, F.Mul(us[n - 1], r));
    }
  }

  lemma {:induction false} DifferenceSum(F: Field, x: nat, z: nat, ys: seq<nat>, rs: Row, qs: Row, us: Row, ts: Row, n: nat)
    requires F.w >= 1 && AreRecips(F, x, ys, rs) && AreRecips(F, z, ys, qs) && Elements(F, us) && Elements(F, ts)
    requires n <= |ys| && n <= |us| && n <= |ts|
    requires forall j :: 0 <= j < n ==> ts[j] == F.Mul(us[j], qs[j])
    ensures F.Mul(Xor(x, z), Dot(F, ts, rs, n)) == Xor(Dot(F, us, rs, n), Dot(F, us, qs, n))
  {
    if n == 0 {
      MulZeroRight(F, Xor(x, z));
    } else {
      DifferenceSum(F, x, z, ys, rs, qs, us, ts, n - 1);
      var y, u, r, q, t := ys[n - 1], us[n - 1], rs[n - 1], qs[n - 1], ts[n - 1];
      assert F.El(x) && F.El(z) && F.El(Dot(F, ts, rs, n - 1)) && F.El(u) && F.El(r) && F.El(q) && F.El(y) && F.El(t) by {
        DotEl(F, ts, rs, n - 1);
      }
      assert t == F.Mul(u, q) && F.Mul(Xor(x, y), r) == 1 && F.Mul(Xor(z, y), q) == 1;
      hide *;
      DifferenceTerm(F, x, z, y, u, r, q);
      MulEl(F, t, r);
      DotStep(F, ts, rs, n);
      DotStep(F, us, rs, n);
      DotStep(F, us, qs, n);
      ShiftSumStep(F, Xor(x, z), Dot(F, ts, rs, n - 1), F.Mul(t, r),
                   Dot(F, us, rs, n - 1), Dot(F, us, qs, n - 1), F.Mul(u, r), F.Mul(u, q));
    }
  }

  /** One elimination step: the last column value and one row value are used up. */
  lemma ReduceRow(F: Field, x: nat, z: nat, ys: seq<nat>, rs: Row, qs: Row, vs: Row, us: Row, ts: Row, n: nat)
    requires IsField(F) && x != z && |ys| == |vs| == |us| == |ts| == n > 0
    requires AreRecips(F, x, ys, rs) && AreRecips(F, z, ys, qs) && Elements(F, vs) && Elements(F, us) && Elements(F, ts)
    requires forall j :: 0 <= j < n ==> us[j] == F.Mul(vs[j], Xor(ys[j], ys[n - 1])) && ts[j] == F.Mul(us[j], qs[j])
    requires Dot(F, vs, rs, n) == 0 && Dot(F, vs, qs, n) == 0
    ensures Dot(F, ts, rs, n - 1) == 0
  {
    var e := ys[n - 1];
    ShiftSum(F, x, ys, rs, e, vs, us, n);
    ShiftSum(F, z, ys, qs, e, vs, us, n);
    DifferenceSum(F, x, z, ys, rs, qs, us, ts, n);
    DotEl(F, ts, rs, n);
    assert us[n - 1] == 0 by { XorSelf(e); MulZeroRight(F, vs[n - 1]); }
    assert ts[n - 1] == 0 by { MulZeroLeft(F, qs[n - 1]); }
    assert F.El(x) && F.El(z);
    hide *;
    MulZeroRight(F, Xor(x, e));
    MulZeroRight(F, Xor(z, e));
    XorZero(Sum(vs, n), Dot(F, us, rs, n));
    XorZero(Sum(vs, n), Dot(F, us, qs, n));
    XorSelf(Sum(vs, n));
    ElXor(F, x, z);
    XorZero(x, z);
    MulNonzero(F, Xor(x, z), Dot(F, ts, rs, n));
    DotStep(F, ts, rs, n);
    MulZeroLeft(F, rs[n - 1]);
    XorUnit(Dot(F, ts, rs, n - 1));
  }

  /** The reduced coefficients are zero only where the original ones are. */
  lemma ReducedZero(F: Field, v: nat, y: nat, e: nat, q: nat, z: nat)
    requires IsField(F) && F.El(v) && F.El(y) && F.El(e) && F.El(q) && F.El(z) && y != e
    requires F.Mul(Xor(z, y), q) == 1 && F.Mul(F.Mul(v, Xor(y, e)), q) == 0
    ensures v == 0
  {
    var d := Xor(y, e);
    ElXor(F, y, e);
    XorZero(y, e);
    MulEl(F, v, d);
    MulNonzero(F, F.Mul(v, d), q);
    MulNonzero(F, v, d);
    MulZeroRight(F, Xor(z, y));
  }

  /** The coefficients of the reduced system. */
  lemma Reduce(F: Field, ys: seq<nat>, vs: Row, qs: Row, n: nat) returns (us: Row, ts: Row)
    requires F.w >= 1 && |ys| == |vs| == |qs| == n > 0 && Elements(F, ys) && Elements(F, vs) && Elements(F, qs)
    ensures |us| == |ts| == n && Elements(F, us) && Elements(F, ts)
    ensures forall j :: 0 <= j < n ==> us[j] == F.Mul(vs[j], Xor(ys[j], ys[n - 1])) && ts[j] == F.Mul(us[j], qs[j])
  {
    us := seq(n, j requires 0 <= j < n => F.Mul(vs[j], Xor(ys[j], ys[n - 1])));
    ts := seq(n, j requires 0 <= j < n => F.Mul(us[j], qs[j]));
    forall j | 0 <= j < n ensures F.El(us[j]) && F.El(ts[j]) {
      ElXor(F, ys[j], ys[n - 1]);
      MulEl(F, vs[j], Xor(ys[j], ys[n - 1]));
      MulEl(F, us[j], qs[j]);
    }
  }

  /** `R` holds the rows of the matrix for the row values `xs`, and `vs` is in its kernel. */
  ghost predicate InKernel(F: Field, xs: set<nat>, ys: seq<nat>, R: map<nat, Row>, vs: Row)
    requires F.w >= 1
  {
    && |vs| == |ys| && Elements(F, vs)
    && forall x :: x in xs ==> x in R && AreRecips(F, x, ys, R[x]) && Dot(F, vs, R[x], |ys|) == 0
  }

  function Truncated(R: map<nat, Row>, xs: set<nat>, n: nat): map<nat, Row>
    requires forall x :: x in xs ==> x in R && n <= |R[x]|
  {
    map x | x in xs :: R[x][..n]
  }

  lemma ReducedKernel(F: Field, xs: set<nat>, ys: seq<nat>, R: map<nat, Row>, vs: Row, us: Row, ts: Row, z: nat, n: nat)
    requires IsField(F) && InKernel(F, xs, ys, R, vs) && z in xs && |ys| == |us| == |ts| == n > 0
    requires Elements(F, us) && Elements(F, ts)
    requires forall j :: 0 <= j < n ==> us[j] == F.Mul(vs[j], Xor(ys[j], ys[n - 1])) && ts[j] == F.Mul(us[j], R[z][j])
    ensures InKernel(F, xs - {z}, ys[..n - 1], Truncated(R, xs - {z}, n - 1), ts[..n - 1])
  {
    forall x | x in xs - {z}
      ensures AreRecips(F, x, ys[..n - 1], R[x][..n - 1]) && Dot(F, ts[..n - 1], R[x][..n - 1], n - 1) == 0
    {
      hide Field.El, Dot, AreRecips;
      ReduceRow(F, x, z, ys, R[x], R[z], vs, us, ts, n);
      TruncatedRecips(F, x, ys, R[x], ts, n);
    }
  }

  lemma TruncatedRecips(F: Field, x: nat, ys: seq<nat>, rs: Row, ts: Row, n: nat)
    requires F.w >= 1 && AreRecips(F, x, ys, rs) && |ys| == |ts| == n > 0
    ensures AreRecips(F, x, ys[..n - 1], rs[..n - 1])
    ensures Dot(F, ts[..n - 1], rs[..n - 1], n - 1) == Dot(F, ts, rs, n - 1)
  {
    DotSame(F, ts, ts[..n - 1], rs, rs[..n - 1], n - 1);
  }

  /** A vector that a Cauchy matrix with at least as many rows as columns sends to zero is zero. */
  lemma {:induction false} CauchyKernel(F: Field, xs: set<nat>, ys: seq<nat>, R: map<nat, Row>, vs: Row)
    requires IsField(F) && CauchyPoints(F, xs, ys) && InKernel(F, xs, ys, R, vs)
    ensures forall j :: 0 <= j < |vs| ==> vs[j] == 0
    decreases |ys|
  {
    var n := |ys|;
    if n > 0 {
      var z :| z in xs;
      var us, ts := Reduce(F, ys, vs, R[z], n);
      ReducedKernel(F, xs, ys, R, vs, us, ts, z, n);
      ReducedPoints(F, xs, ys, z);
      CauchyKernel(F, xs - {z}, ys[..n - 1], Truncated(R, xs - {z}, n - 1), ts[..n - 1]);
      assert AreRecips(F, z, ys, R[z]);
      hide CauchyPoints, InKernel, Truncated;
      KernelFromReduced(F, ys, R[z], vs, us, ts, ts[..n - 1], z, n);
    }
  }

  lemma ReducedPoints(F: Field, xs: set<nat>, ys: seq<nat>, z: nat)
    requires CauchyPoints(F, xs, ys) && z in xs && |ys| > 0
    ensures CauchyPoints(F, xs - {z}, ys[..|ys| - 1])
    ensures forall j :: 0 <= j < |ys| - 1 ==> ys[j] != ys[|ys| - 1]
  {
  }

  lemma KernelFromReduced(F: Field, ys: seq<nat>, qs: Row, vs: Row, us: Row, ts: Row, rest: Row, z: nat, n: nat)
    requires IsField(F) && |ys| == |vs| == |us| == |ts| == n > 0 && AreRecips(F, z, ys, qs) && Elements(F, vs)
    requires forall j :: 0 <= j < n - 1 ==> ys[j] != ys[n - 1]
    requires forall j :: 0 <= j < n ==> us[j] == F.Mul(vs[j], Xor(ys[j], ys[n - 1])) && ts[j] == F.Mul(us[j], qs[j])
    requires rest == ts[..n - 1] && forall j :: 0 <= j < |rest| ==> rest[j] == 0
    requires Dot(F, vs, qs, n) == 0
    ensures forall j :: 0 <= j < n ==> vs[j] == 0
  {
    hide Dot, Xor;
    forall j | 0 <= j < n - 1 ensures vs[j] == 0 {
      assert rest[j] == 0;
      ReducedZero(F, vs[j], ys[j], ys[n - 1], qs[j], z);
    }
    MulZeroRight(F, Xor(z, ys[n - 1]));
    LastZero(F, vs, qs, n);
  }

  lemma LastZero(F: Field, vs: Row, qs: Row, n: nat)
    requires IsField(F) && 0 < n <= |vs| && n <= |qs| && Elements(F, vs) && Elements(F, qs) && qs[n - 1] != 0
    requires Dot(F, vs, qs, n) == 0 && forall j :: 0 <= j < n - 1 ==> vs[j] == 0
    ensures vs[n - 1] == 0
  {
    hide Dot, Xor, Field.Mul, HasInverse;
    DotZero(F, vs, qs, n - 1);
    DotStep(F, vs, qs, n);
    XorUnit(F.Mul(vs[n - 1], qs[n - 1]));
    MulNonzero(F, vs[n - 1], qs[n - 1]);
  }
}

/** The logarithm, product and quotient tables of `galois.c`, built by walking the powers of 2
    and looked up without any reduction of the exponent. */
module GaloisTables {
  import opened FiniteSets
  import opened Bits
  import opened Galois
  import opened GaloisMultiply
  import opened RowMajor

  /** `nwm1[w]`, the number of non-zero elements. */
  function Order(F: Field): nat { Pow2(F.w) - 1 }

  /** The powers 2^0 .. 2^(2^w - 2) are all different: the polynomial is primitive. */
  ghost predicate Primitive(F: Field)
    requires F.w >= 1
  {
    forall i: nat, j: nat :: i < j < Order(F) ==> F.XPow(i, 1) != F.XPow(j, 1)
  }

  /** What a finished pair of tables holds; `ilog` is the tripled table, shifted by `Order(F)`. */
  ghost predicate TablesFor(F: Field, log: seq<nat>, ilog: seq<nat>)
    requires F.w >= 1
  {
    && |log| == Order(F) + 1
    && |ilog| == 3 * (Order(F) + 1)
    && (forall j: nat :: j < Order(F) ==> ilog[j] == F.XPow(j, 1) && 1 <= ilog[j] <= Order(F) && log[ilog[j]] == j)
    && (forall j: nat :: j < Order(F) ==> ilog[j + Order(F)] == ilog[j] && ilog[j + 2 * Order(F)] == ilog[j])
    && (forall x: nat :: 1 <= x <= Order(F) ==> log[x] < Order(F) && ilog[log[x]] == x)
  }

  // ----- the orbit of 2

  lemma XTimeInjective(F: Field, a: nat, b: nat)
    requires F.w >= 1 && F.poly % 2 == 1 && F.El(a) && F.El(b) && F.XTime(a) == F.XTime(b)
    ensures a == b
  {
    XTimeXor(F, a, b);
    XorSelf(F.XTime(a));
    XTimeNonzero(F, Xor(a, b));
    ElXor(F, a, b);
    XorZero(a, b);
  }

  lemma XTimeNonzero(F: Field, y: nat)
    requires F.w >= 1 && F.poly % 2 == 1
    ensures F.El(y) && y != 0 ==> F.XTime(y) != 0
  {
    if Bit(y, F.w - 1) {
      var v := Xor(2 * y, F.poly);
      XorHalves(2 * y, F.poly);
      ModHalves(v, F.w);
    }
  }

  lemma {:induction false} XPowNonzero(F: Field, j: nat)
    requires F.w >= 1 && F.poly % 2 == 1
    ensures 1 <= F.XPow(j, 1) <= Order(F)
  {
    XPowEl(F, j, 1);
    if j > 0 {
      XPowNonzero(F, j - 1);
      XPowEl(F, j - 1, 1);
      XPowStep(F, j - 1, 1);
      XTimeNonzero(F, F.XPow(j - 1, 1));
    }
  }

  function Range(n: nat): (s: set<nat>)
    ensures |s| == n && forall x: nat :: x in s <==> 1 <= x <= n
  {
    if n == 0 then {} else Range(n - 1) + {n}
  }

  /** `n` different values between 1 and `n` are all of them. */
  lemma Pigeonhole(s: set<nat>, n: nat, x: nat)
    requires |s| == n && (forall y :: y in s ==> 1 <= y <= n) && 1 <= x <= n
    ensures x in s
  {
    if x !in s {
      var t := s + {x};
      assert t <= Range(n);
      SubsetCount(t, Range(n));
    }
  }

  // ----- building the tables

  /** The state of the tables when the powers 2^0 .. 2^(j-1) have been entered. */
  ghost predicate Entered(F: Field, log: seq<nat>, ilog: seq<nat>, j: nat)
    requires F.w >= 1
  {
    && |log| == Order(F) + 1 && |ilog| == 3 * (Order(F) + 1) && j <= Order(F)
    && (forall i: nat :: i < j ==> ilog[i] == F.XPow(i, 1) && 1 <= ilog[i] <= Order(F) && log[ilog[i]] == i)
    && (forall x: nat :: x <= Order(F) && log[x] != Order(F) ==> log[x] < j && ilog[log[x]] == x)
  }

  /** The first `j` entries of the inverse table, as a set. */
  lemma {:induction false} EnteredElements(log: seq<nat>, ilog: seq<nat>, j: nat, n: nat) returns (s: set<nat>)
    requires j <= |ilog| && n < |log| && forall i: nat :: i < j ==> 1 <= ilog[i] <= n && log[ilog[i]] == i
    ensures |s| == j && forall y :: y in s ==> 1 <= y <= n && log[y] < j && ilog[log[y]] == y
  {
    if j == 0 {
      s := {};
    } else {
      var t := EnteredElements(log, ilog, j - 1, n);
      assert log[ilog[j - 1]] == j - 1;
      s := t + {ilog[j - 1]};
    }
  }

  /** Once every exponent is entered, every non-zero element has a logarithm. */
  lemma AllEntered(F: Field, log: seq<nat>, ilog: seq<nat>)
    requires F.w >= 1 && Entered(F, log, ilog, Order(F))
    ensures forall x: nat :: 1 <= x <= Order(F) ==> log[x] < Order(F) && ilog[log[x]] == x
    ensures Primitive(F)
  {
    var n := Order(F);
    var s := EnteredElements(log, ilog, n, n);
    forall x: nat | 1 <= x <= n ensures log[x] < n && ilog[log[x]] == x {
      Pigeonhole(s, n, x);
    }
    forall i: nat, j: nat | i < j < n ensures F.XPow(i, 1) != F.XPow(j, 1) {
      assert log[ilog[i]] == i && log[ilog[j]] == j;
    }
  }

  /** The orbit of 1 under doubling, entered into both tables; a collision ends the build. */
  method EnterPowers(F: Field, log: array<nat>, ilog: array<nat>) returns (ok: bool)
    requires F.w >= 1 && F.poly % 2 == 1
    requires log != ilog && Entered(F, log[..], ilog[..], 0)
    modifies log, ilog
    ensures ok <==> Primitive(F)
    ensures ok ==> Entered(F, log[..], ilog[..], Order(F))
  {
    var n := Order(F);
    var b: nat, j: nat := 1, 0;
    while j < n
      invariant 0 <= j <= n && b == F.XPow(j, 1)
      invariant Entered(F, log[..], ilog[..], j)
    {
      XPowNonzero(F, j);
      ghost var l0, i0 := log[..], ilog[..];
      if log[b] != n {
        assert l0[b] != n;
        assert F.XPow(l0[b], 1) == F.XPow(j, 1);
        return false;
      }
      log[b] := j;
      ilog[j] := b;
      EnterOne(F, l0, i0, log[..], ilog[..], j);
      XPowStep(F, j, 1);
      b := Double(F, b);
      j := j + 1;
    }
    AllEntered(F, log[..], ilog[..]);
    ok := true;
  }

  lemma EnterOne(F: Field, l0: seq<nat>, i0: seq<nat>, l1: seq<nat>, i1: seq<nat>, j: nat)
    requires F.w >= 1 && Entered(F, l0, i0, j) && j < Order(F)
    requires 1 <= F.XPow(j, 1) <= Order(F) && l0[F.XPow(j, 1)] == Order(F)
    requires l1 == l0[F.XPow(j, 1) := j] && i1 == i0[j := F.XPow(j, 1)]
    ensures Entered(F, l1, i1, j + 1)
  {
    var n, b := Order(F), F.XPow(j, 1);
    forall i: nat | i < j + 1 ensures i1[i] == F.XPow(i, 1) && 1 <= i1[i] <= n && l1[i1[i]] == i {
      if i < j { assert l0[i0[i]] == i; }
    }
    forall x: nat | x <= n && l1[x] != n ensures l1[x] < j + 1 && i1[l1[x]] == x {
      if x != b { assert l0[x] != n; }
    }
  }

  method CreateLogTables(F: Field) returns (ok: bool, log: array<nat>, ilog: array<nat>)
    requires F.w >= 1 && F.poly % 2 == 1
    ensures ok <==> Primitive(F)
    ensures ok ==> TablesFor(F, log[..], ilog[..])
  {
    var n := Order(F);
    log := new nat[n + 1];
    ilog := new nat[3 * (n + 1)];
    var j := 0;
    while j < n + 1
      invariant 0 <= j <= n + 1
      invariant forall x :: 0 <= x < j ==> log[x] == n
    {
      log[j] := n;
      ilog[j] := 0;
      j := j + 1;
    }
    ok := EnterPowers(F, log, ilog);
    if ok {
      AllEntered(F, log[..], ilog[..]);
      Replicate(ilog, n);
    }
  }

  /** Two more copies of the inverse table, so that lookups need not reduce the exponent. */
  method Replicate(ilog: array<nat>, n: nat)
    requires 3 * n <= ilog.Length
    modifies ilog
    ensures forall i :: 0 <= i < n ==> ilog[i] == old(ilog[i]) && ilog[i + n] == ilog[i] && ilog[i + 2 * n] == ilog[i]
  {
    var j := 0;
    while j < n
      invariant 0 <= j <= n
      invariant forall i :: 0 <= i < n ==> ilog[i] == old(ilog[i])
      invariant forall i :: 0 <= i < j ==> ilog[i + n] == ilog[i] && ilog[i + 2 * n] == ilog[i]
    {
      ilog[j + n] := ilog[j];
      ilog[j + 2 * n] := ilog[j];
      j := j + 1;
    }
  }

  // ----- exponents add

  lemma {:induction false} XPowAdd(F: Field, i: nat, j: nat, y: nat)
    requires F.w >= 1
    ensures F.XPow(i + j, y) == F.XPow(i, F.XPow(j, y))
  {
    if j > 0 { XPowAdd(F, i, j - 1, F.XTime(y)); }
  }

  lemma {:induction false} XPowMul(F: Field, i: nat, y: nat)
    requires F.w >= 1 && F.El(y)
    ensures F.Mul(F.XPow(i, 1), y) == F.XPow(i, y)
  {
    if i == 0 {
      MulOneLeft(F, y);
    } else {
      assert F.El(1);
      XPowMul(F, i - 1, y);
      hide *;
      var a := F.XPow(i - 1, 1);
      XPowEl(F, i - 1, 1);
      XPowStep(F, i - 1, 1);
      XPowStep(F, i - 1, y);
      XTimeEl(F, a);
      MulComm(F, F.XTime(a), y);
      MulXTime(F, y, a);
      MulComm(F, y, a);
    }
  }

  lemma XPowNone(F: Field, y: nat)
    requires F.w >= 1
    ensures F.XPow(0, y) == y
  {
  }

  /** Multiplying by 2 once more than there are exponents leads back to 1. */
  lemma OrbitCloses(F: Field, log: seq<nat>, ilog: seq<nat>)
    requires F.w >= 1 && F.poly % 2 == 1 && TablesFor(F, log, ilog)
    ensures F.XPow(Order(F), 1) == 1
  {
    hide Field.XPow, Field.XTime, Pow2;
    var n := Order(F);
    XPowNone(F, 1);
    XPowNonzero(F, n);
    var i := log[F.XPow(n, 1)];
    assert ilog[i] == F.XPow(n, 1) == F.XPow(i, 1);
    if i > 0 {
      XPowStep(F, n - 1, 1);
      XPowStep(F, i - 1, 1);
      XPowEl(F, n - 1, 1);
      XPowEl(F, i - 1, 1);
      XTimeInjective(F, F.XPow(n - 1, 1), F.XPow(i - 1, 1));
      assert false;
    }
  }

  /** No index into the tripled table is out of range, and none has to be reduced. */
  lemma UnreducedLookup(F: Field, log: seq<nat>, ilog: seq<nat>, s: int)
    requires F.w >= 1 && F.poly % 2 == 1 && TablesFor(F, log, ilog)
    requires 0 < s + Order(F) < 3 * Order(F)
    ensures 0 <= s + Order(F) < |ilog|
    ensures ilog[s + Order(F)] == F.XPow(s + Order(F), 1) < Pow2(F.w)
  {
    var n := Order(F);
    OrbitCloses(F, log, ilog);
    if s < 0 {
      assert ilog[s + n] == F.XPow(s + n, 1);
    } else if s < n {
      XPowAdd(F, s, n, 1);
      assert ilog[s + n] == ilog[s];
    } else {
      XPowAdd(F, s - n, n, 1);
      XPowAdd(F, s, n, 1);
      assert ilog[s - n + 2 * n] == ilog[s - n];
    }
  }

  method LogMultiply(F: Field, log: array<nat>, ilog: array<nat>, x: nat, y: nat) returns (r: nat)
    requires F.w >= 1 && F.poly % 2 == 1 && TablesFor(F, log[..], ilog[..])
    requires F.El(x) && F.El(y)
    ensures r == F.Mul(x, y)
  {
    MulZeroRight(F, x);
    if x == 0 || y == 0 { return 0; }
    LogProduct(F, log[..], ilog[..], x, y);
    var sum := log[x] + log[y];
    r := ilog[sum + Order(F)];
  }

  lemma LogProduct(F: Field, log: seq<nat>, ilog: seq<nat>, x: nat, y: nat)
    requires F.w >= 1 && F.poly % 2 == 1 && TablesFor(F, log, ilog)
    requires 1 <= x <= Order(F) && 1 <= y <= Order(F)
    ensures log[x] + log[y] + Order(F) < |ilog|
    ensures ilog[log[x] + log[y] + Order(F)] == F.Mul(x, y)
  {
    var i, j := log[x], log[y];
    assert F.XPow(i, 1) == ilog[i] == x && F.XPow(j, 1) == ilog[j] == y;
    UnreducedLookup(F, log, ilog, i + j);
    OrbitCloses(F, log, ilog);
    XPowAdd(F, i + j, Order(F), 1);
    XPowAdd(F, i, j, 1);
    XPowMul(F, i, y);
  }

  method LogDivide(F: Field, log: array<nat>, ilog: array<nat>, x: nat, y: nat) returns (r: int)
    requires F.w >= 1 && F.poly % 2 == 1 && TablesFor(F, log[..], ilog[..])
    requires F.El(x) && F.El(y)
    ensures if y == 0 then r == -1 else 0 <= r && F.El(r) && F.Mul(y, r) == x
  {
    MulZeroRight(F, y);
    if y == 0 { return -1; }
    if x == 0 { return 0; }
    LogQuotient(F, log[..], ilog[..], x, y);
    var sum := log[x] as int - log[y] as int;
    r := ilog[sum + Order(F)];
  }

  lemma LogQuotient(F: Field, log: seq<nat>, ilog: seq<nat>, x: nat, y: nat)
    requires F.w >= 1 && F.poly % 2 == 1 && TablesFor(F, log, ilog)
    requires 1 <= x <= Order(F) && 1 <= y <= Order(F)
    ensures 0 <= log[x] - log[y] + Order(F) < |ilog|
    ensures F.El(ilog[log[x] - log[y] + Order(F)])
    ensures F.Mul(y, ilog[log[x] - log[y] + Order(F)]) == x
  {
    var n, i, j := Order(F), log[x], log[y];
    assert F.XPow(i, 1) == ilog[i] == x && F.XPow(j, 1) == ilog[j] == y;
    UnreducedLookup(F, log, ilog, i as int - j as int);
    OrbitCloses(F, log, ilog);
    var z := ilog[i + n - j];
    XPowMul(F, j, z);
    XPowAdd(F, j, i + n - j, 1);
    XPowAdd(F, i, n, 1);
  }

  /** If the log tables can be built, the polynomial defines a field. */
  lemma PrimitiveIsField(F: Field, log: seq<nat>, ilog: seq<nat>)
    requires F.w >= 1 && F.poly % 2 == 1 && TablesFor(F, log, ilog)
    ensures IsField(F)
  {
    forall x | F.El(x) && x != 0 ensures HasInverse(F, x) {
      LogQuotient(F, log, ilog, 1, x);
    }
  }

  /** An even polynomial never gives a field of more than two elements: nothing inverts 2. */
  lemma EvenPolynomialNoField(F: Field)
    requires F.w >= 2 && F.poly % 2 == 0
    ensures !IsField(F)
  {
    Pow2Mono(2, F.w);
    if HasInverse(F, 2) {
      var y :| F.El(y) && F.Mul(2, y) == 1;
      MulStep(F, 2, y);
      MulOneLeft(F, F.XTime(y));
      XorUnit(F.XTime(y));
      XTimeEven(F, y);
      assert false;
    }
  }

  lemma XTimeEven(F: Field, y: nat)
    requires F.w >= 1 && F.poly % 2 == 0
    ensures F.XTime(y) % 2 == 0
  {
    if Bit(y, F.w - 1) {
      XorHalves(2 * y, F.poly);
      ModHalves(Xor(2 * y, F.poly), F.w);
    }
  }

  /** The builder's own test does not notice: for w = 2 and x^2 the orbit 1, 2, 0 has no collision. */
  lemma EvenPolynomialUnnoticed()
    ensures Primitive(GF(2, 4)) && !IsField(GF(2, 4))
  {
    var F := GF(2, 4);
    EvenPolynomialNoField(F);
    EvenOrbit();
    hide *;
    forall i: nat, j: nat | i < j < 3 ensures F.XPow(i, 1) != F.XPow(j, 1) { }
    PrimitiveOfThree(F);
  }

  lemma PrimitiveOfThree(F: Field)
    requires F.w == 2 && forall i: nat, j: nat :: i < j < 3 ==> F.XPow(i, 1) != F.XPow(j, 1)
    ensures Primitive(F)
  {
    hide Field.XPow;
    assert Pow2(2) == 4;
  }

  lemma EvenOrbit()
    ensures GF(2, 4).XPow(0, 1) == 1 && GF(2, 4).XPow(1, 1) == 2 && GF(2, 4).XPow(2, 1) == 0
  {
    XorSelf(4);
  }

  // ----- the product and quotient tables

  /** `q` is the quotient x / y, or -1 when there is none. */
  ghost predicate IsQuotient(F: Field, x: nat, y: nat, q: int)
    requires F.w >= 1
  {
    if y == 0 then q == -1 else 0 <= q && F.El(q) && F.Mul(y, q) == x
  }

  /** Row `x` of the product table and of the quotient table. */
  ghost predicate TableRow(F: Field, x: nat, product: seq<int>, quotient: seq<int>)
    requires F.w >= 1
  {
    && |product| == |quotient| == Pow2(F.w)
    && forall y: nat :: y < Pow2(F.w) ==> product[y] == F.Mul(x, y) && IsQuotient(F, x, y, quotient[y])
  }

  /** The first `n` rows of both tables. */
  ghost predicate TableRows(F: Field, mult: seq<int>, div: seq<int>, n: nat)
    requires F.w >= 1
  {
    var size := Pow2(F.w);
    && |mult| == |div| == Base(size, size) && n <= size
    && forall x: nat :: x < n ==> TableRow(F, x, Rows(mult, size, size)[x], Rows(div, size, size)[x])
  }

  method CreateMultTables(F: Field) returns (ok: bool, mult: array<int>, div: array<int>)
    requires F.w >= 1 && F.poly % 2 == 1
    ensures ok <==> Primitive(F)
    ensures ok ==> IsField(F) && TableRows(F, mult[..], div[..], Pow2(F.w))
  {
    var n := Pow2(F.w);
    mult := new int[Base(n, n)];
    div := new int[Base(n, n)];
    var log, ilog;
    ok, log, ilog := CreateLogTables(F);
    if !ok { return; }
    PrimitiveIsField(F, log[..], ilog[..]);
    FillTables(F, log, ilog, mult, div);
  }

  method FillTables(F: Field, log: array<nat>, ilog: array<nat>, mult: array<int>, div: array<int>)
    requires F.w >= 1 && F.poly % 2 == 1 && TablesFor(F, log[..], ilog[..])
    requires mult != div && mult.Length == div.Length == Base(Pow2(F.w), Pow2(F.w))
    modifies mult, div
    ensures TableRows(F, mult[..], div[..], Pow2(F.w))
  {
    var n := Pow2(F.w);
    hide Base, TablesFor, TableRow, Pow2;
    var j: nat, x: nat := 0, 0;
    BaseStep(0, n);
    while x < n
      invariant x <= n && j == Base(x, n)
      invariant TablesFor(F, log[..], ilog[..])
      invariant TableRows(F, mult[..], div[..], x)
    {
      BaseBefore(x, n, n);
      BaseStep(x, n);
      assert F.El(x) by { ElBelow(F, x); }
      ghost var m0, d0 := mult[..], div[..];
      FillTableRow(F, log, ilog, mult, div, x, j);
      RowsUpdate(m0, mult[..], n, n, x);
      RowsUpdate(d0, div[..], n, n, x);
      j := j + n;
      x := x + 1;
    }
  }

  lemma ElBelow(F: Field, x: nat)
    requires x < Pow2(F.w)
    ensures F.El(x)
  {
  }

  /** One row of both tables, from index `j` on. */
  method FillTableRow(F: Field, log: array<nat>, ilog: array<nat>, mult: array<int>, div: array<int>, x: nat, j: nat)
    requires F.w >= 1 && F.poly % 2 == 1 && TablesFor(F, log[..], ilog[..])
    requires mult != div && F.El(x) && j + Pow2(F.w) <= mult.Length == div.Length
    modifies mult, div
    ensures TableRow(F, x, mult[j..j + Pow2(F.w)], div[j..j + Pow2(F.w)])
    ensures forall p :: 0 <= p < mult.Length && !(j <= p < j + Pow2(F.w)) ==> mult[p] == old(mult[p]) && div[p] == old(div[p])
  {
    hide TablesFor, IsQuotient, Pow2;
    var n, y: nat := Pow2(F.w), 0;
    while y < n
      invariant y <= n
      invariant forall p :: j <= p < j + y ==> mult[p] == F.Mul(x, p - j) && IsQuotient(F, x, p - j, div[p])
      invariant forall p :: 0 <= p < mult.Length && !(j <= p < j + y) ==> mult[p] == old(mult[p]) && div[p] == old(div[p])
    {
      var product, quotient := TableEntry(F, log, ilog, x, y);
      mult[j + y] := product;
      div[j + y] := quotient;
      y := y + 1;
    }
  }

  method TableEntry(F: Field, log: array<nat>, ilog: array<nat>, x: nat, y: nat) returns (product: int, quotient: int)
    requires F.w >= 1 && F.poly % 2 == 1 && TablesFor(F, log[..], ilog[..]) && F.El(x) && y < Pow2(F.w)
    ensures product == F.Mul(x, y) && IsQuotient(F, x, y, quotient)
  {
    product := LogMultiply(F, log, ilog, x, y);
    quotient := LogDivide(F, log, ilog, x, y);
  }

  /** `galois_mult_tables[w][(x<<w)|y]`. */
  method MultTableMultiply(F: Field, mult: array<int>, div: array<int>, x: nat, y: nat) returns (r: int)
    requires F.w >= 1 && TableRows(F, mult[..], div[..], Pow2(F.w)) && F.El(x) && F.El(y)
    ensures r == F.Mul(x, y)
  {
    r := At(mult, Pow2(F.w), Pow2(F.w), x, y);
  }

  /** `galois_div_tables[w][(x<<w)|y]`. */
  method MultTableDivide(F: Field, mult: array<int>, div: array<int>, x: nat, y: nat) returns (r: int)
    requires F.w >= 1 && TableRows(F, mult[..], div[..], Pow2(F.w)) && F.El(x) && F.El(y)
    ensures IsQuotient(F, x, y, r)
  {
    r := At(div, Pow2(F.w), Pow2(F.w), x, y);
  }
}

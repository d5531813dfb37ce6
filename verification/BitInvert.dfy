/** `jerasure_invert_bitmatrix` and its copy `gcrs_invert_bitmatrix`: Gaussian elimination in
    place over GF(2), and what its result means for packets of any size.

    The invariants are those of `Elimination` over the two-element field; a packet is then
    handled one bit position at a time. */
module BitInvert {
  import opened Bits
  import opened Galois
  import opened LinearAlgebra
  import opened RowMajor
  import opened RowOperations
  import opened Elimination
  import opened JerasureInvert
  import opened BitAlgebra

  /** The field with two elements. */
  function Binary(): Field { GF(1, 1) }

  function Int(b: bool): (x: nat)
    ensures x <= 1 && (x == 0 <==> !b)
  {
    if b then 1 else 0
  }

  function Ints(a: BitRow): (r: Row)
    ensures |r| == |a| && forall j :: 0 <= j < |a| ==> r[j] == Int(a[j])
  {
    seq(|a|, j requires 0 <= j < |a| => Int(a[j]))
  }

  function IntRows(M: seq<BitRow>): (R: seq<Row>)
    ensures |R| == |M| && forall i :: 0 <= i < |M| ==> R[i] == Ints(M[i])
  {
    seq(|M|, i requires 0 <= i < |M| => Ints(M[i]))
  }

  lemma IntEl(b: bool)
    ensures Binary().El(Int(b)) && Binary().w >= 1
  {
  }

  lemma IntRowsMatrix(M: seq<BitRow>, m: nat, n: nat)
    requires BitMatrix(M, m, n)
    ensures Binary().w >= 1 && Matrix(Binary(), IntRows(M), m, n)
  {
    IntEl(true);
    forall i, j | 0 <= i < m && 0 <= j < n ensures Binary().El(IntRows(M)[i][j]) { IntEl(M[i][j]); }
  }

  lemma IntXor(a: bool, b: bool)
    ensures Int(a != b) == Xor(Int(a), Int(b))
  {
  }

  lemma IntsXor(a: BitRow, b: BitRow)
    requires |a| == |b|
    ensures Ints(RowXor(a, b)) == RowSum(Binary(), Ints(a), 1, Ints(b))
  {
    forall j | 0 <= j < |a| ensures Ints(RowXor(a, b))[j] == RowSum(Binary(), Ints(a), 1, Ints(b))[j] {
      IntXor(a[j], b[j]);
      MulOneLeft(Binary(), Int(b[j]));
    }
  }

  lemma IntsSwapped(M: seq<BitRow>, i: nat, j: nat)
    requires i < |M| && j < |M|
    ensures IntRows(Swapped(M, i, j)) == Swapped(IntRows(M), i, j)
  {
  }

  function Folded(M: seq<BitRow>, dst: nat, src: nat): seq<BitRow>
    requires dst < |M| && src < |M| && |M[dst]| == |M[src]|
  {
    M[dst := RowXor(M[dst], M[src])]
  }

  lemma IntsFolded(M: seq<BitRow>, dst: nat, src: nat)
    requires dst < |M| && src < |M| && |M[dst]| == |M[src]|
    ensures IntRows(Folded(M, dst, src)) == Added(Binary(), IntRows(M), dst, src, 1)
  {
    IntsXor(M[dst], M[src]);
  }

  // ----- from bits to packets

  /** Bit `l` of every packet. */
  ghost function BitPlane(x: Packets, l: nat): (r: Row)
    ensures |r| == |x| && forall j :: 0 <= j < |x| ==> r[j] == Int(Bit(x[j], l))
  {
    seq(|x|, j requires 0 <= j < |x| => Int(Bit(x[j], l)))
  }

  lemma PlaneVec(x: Packets, l: nat)
    ensures Vec(Binary(), BitPlane(x, l), |x|)
  {
    forall j | 0 <= j < |x| ensures Binary().El(BitPlane(x, l)[j]) { IntEl(Bit(x[j], l)); }
  }

  lemma {:induction false} SelectBit(row: BitRow, x: Packets, n: nat, l: nat)
    requires n <= |row| && n <= |x|
    ensures Int(Bit(Select(row, x, n), l)) == Dot(Binary(), Ints(row), BitPlane(x, l), n)
  {
    ZeroBits(l);
    if n > 0 {
      SelectBit(row, x, n - 1, l);
      SelectStep(row, x, n);
      var v := if row[n - 1] then x[n - 1] else 0;
      XorBit(Select(row, x, n - 1), v, l);
      IntXor(Bit(Select(row, x, n - 1), l), Bit(v, l));
      MulOneLeft(Binary(), Int(Bit(x[n - 1], l)));
      MulZeroLeft(Binary(), Int(Bit(x[n - 1], l)));
      DotStep(Binary(), Ints(row), BitPlane(x, l), n);
    }
  }

  lemma PlaneApply(M: seq<BitRow>, x: Packets, l: nat)
    requires BitMatrix(M, |M|, |x|)
    ensures Matrix(Binary(), IntRows(M), |M|, |x|)
    ensures BitPlane(BitApply(M, x), l) == Apply(Binary(), IntRows(M), BitPlane(x, l))
  {
    IntRowsMatrix(M, |M|, |x|);
    forall i | 0 <= i < |M|
      ensures BitPlane(BitApply(M, x), l)[i] == Apply(Binary(), IntRows(M), BitPlane(x, l))[i]
    {
      SelectBit(M[i], x, |x|, l);
    }
  }

  lemma {:induction false} Pow2Above(x: nat)
    ensures x < Pow2(x)
  {
    if x > 0 { Pow2Above(x - 1); }
  }

  lemma SamePlanes(a: nat, b: nat)
    requires forall l :: Bit(a, l) == Bit(b, l)
    ensures a == b
  {
    var n := a + b;
    Pow2Above(a);
    Pow2Above(b);
    Pow2Mono(a, n);
    Pow2Mono(b, n);
    SameBits(a, b, n);
  }

  /** An inverse over GF(2) is an inverse for packets. */
  lemma InverseLifts(inv: seq<BitRow>, orig: seq<BitRow>, n: nat)
    requires BitMatrix(inv, n, n) && BitMatrix(orig, n, n)
    requires Matrix(Binary(), IntRows(inv), n, n) && Matrix(Binary(), IntRows(orig), n, n)
    requires LeftInverse(Binary(), IntRows(inv), IntRows(orig), n)
    ensures BitInverse(inv, orig, n)
  {
    forall x: Packets | |x| == n ensures BitApply(inv, BitApply(orig, x)) == x {
      var z := BitApply(inv, BitApply(orig, x));
      forall j | 0 <= j < n ensures z[j] == x[j] {
        forall l ensures Bit(z[j], l) == Bit(x[j], l) {
          PlaneApply(orig, x, l);
          PlaneApply(inv, BitApply(orig, x), l);
          PlaneVec(x, l);
          assert BitPlane(z, l) == BitPlane(x, l);
          assert Int(Bit(z[j], l)) == BitPlane(z, l)[j];
        }
        SamePlanes(z[j], x[j]);
      }
    }
  }

  lemma {:induction false} SelectIsDot(row: BitRow, x: Packets, n: nat)
    requires n <= |row| && n <= |x|
    ensures Select(row, x, n) == Dot(Binary(), Ints(row), x, n)
  {
    if n > 0 {
      SelectIsDot(row, x, n - 1);
      SelectStep(row, x, n);
      MulOneLeft(Binary(), x[n - 1]);
      MulZeroLeft(Binary(), x[n - 1]);
      DotStep(Binary(), Ints(row), x, n);
    }
  }

  lemma SingularLifts(orig: seq<BitRow>, n: nat)
    requires BitMatrix(orig, n, n) && Matrix(Binary(), IntRows(orig), n, n) && Singular(Binary(), IntRows(orig), n)
    ensures BitSingular(orig, n)
  {
    var x, p :| Vec(Binary(), x, n) && Kills(Binary(), IntRows(orig), x, n) && 0 <= p < n && x[p] != 0;
    forall i | 0 <= i < n ensures Select(orig[i], x, n) == 0 { SelectIsDot(orig[i], x, n); }
    assert BitKills(orig, x, n);
  }

  lemma InvertibleNotSingular(inv: seq<BitRow>, orig: seq<BitRow>, n: nat)
    requires BitMatrix(inv, n, n) && BitMatrix(orig, n, n) && BitInverse(inv, orig, n)
    ensures !BitSingular(orig, n)
  {
    if BitSingular(orig, n) {
      var x: Packets, p :| |x| == n && BitKills(orig, x, n) && 0 <= p < n && x[p] != 0;
      BitKernelIsZero(inv, orig, x, n, p);
    }
  }

  lemma BitKernelIsZero(inv: seq<BitRow>, orig: seq<BitRow>, x: Packets, n: nat, p: nat)
    requires BitMatrix(inv, n, n) && BitMatrix(orig, n, n) && BitInverse(inv, orig, n)
    requires |x| == n && BitKills(orig, x, n) && p < n
    ensures x[p] == 0
  {
    var y := BitApply(orig, x);
    assert Select(inv[p], y, n) == 0 by { SelectNone(inv[p], y, n); }
    hide Select, BitKills;
    assert BitApply(inv, y)[p] == x[p];
  }

  // ----- one step of the elimination

  ghost predicate BitReducing(mat: seq<BitRow>, inv: seq<BitRow>, orig: seq<BitRow>, n: nat, i: nat) {
    && BitMatrix(mat, n, n) && BitMatrix(inv, n, n) && BitMatrix(orig, n, n)
    && Reducing(Binary(), IntRows(mat), IntRows(inv), IntRows(orig), n, i)
  }

  lemma BitStuck(mat: seq<BitRow>, inv: seq<BitRow>, orig: seq<BitRow>, n: nat, i: nat)
    requires BitReducing(mat, inv, orig, n, i) && i < n && forall l :: i <= l < n ==> !mat[l][i]
    ensures BitMatrix(orig, n, n) && BitSingular(orig, n)
  {
    hide Reducing, Singular;
    IntRowsMatrix(orig, n, n);
    StuckStep(Binary(), IntRows(mat), IntRows(inv), IntRows(orig), n, i);
    SingularLifts(orig, n);
  }

  lemma BitSwap(mat: seq<BitRow>, inv: seq<BitRow>, orig: seq<BitRow>, n: nat, i: nat, j: nat)
    requires BitReducing(mat, inv, orig, n, i) && i <= j < n && mat[j][i]
    ensures BitReducing(Swapped(mat, i, j), Swapped(inv, i, j), orig, n, i) && Swapped(mat, i, j)[i][i]
  {
    hide Reducing;
    SwapStep(Binary(), IntRows(mat), IntRows(inv), IntRows(orig), n, i, j);
    IntsSwapped(mat, i, j);
    IntsSwapped(inv, i, j);
  }

  lemma BitClear(mat: seq<BitRow>, inv: seq<BitRow>, orig: seq<BitRow>, n: nat, i: nat, j: nat)
    requires BitReducing(mat, inv, orig, n, i) && i < j < n && mat[i][i] && mat[j][i]
    ensures BitReducing(Folded(mat, j, i), Folded(inv, j, i), orig, n, i) && !Folded(mat, j, i)[j][i]
    ensures forall l :: 0 <= l < n && l != j ==> Folded(mat, j, i)[l] == mat[l]
  {
    hide Reducing, Added;
    ClearStep(Binary(), IntRows(mat), IntRows(inv), IntRows(orig), n, i, j);
    IntsFolded(mat, j, i);
    IntsFolded(inv, j, i);
  }

  lemma BitColumnDone(mat: seq<BitRow>, inv: seq<BitRow>, orig: seq<BitRow>, n: nat, i: nat)
    requires BitReducing(mat, inv, orig, n, i) && i < n && mat[i][i] && forall l :: i < l < n ==> !mat[l][i]
    ensures BitReducing(mat, inv, orig, n, i + 1)
  {
    hide Reducing;
    ColumnDone(Binary(), IntRows(mat), IntRows(inv), IntRows(orig), n, i);
  }

  /** The state of the second pass: rows below `c` have already lost column `i`. */
  ghost predicate BitSubstituting(mat: seq<BitRow>, inv: seq<BitRow>, orig: seq<BitRow>, n: nat, i: nat, c: nat) {
    && BitMatrix(mat, n, n) && BitMatrix(inv, n, n) && BitMatrix(orig, n, n)
    && Substituting(Binary(), IntRows(mat), IntRows(inv), IntRows(orig), n, i, c)
  }

  ghost predicate BitSolved(mat: seq<BitRow>, inv: seq<BitRow>, orig: seq<BitRow>, n: nat, i: nat) {
    && BitMatrix(mat, n, n) && BitMatrix(inv, n, n) && BitMatrix(orig, n, n)
    && Solved(Binary(), IntRows(mat), IntRows(inv), IntRows(orig), n, i) && Triangular(IntRows(mat), n, n)
  }

  lemma BitStartSolving(mat: seq<BitRow>, inv: seq<BitRow>, orig: seq<BitRow>, n: nat)
    requires BitReducing(mat, inv, orig, n, n)
    ensures BitSolved(mat, inv, orig, n, n)
  {
    hide Reducing, Solved, Triangular;
    StartSolving(Binary(), IntRows(mat), IntRows(inv), IntRows(orig), n);
  }

  lemma BitStartColumn(mat: seq<BitRow>, inv: seq<BitRow>, orig: seq<BitRow>, n: nat, i: nat)
    requires i < n && BitSolved(mat, inv, orig, n, i + 1)
    ensures BitSubstituting(mat, inv, orig, n, i, 0)
  {
    hide Solved, Triangular, Substituting;
    StartColumn(Binary(), IntRows(mat), IntRows(inv), IntRows(orig), n, i);
  }

  lemma BitEndColumn(mat: seq<BitRow>, inv: seq<BitRow>, orig: seq<BitRow>, n: nat, i: nat)
    requires BitSubstituting(mat, inv, orig, n, i, i)
    ensures BitSolved(mat, inv, orig, n, i)
  {
    hide Solved, Triangular, Substituting;
    EndColumn(Binary(), IntRows(mat), IntRows(inv), IntRows(orig), n, i);
  }

  /** Adding the whole row `i` to row `c` changes row `c` of `mat` only from column `i` on. */
  lemma BitSubstitute(mat: seq<BitRow>, inv: seq<BitRow>, orig: seq<BitRow>, n: nat, i: nat, c: nat)
    requires BitSubstituting(mat, inv, orig, n, i, c) && c < i < n && mat[c][i]
    ensures BitSubstituting(Folded(mat, c, i), Folded(inv, c, i), orig, n, i, c + 1)
  {
    hide Substituting, Triangular, Added, Matrix, Elements;
    var F, M, V := Binary(), IntRows(mat), IntRows(inv);
    var a := RowXor(mat[c], mat[i]);
    FoldedRow(mat, inv, orig, n, i, c);
    SubstituteStep(F, M, V, IntRows(orig), n, i, c, Ints(a));
    IntsFolded(inv, c, i);
    assert IntRows(Folded(mat, c, i)) == M[c := Ints(a)];
  }

  /** The folded row differs from the old one only from column `i` on. */
  lemma FoldedRow(mat: seq<BitRow>, inv: seq<BitRow>, orig: seq<BitRow>, n: nat, i: nat, c: nat)
    requires BitSubstituting(mat, inv, orig, n, i, c) && c < i < n
    ensures Vec(Binary(), Ints(RowXor(mat[c], mat[i])), n)
    ensures forall l: nat :: l < i ==> Ints(RowXor(mat[c], mat[i]))[l] == IntRows(mat)[c][l]
  {
    assert Triangular(IntRows(mat), n, n);
    forall l: nat | l < i ensures !mat[i][l] { assert IntRows(mat)[i][l] == 0; }
    IntRowsMatrix([RowXor(mat[c], mat[i])], 1, n);
    assert Vec(Binary(), IntRows([RowXor(mat[c], mat[i])])[0], n);
  }

  lemma BitNothing(mat: seq<BitRow>, inv: seq<BitRow>, orig: seq<BitRow>, n: nat, i: nat, c: nat)
    requires BitSubstituting(mat, inv, orig, n, i, c) && c < i < n && !mat[c][i]
    ensures BitSubstituting(mat, inv, orig, n, i, c + 1)
  {
    hide Substituting;
    NothingToSubstitute(Binary(), IntRows(mat), IntRows(inv), IntRows(orig), n, i, c);
  }

  lemma BitFinished(mat: seq<BitRow>, inv: seq<BitRow>, orig: seq<BitRow>, n: nat)
    requires BitSolved(mat, inv, orig, n, 0)
    ensures BitMatrix(inv, n, n) && BitMatrix(orig, n, n) && BitInverse(inv, orig, n) && !BitSingular(orig, n)
  {
    Finished(Binary(), IntRows(mat), IntRows(inv), IntRows(orig), n);
    InverseLifts(inv, orig, n);
    InvertibleNotSingular(inv, orig, n);
  }

  lemma BitStart(mat: seq<BitRow>, inv: seq<BitRow>, n: nat)
    requires BitMatrix(mat, n, n) && BitMatrix(inv, n, n)
    requires forall i, j :: 0 <= i < n && 0 <= j < n ==> inv[i][j] == (i == j)
    ensures BitReducing(mat, inv, mat, n, 0)
  {
    IntRowsMatrix(mat, n, n);
    Start(Binary(), IntRows(mat), IntRows(inv), n);
  }

  // ----- the routine

  /** `row dst ^= row src`. */
  method XorRow(a: array<bool>, ghost m: nat, n: nat, dst: nat, src: nat)
    requires a.Length == Base(m, n) && dst < m && src < m && dst != src
    modifies a
    ensures Rows(a[..], m, n) == Folded(old(Rows(a[..], m, n)), dst, src)
  {
    hide Base;
    ghost var s := a[..];
    var p, q := Base(dst, n), Base(src, n);
    RowsApart(dst, src, m, n);
    var k := 0;
    while k < n
      invariant 0 <= k <= n
      invariant forall r :: p <= r < p + k ==> a[r] == (s[r] != s[r - p + q])
      invariant forall r :: 0 <= r < a.Length && !(p <= r < p + k) ==> a[r] == s[r]
    {
      a[p + k] := a[p + k] != a[q + k];
      k := k + 1;
    }
    RowsUpdate(s, a[..], m, n, dst);
    XoredStretch(s, a[..], s, p, q, n);
  }

  /** The identity, written with one running index. */
  method WriteBitIdentity(inv: array<bool>, n: nat)
    requires inv.Length == Base(n, n)
    modifies inv
    ensures BitMatrix(Rows(inv[..], n, n), n, n)
    ensures forall i, j :: 0 <= i < n && 0 <= j < n ==> Rows(inv[..], n, n)[i][j] == (i == j)
  {
    hide Base;
    var k: nat, i: nat := 0, 0;
    BaseStep(0, n);
    while i < n
      invariant i <= n && k == Base(i, n)
      invariant forall r, j :: 0 <= r < i && 0 <= j < n ==> Rows(inv[..], n, n)[r][j] == (r == j)
    {
      ghost var s, p := inv[..], k;
      BaseBefore(i, n, n);
      BaseStep(i, n);
      var j: nat := 0;
      while j < n
        invariant j <= n && k == p + j
        invariant forall r :: p <= r < p + j ==> inv[r] == (r - p == i)
        invariant forall r :: 0 <= r < inv.Length && !(p <= r < p + j) ==> inv[r] == s[r]
      {
        inv[k] := i == j;
        k := k + 1;
        j := j + 1;
      }
      RowsUpdate(s, inv[..], n, n, i);
      i := i + 1;
    }
  }

  /** The first pass. */
  method BitTriangulate(mat: array<bool>, inv: array<bool>, n: nat, ghost orig: seq<BitRow>) returns (ok: bool)
    requires mat != inv && mat.Length == inv.Length == Base(n, n)
    requires BitReducing(Rows(mat[..], n, n), Rows(inv[..], n, n), orig, n, 0)
    modifies mat, inv
    ensures ok ==> BitReducing(Rows(mat[..], n, n), Rows(inv[..], n, n), orig, n, n)
    ensures !ok ==> BitMatrix(orig, n, n) && BitSingular(orig, n)
  {
    hide *;
    var i := 0;
    while i < n
      invariant 0 <= i <= n && BitReducing(Rows(mat[..], n, n), Rows(inv[..], n, n), orig, n, i)
    {
      if !At(mat, n, n, i, i) {
        var j := i + 1;
        while j < n && !At(mat, n, n, j, i)
          invariant i + 1 <= j <= n && forall l :: i <= l < j ==> !Rows(mat[..], n, n)[l][i]
        {
          j := j + 1;
        }
        if j == n {
          BitStuck(Rows(mat[..], n, n), Rows(inv[..], n, n), orig, n, i);
          return false;
        }
        BitSwap(Rows(mat[..], n, n), Rows(inv[..], n, n), orig, n, i, j);
        SwapRows(mat, n, n, i, j);
        SwapRows(inv, n, n, i, j);
      }
      BitClearBelow(mat, inv, n, i, orig);
      i := i + 1;
    }
    ok := true;
  }

  method BitClearBelow(mat: array<bool>, inv: array<bool>, n: nat, i: nat, ghost orig: seq<BitRow>)
    requires mat != inv && mat.Length == inv.Length == Base(n, n) && i < n
    requires BitReducing(Rows(mat[..], n, n), Rows(inv[..], n, n), orig, n, i) && Rows(mat[..], n, n)[i][i]
    modifies mat, inv
    ensures BitReducing(Rows(mat[..], n, n), Rows(inv[..], n, n), orig, n, i + 1)
  {
    hide *;
    var j := i + 1;
    while j != n
      invariant i + 1 <= j <= n
      invariant BitReducing(Rows(mat[..], n, n), Rows(inv[..], n, n), orig, n, i) && Rows(mat[..], n, n)[i][i]
      invariant forall l :: i + 1 <= l < j ==> !Rows(mat[..], n, n)[l][i]
    {
      if At(mat, n, n, j, i) {
        BitClear(Rows(mat[..], n, n), Rows(inv[..], n, n), orig, n, i, j);
        XorRow(mat, n, n, j, i);
        XorRow(inv, n, n, j, i);
      }
      j := j + 1;
    }
    BitColumnDone(Rows(mat[..], n, n), Rows(inv[..], n, n), orig, n, i);
  }

  /** The second pass, from the last row up. */
  method BitSubstituteAll(mat: array<bool>, inv: array<bool>, n: nat, ghost orig: seq<BitRow>)
    requires mat != inv && mat.Length == inv.Length == Base(n, n)
    requires BitReducing(Rows(mat[..], n, n), Rows(inv[..], n, n), orig, n, n)
    modifies mat, inv
    ensures BitSolved(Rows(mat[..], n, n), Rows(inv[..], n, n), orig, n, 0)
  {
    hide *;
    BitStartSolving(Rows(mat[..], n, n), Rows(inv[..], n, n), orig, n);
    var i: int := n - 1;
    while i >= 0
      invariant -1 <= i < n && BitSolved(Rows(mat[..], n, n), Rows(inv[..], n, n), orig, n, i + 1)
    {
      BitStartColumn(Rows(mat[..], n, n), Rows(inv[..], n, n), orig, n, i);
      var j := 0;
      while j < i
        invariant 0 <= j <= i && BitSubstituting(Rows(mat[..], n, n), Rows(inv[..], n, n), orig, n, i, j)
      {
        if At(mat, n, n, j, i) {
          BitSubstitute(Rows(mat[..], n, n), Rows(inv[..], n, n), orig, n, i, j);
          XorRow(mat, n, n, j, i);
          XorRow(inv, n, n, j, i);
        } else {
          BitNothing(Rows(mat[..], n, n), Rows(inv[..], n, n), orig, n, i, j);
        }
        j := j + 1;
      }
      BitEndColumn(Rows(mat[..], n, n), Rows(inv[..], n, n), orig, n, i);
      i := i - 1;
    }
  }

  /** Returns 0 and leaves the inverse in `inv`, or returns -1 for a singular matrix. */
  method InvertBitmatrix(mat: array<bool>, inv: array<bool>, n: nat) returns (r: int)
    requires mat != inv && mat.Length == inv.Length == Base(n, n)
    modifies mat, inv
    ensures r == 0 || r == -1
    ensures BitMatrix(old(Rows(mat[..], n, n)), n, n)
    ensures r == 0 ==> BitMatrix(Rows(inv[..], n, n), n, n)
    ensures r == 0 ==> BitInverse(Rows(inv[..], n, n), old(Rows(mat[..], n, n)), n)
    ensures r == -1 <==> BitSingular(old(Rows(mat[..], n, n)), n)
  {
    ghost var orig := Rows(mat[..], n, n);
    assert BitMatrix(orig, n, n);
    hide *;
    WriteBitIdentity(inv, n);
    BitStart(orig, Rows(inv[..], n, n), n);
    var ok := BitTriangulate(mat, inv, n, orig);
    if !ok { return -1; }
    BitSubstituteAll(mat, inv, n, orig);
    BitFinished(Rows(mat[..], n, n), Rows(inv[..], n, n), orig, n);
    r := 0;
  }
}

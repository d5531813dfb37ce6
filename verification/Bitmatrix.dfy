/** `jerasure_matrix_to_bitmatrix`: a coding matrix over GF(2^w) written out as a matrix of bits,
    and why coding with the bits is coding in the field. */
module Bitmatrix {
  import opened Bits
  import opened Galois
  import opened GaloisMultiply
  import opened CauchyOnes
  import opened LinearAlgebra
  import opened RowMajor
  import opened BitAlgebra

  /** Row `l`, column `x` of the w by w block in block row `i` and block column `j`. */
  ghost predicate Cell(F: Field, C: seq<Row>, m: nat, k: nat, B: seq<BitRow>, i: nat, l: nat, j: nat, x: nat)
    requires F.w >= 1 && Matrix(F, C, m, k) && BitMatrix(B, Base(m, F.w), Base(k, F.w))
    requires i < m && j < k && l < F.w && x < F.w
  {
    BaseBefore(i, m, F.w);
    BaseBefore(j, k, F.w);
    B[Base(i, F.w) + l][Base(j, F.w) + x] == Bit(F.XPow(x, C[i][j]), l)
  }

  /** Column `x` of the block of `e` holds the bits of 2^x * e. */
  ghost predicate IsBitmatrix(F: Field, C: seq<Row>, m: nat, k: nat, B: seq<BitRow>)
    requires F.w >= 1 && Matrix(F, C, m, k)
  {
    && BitMatrix(B, Base(m, F.w), Base(k, F.w))
    && forall i: nat, l: nat, j: nat, x: nat :: i < m && j < k && l < F.w && x < F.w ==> Cell(F, C, m, k, B, i, l, j, x)
  }

  // ----- filling the array

  /** The blocks before (i, j), and the first `x` columns of that block, are filled. */
  ghost predicate Filled(F: Field, C: seq<Row>, m: nat, k: nat, B: seq<BitRow>, i: nat, j: nat, x: nat)
    requires F.w >= 1 && Matrix(F, C, m, k)
  {
    && BitMatrix(B, Base(m, F.w), Base(k, F.w))
    && forall i': nat, l: nat, j': nat, x': nat ::
         i' < m && l < F.w && j' < k && x' < F.w && Before(i', j', x', i, j, x) ==> Cell(F, C, m, k, B, i', l, j', x')
  }

  /** The order in which the columns of the blocks are written. */
  predicate Before(i: nat, j: nat, x: nat, i': nat, j': nat, x': nat) {
    i < i' || (i == i' && (j < j' || (j == j' && x < x')))
  }

  lemma ColumnFilled(F: Field, C: seq<Row>, m: nat, k: nat, B: seq<BitRow>, T: seq<BitRow>, i: nat, j: nat, x: nat)
    requires F.w >= 1 && Matrix(F, C, m, k) && Filled(F, C, m, k, B, i, j, x) && i < m && j < k && x < F.w
    requires BitMatrix(T, Base(m, F.w), Base(k, F.w))
    requires forall r, c :: 0 <= r < Base(m, F.w) && 0 <= c < Base(k, F.w) && T[r][c] != B[r][c] ==>
      Base(i, F.w) <= r < Base(i, F.w) + F.w && c == Base(j, F.w) + x
    requires forall l: nat :: l < F.w ==> Cell(F, C, m, k, T, i, l, j, x)
    ensures Filled(F, C, m, k, T, i, j, x + 1)
  {
    var w := F.w;
    forall i': nat, l: nat, j': nat, x': nat | i' < m && l < w && j' < k && x' < w
      && Before(i', j', x', i, j, x + 1) ensures Cell(F, C, m, k, T, i', l, j', x')
    {
      hide Base;
      BaseBefore(i', m, w);
      BaseBefore(j', k, w);
      if i' < i { BaseBefore(i', i, w); }
      if j' < j { BaseBefore(j', j, w); }
      if i' < i || j' < j || x' < x { assert Cell(F, C, m, k, B, i', l, j', x'); }
    }
  }

  lemma BlockFilled(F: Field, C: seq<Row>, m: nat, k: nat, B: seq<BitRow>, i: nat, j: nat)
    requires F.w >= 1 && Matrix(F, C, m, k) && Filled(F, C, m, k, B, i, j, F.w)
    ensures Filled(F, C, m, k, B, i, j + 1, 0)
  {
  }

  lemma BlockRowFilled(F: Field, C: seq<Row>, m: nat, k: nat, B: seq<BitRow>, i: nat)
    requires F.w >= 1 && Matrix(F, C, m, k) && Filled(F, C, m, k, B, i, k, 0)
    ensures Filled(F, C, m, k, B, i + 1, 0, 0)
  {
  }

  lemma AllFilled(F: Field, C: seq<Row>, m: nat, k: nat, B: seq<BitRow>)
    requires F.w >= 1 && Matrix(F, C, m, k) && Filled(F, C, m, k, B, m, 0, 0)
    ensures IsBitmatrix(F, C, m, k, B)
  {
  }

  lemma StartFilling(F: Field, C: seq<Row>, m: nat, k: nat, B: seq<BitRow>)
    requires F.w >= 1 && Matrix(F, C, m, k) && BitMatrix(B, Base(m, F.w), Base(k, F.w))
    ensures Filled(F, C, m, k, B, 0, 0, 0)
  {
  }

  /** Where row `l` of block row `i` starts: the running `rowindex` plus `l * rowelts`. */
  lemma RowIndex(i: nat, l: nat, w: nat, n: nat)
    ensures Base(Base(i, w) + l, n) == Base(i, Base(w, n)) + Base(l, n)
  {
    assert (i * w + l) * n == i * (w * n) + l * n;
  }

  /** `T` is `B` with the first `l` bits of `elt` written in column `c`, from row `r` down. */
  ghost predicate ColumnPart(B: seq<BitRow>, T: seq<BitRow>, m: nat, n: nat, r: nat, c: nat, elt: nat, l: nat) {
    && BitMatrix(B, m, n) && BitMatrix(T, m, n) && r + l <= m && c < n
    && (forall r', c' :: 0 <= r' < m && 0 <= c' < n && T[r'][c'] != B[r'][c'] ==> r <= r' < r + l && c' == c)
    && (forall l': nat :: l' < l ==> T[r + l'][c] == Bit(elt, l'))
  }

  lemma ColumnStart(B: seq<BitRow>, m: nat, n: nat, r: nat, c: nat, elt: nat)
    requires BitMatrix(B, m, n) && r <= m && c < n
    ensures ColumnPart(B, B, m, n, r, c, elt, 0)
  {
  }

  lemma ColumnStep(B: seq<BitRow>, T: seq<BitRow>, m: nat, n: nat, r: nat, c: nat, elt: nat, l: nat)
    requires ColumnPart(B, T, m, n, r, c, elt, l) && r + l < m
    ensures |T| == m && |T[r + l]| == n && ColumnPart(B, T[r + l := T[r + l][c := Bit(elt, l)]], m, n, r, c, elt, l + 1)
  {
  }

  lemma ColumnEnd(F: Field, C: seq<Row>, m: nat, k: nat, B: seq<BitRow>, T: seq<BitRow>, i: nat, j: nat, x: nat, elt: nat)
    requires F.w >= 1 && Matrix(F, C, m, k) && Filled(F, C, m, k, B, i, j, x) && i < m && j < k && x < F.w
    requires |C[i]| == k && elt == F.XPow(x, C[i][j])
    requires ColumnPart(B, T, Base(m, F.w), Base(k, F.w), Base(i, F.w), Base(j, F.w) + x, elt, F.w)
    ensures Filled(F, C, m, k, T, i, j, x + 1)
  {
    hide Filled, Base, BitAt;
    ColumnFilled(F, C, m, k, B, T, i, j, x);
  }

  /** Write one column of one block. */
  method FillColumn(F: Field, B: array<bool>, m: nat, k: nat, ghost C: seq<Row>, ghost i: nat, ghost j: nat,
      x: nat, colindex: nat, elt: nat)
    requires F.w >= 1 && Matrix(F, C, m, k) && i < m && j < k && x < F.w && |C[i]| == k && elt == F.XPow(x, C[i][j])
    requires B.Length == Base(Base(m, F.w), Base(k, F.w))
    requires colindex == Base(i, Base(F.w, Base(k, F.w))) + Base(j, F.w)
    requires Filled(F, C, m, k, Rows(B[..], Base(m, F.w), Base(k, F.w)), i, j, x)
    modifies B
    ensures Filled(F, C, m, k, Rows(B[..], Base(m, F.w), Base(k, F.w)), i, j, x + 1)
  {
    hide *;
    var w, R, n := F.w, Base(m, F.w), Base(k, F.w);
    ghost var s: seq<BitRow> := Rows(B[..], R, n);
    BaseBefore(i, m, w);
    BaseBefore(j, k, w);
    ghost var r, c := Base(i, w), Base(j, w) + x;
    IsMatrix(B[..], R, n);
    ColumnStart(s, R, n, r, c, elt);
    var l: nat := 0;
    while l < w
      invariant l <= w && ColumnPart(s, Rows(B[..], R, n), R, n, r, c, elt, l)
    {
      RowIndex(i, l, w, n);
      ColumnStep(s, Rows(B[..], R, n), R, n, r, c, elt, l);
      Put(B, R, n, r + l, c, colindex + x + Base(l, n), Bit(elt, l));
      l := l + 1;
    }
    ColumnEnd(F, C, m, k, s, Rows(B[..], R, n), i, j, x, elt);
  }

  method MatrixToBitmatrix(F: Field, k: nat, m: nat, matrix: array<nat>) returns (B: array<bool>)
    requires F.w >= 1 && matrix.Length == Base(m, k) && Matrix(F, Rows(matrix[..], m, k), m, k)
    ensures fresh(B) && B.Length == Base(Base(m, F.w), Base(k, F.w))
    ensures IsBitmatrix(F, Rows(matrix[..], m, k), m, k, Rows(B[..], Base(m, F.w), Base(k, F.w)))
  {
    hide Base, Filled, Cell, IsBitmatrix, BitAt;
    var w := F.w;
    B := new bool[Base(Base(m, w), Base(k, w))];
    ghost var C: seq<Row> := Rows(matrix[..], m, k);
    StartFilling(F, C, m, k, Rows(B[..], Base(m, w), Base(k, w)));
    var rowindex: nat := 0;
    BaseStep(0, Base(w, Base(k, w)));
    var i: nat := 0;
    while i < m
      invariant i <= m && rowindex == Base(i, Base(w, Base(k, w)))
      invariant Filled(F, C, m, k, Rows(B[..], Base(m, w), Base(k, w)), i, 0, 0)
    {
      BaseStep(i, Base(w, Base(k, w)));
      var colindex := rowindex;
      BaseStep(0, w);
      var j: nat := 0;
      while j < k
        invariant j <= k && colindex == rowindex + Base(j, w)
        invariant Filled(F, C, m, k, Rows(B[..], Base(m, w), Base(k, w)), i, j, 0)
      {
        var elt := At(matrix, m, k, i, j);
        assert Vec(F, C[i], k);
        var x: nat := 0;
        while x < w
          invariant x <= w && Filled(F, C, m, k, Rows(B[..], Base(m, w), Base(k, w)), i, j, x)
          invariant x < w ==> F.El(elt) && elt == F.XPow(x, C[i][j])
        {
          FillColumn(F, B, m, k, C, i, j, x, colindex, elt);
          NextPower(F, elt, x, C[i][j]);
          elt := F.Mul(elt, 2);
          x := x + 1;
        }
        BlockFilled(F, C, m, k, Rows(B[..], Base(m, w), Base(k, w)), i, j);
        BaseStep(j, w);
        colindex := colindex + w;
        j := j + 1;
      }
      BlockRowFilled(F, C, m, k, Rows(B[..], Base(m, w), Base(k, w)), i);
      rowindex := rowindex + Base(w, Base(k, w));
      i := i + 1;
    }
    AllFilled(F, C, m, k, Rows(B[..], Base(m, w), Base(k, w)));
  }

  /** Multiplying by 2 on the right; for w = 1 there is no next column. */
  lemma NextPower(F: Field, elt: nat, x: nat, e: nat)
    requires F.w >= 1 && F.El(elt) && elt == F.XPow(x, e)
    ensures x + 1 < F.w ==> F.El(F.Mul(elt, 2)) && F.Mul(elt, 2) == F.XPow(x + 1, e)
  {
    if x + 1 < F.w {
      Pow2Mono(2, F.w);
      assert Pow2(2) == 4;
      MulComm(F, elt, 2);
      MulStep(F, 2, elt);
      MulOneLeft(F, F.XTime(elt));
      XorUnit(F.XTime(elt));
      XPowStep(F, x, e);
      XTimeEl(F, elt);
    }
  }

  // ----- meaning

  /** `d` holds the symbols that bit position `b` of the packets spells: device `j` has the bits
      found in its `w` packets. */
  ghost predicate Spells(F: Field, P: Packets, k: nat, b: nat, d: Row) {
    && |P| == Base(k, F.w) && Vec(F, d, k)
    && forall j: nat, x: nat :: j < k && x < F.w ==> SpellsBit(F, P, k, b, d[j], j, x)
  }

  ghost predicate SpellsBit(F: Field, P: Packets, k: nat, b: nat, v: nat, j: nat, x: nat)
    requires |P| == Base(k, F.w) && j < k && x < F.w
  {
    BaseBefore(j, k, F.w);
    Bit(v, x) == Bit(P[Base(j, F.w) + x], b)
  }

  /** One block: the first `x` packets of device `j` contribute the low `x` bits of its symbol. */
  lemma {:induction false} BlockSelect(F: Field, row: BitRow, P: Packets, at: nat, x: nat, e: nat, d: nat, l: nat, b: nat)
    requires F.w >= 1 && x <= F.w && at + F.w <= |row| == |P|
    requires forall c: nat :: c < F.w ==> row[at + c] == Bit(F.XPow(c, e), l)
    requires forall c: nat :: c < F.w ==> Bit(P[at + c], b) == Bit(d, c)
    ensures Bit(Select(row, P, at + x), b) == (Bit(Select(row, P, at), b) != Bit(F.Mul(d % Pow2(x), e), l))
  {
    ZeroBits(l);
    ZeroBits(b);
    if x == 0 {
      ModUnique(d, 1, d, 0);
      MulZeroLeft(F, e);
    } else {
      BlockSelect(F, row, P, at, x - 1, e, d, l, b);
      SelectStep(row, P, at + x);
      var low, v := F.Mul(d % Pow2(x - 1), e), if row[at + x - 1] then P[at + x - 1] else 0;
      MulLowBits(F, d, e, x - 1);
      hide *;
      XorBit(Select(row, P, at + x - 1), v, b);
      XorBit(low, if Bit(d, x - 1) then F.XPow(x - 1, e) else 0, l);
      assert row[at + (x - 1)] == Bit(F.XPow(x - 1, e), l) && Bit(P[at + (x - 1)], b) == Bit(d, x - 1);
    }
  }

  /** One row of the bit matrix computes one bit of the inner product over the field. */
  lemma {:induction false} RowSelect(F: Field, C: seq<Row>, m: nat, k: nat, B: seq<BitRow>, P: Packets, d: Row,
      i: nat, l: nat, j: nat, b: nat)
    requires F.w >= 1 && Matrix(F, C, m, k) && IsBitmatrix(F, C, m, k, B) && i < m && l < F.w && j <= k
    requires Spells(F, P, k, b, d)
    ensures |C[i]| == k && Base(i, F.w) + l < |B| && Base(j, F.w) <= |P| == |B[Base(i, F.w) + l]|
    ensures Bit(Select(B[Base(i, F.w) + l], P, Base(j, F.w)), b) == Bit(Dot(F, C[i], d, j), l)
  {
    BaseBefore(i, m, F.w);
    BaseStep(j, F.w);
    assert Vec(F, C[i], k);
    if j < k { BaseBefore(j, k, F.w); }
    var row := B[Base(i, F.w) + l];
    if j == 0 {
      ZeroBits(l);
      ZeroBits(b);
    } else {
      RowSelect(F, C, m, k, B, P, d, i, l, j - 1, b);
      var at, e := Base(j - 1, F.w), C[i][j - 1];
      BaseStep(j - 1, F.w);
      OneBlock(F, C, m, k, B, P, d, i, l, j - 1, b);
      hide *;
      BlockSelect(F, row, P, at, F.w, e, d[j - 1], l, b);
      SmallSymbol(F, d, k, j - 1);
      MulComm(F, e, d[j - 1]);
      DotStep(F, C[i], d, j);
      XorBit(Dot(F, C[i], d, j - 1), F.Mul(e, d[j - 1]), l);
    }
  }

  lemma OneBlock(F: Field, C: seq<Row>, m: nat, k: nat, B: seq<BitRow>, P: Packets, d: Row, i: nat, l: nat, j: nat, b: nat)
    requires F.w >= 1 && Matrix(F, C, m, k) && IsBitmatrix(F, C, m, k, B) && i < m && l < F.w && j < k
    requires Spells(F, P, k, b, d)
    ensures Base(i, F.w) + l < |B| && |C[i]| == k && |d| == k && F.El(C[i][j])
    ensures var row, at := B[Base(i, F.w) + l], Base(j, F.w);
      && at + F.w <= |row| == |P|
      && (forall c: nat :: c < F.w ==> row[at + c] == Bit(F.XPow(c, C[i][j]), l))
      && (forall c: nat :: c < F.w ==> Bit(P[at + c], b) == Bit(d[j], c))
  {
    hide Base, BitAt, Bit, Field.XPow, Pow2;
    BaseBefore(i, m, F.w);
    BaseBefore(j, k, F.w);
    assert Vec(F, C[i], k);
    forall c: nat | c < F.w
      ensures B[Base(i, F.w) + l][Base(j, F.w) + c] == Bit(F.XPow(c, C[i][j]), l)
      ensures Bit(P[Base(j, F.w) + c], b) == Bit(d[j], c)
    {
      assert Cell(F, C, m, k, B, i, l, j, c);
      assert SpellsBit(F, P, k, b, d[j], j, c);
    }
  }

  lemma SmallSymbol(F: Field, d: Row, k: nat, j: nat)
    requires Vec(F, d, k) && j < k
    ensures F.El(d[j]) && d[j] % Pow2(F.w) == d[j]
  {
    SmallMod(d[j], F.w);
  }

  /** Encoding packets with the bit matrix is encoding symbols with the matrix: at every bit
      position, the coding packets spell the products of the field matrix with the data symbols. */
  lemma BitEncodingIsFieldEncoding(F: Field, C: seq<Row>, m: nat, k: nat, B: seq<BitRow>, P: Packets, d: Row, b: nat)
    requires F.w >= 1 && Matrix(F, C, m, k) && IsBitmatrix(F, C, m, k, B) && Spells(F, P, k, b, d)
    ensures BitMatrix(B, |B|, |P|) && Spells(F, BitApply(B, P), m, b, Apply(F, C, d))
  {
    ApplyVec(F, C, d);
    forall i: nat, l: nat | i < m && l < F.w ensures SpellsBit(F, BitApply(B, P), m, b, Apply(F, C, d)[i], i, l) {
      BaseBefore(i, m, F.w);
      RowSelect(F, C, m, k, B, P, d, i, l, k, b);
    }
  }

  // ----- the number of ones

  ghost function ColumnCount(B: seq<BitRow>, r: nat, c: nat, n: nat): nat
    requires r + n <= |B| && forall l :: r <= l < r + n ==> c < |B[l]|
  {
    if n == 0 then 0 else ColumnCount(B, r, c, n - 1) + if B[r + n - 1][c] then 1 else 0
  }

  /** The ones in the stretch of `rows` rows and `cols` columns that starts at (r, c). */
  ghost function BlockCount(B: seq<BitRow>, r: nat, c: nat, rows: nat, cols: nat): nat
    requires r + rows <= |B| && forall l :: r <= l < r + rows ==> c + cols <= |B[l]|
  {
    if cols == 0 then 0 else BlockCount(B, r, c, rows, cols - 1) + ColumnCount(B, r, c + cols - 1, rows)
  }

  lemma {:induction false} ColumnOnesCount(B: seq<BitRow>, r: nat, c: nat, v: nat, n: nat)
    requires r + n <= |B| && forall l :: r <= l < r + n ==> c < |B[l]|
    requires forall l: nat :: l < n ==> B[r + l][c] == Bit(v, l)
    ensures ColumnCount(B, r, c, n) == Ones(v, n)
  {
    if n > 0 {
      ColumnOnesCount(B, r, c, v, n - 1);
      assert B[r + (n - 1)][c] == Bit(v, n - 1);
    }
  }

  lemma {:induction false} BlockColumns(F: Field, B: seq<BitRow>, r: nat, c: nat, e: nat, cols: nat)
    requires F.w >= 1 && r + F.w <= |B| && forall l :: r <= l < r + F.w ==> c + cols <= |B[l]|
    requires forall l: nat, x: nat :: l < F.w && x < cols ==> B[r + l][c + x] == Bit(F.XPow(x, e), l)
    ensures BlockCount(B, r, c, F.w, cols) == ColumnOnes(F, e, cols)
  {
    if cols > 0 {
      BlockColumns(F, B, r, c, e, cols - 1);
      var p, v := c + (cols - 1), F.XPow(cols - 1, e);
      forall l: nat | l < F.w ensures B[r + l][p] == Bit(v, l) {
        assert B[r + l][c + (cols - 1)] == Bit(v, l);
      }
      ColumnOnesCount(B, r, p, v, F.w);
    }
  }

  /** What `cauchy_n_ones` returns for an entry is the number of ones in its block. */
  lemma OnesOfBlock(F: Field, C: seq<Row>, m: nat, k: nat, B: seq<BitRow>, i: nat, j: nat)
    requires F.w >= 1 && Matrix(F, C, m, k) && IsBitmatrix(F, C, m, k, B) && i < m && j < k
    ensures |C[i]| == k && Base(i, F.w) + F.w <= |B| && forall l :: 0 <= l < |B| ==> Base(j, F.w) + F.w <= |B[l]|
    ensures BlockCount(B, Base(i, F.w), Base(j, F.w), F.w, F.w) == BlockOnes(F, C[i][j])
  {
    BaseBefore(i, m, F.w);
    BaseBefore(j, k, F.w);
    assert Vec(F, C[i], k);
    forall l: nat, x: nat | l < F.w && x < F.w
      ensures B[Base(i, F.w) + l][Base(j, F.w) + x] == Bit(F.XPow(x, C[i][j]), l)
    {
      assert Cell(F, C, m, k, B, i, l, j, x);
    }
    BlockColumns(F, B, Base(i, F.w), Base(j, F.w), C[i][j], F.w);
  }
}

/** How many ones a row of a coding matrix has in its bit matrix: the quantity by which
    `cauchy_improve_coding_matrix` chooses. */
module CauchyCounts {
  import opened Galois
  import opened LinearAlgebra
  import opened RowMajor
  import opened BitAlgebra
  import opened CauchyOnes
  import opened Bitmatrix

  /** The number of ones in the bit matrices of a row. */
  function RowOnes(F: Field, row: Row): nat
    requires F.w >= 1
  {
    EntryOnes(F, row, |row|)
  }

  function EntryOnes(F: Field, row: Row, n: nat): nat
    requires F.w >= 1 && n <= |row|
  {
    if n == 0 then 0 else EntryOnes(F, row, n - 1) + BlockOnes(F, row[n - 1])
  }

  /** Counting the columns in two stretches. */
  lemma {:induction false} BlockCountSplit(B: seq<BitRow>, r: nat, c: nat, rows: nat, a: nat, b: nat)
    requires r + rows <= |B| && forall l :: r <= l < r + rows ==> c + a + b <= |B[l]|
    ensures BlockCount(B, r, c, rows, a + b) == BlockCount(B, r, c, rows, a) + BlockCount(B, r, c + a, rows, b)
  {
    if b > 0 { BlockCountSplit(B, r, c, rows, a, b - 1); }
  }

  /** The first `j` entries of row `i` have their ones in the first `j` blocks of block row `i`. */
  lemma {:induction false} EntryOnesCounted(F: Field, C: seq<Row>, m: nat, k: nat, B: seq<BitRow>, i: nat, j: nat)
    requires F.w >= 1 && Matrix(F, C, m, k) && IsBitmatrix(F, C, m, k, B) && i < m && j <= k
    ensures |C[i]| == k && Base(i, F.w) + F.w <= |B| && forall l :: 0 <= l < |B| ==> Base(j, F.w) <= |B[l]|
    ensures BlockCount(B, Base(i, F.w), 0, F.w, Base(j, F.w)) == EntryOnes(F, C[i], j)
  {
    hide IsBitmatrix, BlockOnes;
    BitsFit(F, C, m, k, B, i, j);
    if j > 0 {
      BaseStep(j - 1, F.w);
      EntryOnesCounted(F, C, m, k, B, i, j - 1);
      OnesOfBlock(F, C, m, k, B, i, j - 1);
      BlockCountSplit(B, Base(i, F.w), 0, F.w, Base(j - 1, F.w), F.w);
    }
  }

  lemma BitsFit(F: Field, C: seq<Row>, m: nat, k: nat, B: seq<BitRow>, i: nat, j: nat)
    requires F.w >= 1 && Matrix(F, C, m, k) && IsBitmatrix(F, C, m, k, B) && i < m && j <= k
    ensures |C[i]| == k && Base(i, F.w) + F.w <= |B| && forall l :: 0 <= l < |B| ==> Base(j, F.w) <= |B[l]|
    ensures Base(0, F.w) == 0
  {
    assert Vec(F, C[i], k);
    BaseBefore(i, m, F.w);
    BaseStep(0, F.w);
    if j < k { BaseBefore(j, k, F.w); }
  }

  /** The count of a row is the number of ones in its rows of the bit matrix. */
  lemma RowOnesCounted(F: Field, C: seq<Row>, m: nat, k: nat, B: seq<BitRow>, i: nat)
    requires F.w >= 1 && Matrix(F, C, m, k) && IsBitmatrix(F, C, m, k, B) && i < m
    ensures |C[i]| == k && Base(i, F.w) + F.w <= |B| && forall l :: 0 <= l < |B| ==> Base(k, F.w) <= |B[l]|
    ensures BlockCount(B, Base(i, F.w), 0, F.w, Base(k, F.w)) == RowOnes(F, C[i])
  {
    EntryOnesCounted(F, C, m, k, B, i, k);
  }

  // ----- counting is counting

  ghost function ColumnCells(B: seq<BitRow>, r: nat, c: nat, n: nat): set<(nat, nat)>
    requires r + n <= |B| && forall l :: r <= l < r + n ==> c < |B[l]|
  {
    set l: nat | r <= l < r + n && B[l][c] :: (l, c)
  }

  /** The places of the ones in the stretch. */
  ghost function BlockCells(B: seq<BitRow>, r: nat, c: nat, rows: nat, cols: nat): set<(nat, nat)>
    requires r + rows <= |B| && forall l :: r <= l < r + rows ==> c + cols <= |B[l]|
  {
    set l: nat, x: nat | r <= l < r + rows && c <= x < c + cols && B[l][x] :: (l, x)
  }

  lemma ColumnCellsStep(B: seq<BitRow>, r: nat, c: nat, n: nat)
    requires n >= 1 && r + n <= |B| && forall l :: r <= l < r + n ==> c < |B[l]|
    ensures |ColumnCells(B, r, c, n)| == |ColumnCells(B, r, c, n - 1)| + if B[r + n - 1][c] then 1 else 0
  {
    var l, rest := r + n - 1, ColumnCells(B, r, c, n - 1);
    if B[l][c] {
      assert ColumnCells(B, r, c, n) == rest + {(l, c)} && (l, c) !in rest;
    } else {
      assert ColumnCells(B, r, c, n) == rest;
    }
  }

  lemma {:induction false} ColumnCountCells(B: seq<BitRow>, r: nat, c: nat, n: nat)
    requires r + n <= |B| && forall l :: r <= l < r + n ==> c < |B[l]|
    ensures ColumnCount(B, r, c, n) == |ColumnCells(B, r, c, n)|
  {
    if n == 0 {
      assert ColumnCells(B, r, c, 0) == {};
    } else {
      ColumnCountCells(B, r, c, n - 1);
      ColumnCellsStep(B, r, c, n);
      hide ColumnCells;
    }
  }

  lemma BlockCellsStep(B: seq<BitRow>, r: nat, c: nat, rows: nat, cols: nat)
    requires r + rows <= |B| && cols >= 1 && forall l :: r <= l < r + rows ==> c + cols <= |B[l]|
    ensures var before, last := BlockCells(B, r, c, rows, cols - 1), ColumnCells(B, r, c + cols - 1, rows);
      |BlockCells(B, r, c, rows, cols)| == |before| + |last|
  {
    var all, before, last := BlockCells(B, r, c, rows, cols), BlockCells(B, r, c, rows, cols - 1), ColumnCells(B, r, c + cols - 1, rows);
    assert all == before + last && before !! last;
  }

  lemma {:induction false} BlockCellsCount(B: seq<BitRow>, r: nat, c: nat, rows: nat, cols: nat)
    requires r + rows <= |B| && forall l :: r <= l < r + rows ==> c + cols <= |B[l]|
    ensures BlockCount(B, r, c, rows, cols) == |BlockCells(B, r, c, rows, cols)|
  {
    if cols == 0 {
      assert BlockCells(B, r, c, rows, 0) == {};
    } else {
      hide BlockCells, ColumnCells, ColumnCount;
      BlockCellsCount(B, r, c, rows, cols - 1);
      ColumnCountCells(B, r, c + cols - 1, rows);
      BlockCellsStep(B, r, c, rows, cols);
    }
  }

  /** `BlockCount` is the number of ones. */
  lemma BlockCountIsOnes(B: seq<BitRow>, r: nat, c: nat, rows: nat, cols: nat)
    requires r + rows <= |B| && forall l :: r <= l < r + rows ==> c + cols <= |B[l]|
    ensures BlockCount(B, r, c, rows, cols) == |set l: nat, x: nat | r <= l < r + rows && c <= x < c + cols && B[l][x] :: (l, x)|
  {
    BlockCellsCount(B, r, c, rows, cols);
  }
}

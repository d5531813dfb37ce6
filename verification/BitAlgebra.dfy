/** Linear algebra over GF(2) as the bit-matrix routines use it: a row of zeros and ones selects
    packets, and the selected packets are added with exclusive or.  A packet of any size is the
    natural number that has its bits. */
module BitAlgebra {
  import opened Bits
  import opened RowMajor

  type BitRow = seq<bool>
  type Packets = seq<nat>

  /** The sum of the selected packets among the first `n`. */
  ghost function Select(row: BitRow, x: Packets, n: nat): nat
    requires n <= |row| && n <= |x|
  {
    SumSelected(row, x, n)
  }

  ghost function SumSelected(row: BitRow, x: Packets, n: nat): nat
    requires n <= |row| && n <= |x|
  {
    if n == 0 then 0 else Xor(SumSelected(row, x, n - 1), if row[n - 1] then x[n - 1] else 0)
  }

  lemma SelectStep(row: BitRow, x: Packets, n: nat)
    requires 1 <= n <= |row| && n <= |x|
    ensures Select(row, x, n) == Xor(Select(row, x, n - 1), if row[n - 1] then x[n - 1] else 0)
    ensures !row[n - 1] ==> Select(row, x, n) == Select(row, x, n - 1)
  {
    XorUnit(Select(row, x, n - 1));
  }

  /** Exclusive or of two rows. */
  function RowXor(a: BitRow, b: BitRow): (c: BitRow)
    requires |a| == |b|
    ensures |c| == |a| && forall j :: 0 <= j < |a| ==> c[j] == (a[j] != b[j])
  {
    seq(|a|, j requires 0 <= j < |a| => a[j] != b[j])
  }

  lemma {:induction false} SelectXor(a: BitRow, b: BitRow, x: Packets, n: nat)
    requires |a| == |b| && n <= |a| && n <= |x|
    ensures Select(RowXor(a, b), x, n) == Xor(Select(a, x, n), Select(b, x, n))
  {
    if n > 0 {
      SelectXor(a, b, x, n - 1);
      SelectStep(a, x, n);
      SelectStep(b, x, n);
      SelectStep(RowXor(a, b), x, n);
      var v := x[n - 1];
      XorMedial(Select(a, x, n - 1), if a[n - 1] then v else 0, Select(b, x, n - 1), if b[n - 1] then v else 0);
      XorSelf(v);
      XorUnit(v);
      XorUnit(0);
    }
  }

  lemma {:induction false} SelectNone(row: BitRow, x: Packets, n: nat)
    requires n <= |row| && n <= |x| && forall j :: 0 <= j < n ==> !row[j] || x[j] == 0
    ensures Select(row, x, n) == 0
  {
    if n > 0 {
      SelectNone(row, x, n - 1);
      SelectStep(row, x, n);
    }
  }

  lemma {:induction false} SelectUnit(row: BitRow, x: Packets, p: nat, n: nat)
    requires n <= |row| && n <= |x| && p < n && forall j :: 0 <= j < n ==> row[j] == (j == p)
    ensures Select(row, x, n) == x[p]
  {
    SelectStep(row, x, n);
    if p == n - 1 {
      SelectNone(row, x, n - 1);
      XorUnit(x[p]);
    } else {
      SelectUnit(row, x, p, n - 1);
    }
  }

  lemma {:induction false} SelectSame(a: BitRow, b: BitRow, x: Packets, y: Packets, n: nat)
    requires n <= |a| && n <= |b| && n <= |x| && n <= |y|
    requires forall j :: 0 <= j < n ==> a[j] == b[j] && (a[j] ==> x[j] == y[j])
    ensures Select(a, x, n) == Select(b, y, n)
  {
    if n > 0 { SelectSame(a, b, x, y, n - 1); }
  }

  /** Filling in a packet that was zero. */
  lemma {:induction false} SelectFill(row: BitRow, x: Packets, j: nat, v: nat, n: nat)
    requires n <= |row| && n <= |x| && j < |x| && x[j] == 0
    ensures Select(row, x[j := v], n) == Xor(Select(row, x, n), if j < n && row[j] then v else 0)
  {
    XorUnit(Select(row, x, n));
    if n > 0 {
      SelectFill(row, x, j, v, n - 1);
      SelectStep(row, x, n);
      SelectStep(row, x[j := v], n);
      var d, p, q := Select(row, x, n - 1), if row[n - 1] then x[n - 1] else 0, if j < n - 1 && row[j] then v else 0;
      XorUnit(d);
      XorUnit(Select(row, x[j := v], n - 1));
      XorAssoc(d, p, q);
      XorComm(p, q);
      XorAssoc(d, q, p);
    }
  }

  // ----- matrices

  ghost predicate BitMatrix(M: seq<BitRow>, m: nat, n: nat) {
    |M| == m && forall i :: 0 <= i < m ==> |M[i]| == n
  }

  /** The rows stored in an array of bits. */
  lemma IsMatrix(s: seq<bool>, m: nat, n: nat)
    requires |s| == Base(m, n)
    ensures BitMatrix(Rows(s, m, n), m, n)
  {
  }

  ghost function BitApply(M: seq<BitRow>, x: Packets): (y: Packets)
    requires BitMatrix(M, |M|, |x|)
    ensures |y| == |M| && forall i :: 0 <= i < |M| ==> y[i] == Select(M[i], x, |x|)
  {
    seq(|M|, i requires 0 <= i < |M| => Select(M[i], x, |x|))
  }

  /** `inv * orig` sends every vector of packets to itself. */
  ghost predicate BitInverse(inv: seq<BitRow>, orig: seq<BitRow>, n: nat)
    requires BitMatrix(inv, n, n) && BitMatrix(orig, n, n)
  {
    forall x: Packets :: |x| == n ==> BitApply(inv, BitApply(orig, x)) == x
  }

  ghost predicate BitKills(M: seq<BitRow>, x: Packets, n: nat)
    requires BitMatrix(M, n, n) && |x| == n
  {
    forall i :: 0 <= i < n ==> Select(M[i], x, n) == 0
  }

  ghost predicate BitSingular(M: seq<BitRow>, n: nat)
    requires BitMatrix(M, n, n)
  {
    exists x: Packets, p :: |x| == n && BitKills(M, x, n) && 0 <= p < n && x[p] != 0
  }

  /** A stretch of `t` that was xored with a stretch of `u`. */
  lemma XoredStretch(s: seq<bool>, t: seq<bool>, u: seq<bool>, p: nat, o: nat, n: nat)
    requires p + n <= |s| == |t| && o + n <= |u|
    requires forall x :: p <= x < p + n ==> t[x] == (s[x] != u[x - p + o])
    ensures t[p..p + n] == RowXor(s[p..p + n], u[o..o + n])
  {
    var a, b, c := t[p..p + n], s[p..p + n], u[o..o + n];
    forall j | 0 <= j < n ensures a[j] == RowXor(b, c)[j] {
      assert t[p + j] == (s[p + j] != u[p + j - p + o]);
    }
  }
}

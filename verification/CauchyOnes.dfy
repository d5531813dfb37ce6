/** `cauchy_n_ones`: how many ones the w by w bit matrix of a field element has, counted column
    by column and updated incrementally from one power of 2 to the next. */
module CauchyOnes {
  import opened Bits
  import opened Galois
  import opened GaloisMultiply

  /** The number of ones among the low `k` bits. */
  function Ones(n: nat, k: nat): nat {
    if k == 0 then 0 else Ones(n, k - 1) + if Bit(n, k - 1) then 1 else 0
  }

  /** The ones of the columns e, 2e, .., 2^(k-1) e of the bit matrix of `e`. */
  function ColumnOnes(F: Field, e: nat, k: nat): nat
    requires F.w >= 1
  {
    if k == 0 then 0 else ColumnOnes(F, e, k - 1) + Ones(F.XPow(k - 1, e), F.w)
  }

  function BlockOnes(F: Field, e: nat): nat
    requires F.w >= 1
  {
    ColumnOnes(F, e, F.w)
  }

  /** The powers of two that make up the low `k` bits of `q`: the table `ONEs[w]`. */
  function SetBits(q: nat, k: nat): seq<nat> {
    if k == 0 then [] else SetBits(q, k - 1) + if Bit(q, k - 1) then [Pow2(k - 1)] else []
  }

  /** What toggling the first `j` listed bits has changed, seen from the toggled word `n`. */
  function Change(n: nat, bits: seq<nat>, j: nat): int
    requires j <= |bits|
  {
    if j == 0 then 0 else Change(n, bits, j - 1) + if And(bits[j - 1], n) != 0 then 1 else -1
  }

  lemma {:induction false} ChangePrefix(n: nat, a: seq<nat>, b: seq<nat>, j: nat)
    requires j <= |a| <= |b| && a == b[..|a|]
    ensures Change(n, a, j) == Change(n, b, j)
  {
    if j > 0 { ChangePrefix(n, a, b, j - 1); }
  }

  /** The incremental rule: toggling the bits of `q` changes the count by `Change`. */
  lemma {:induction false} ToggleCount(a: nat, q: nat, k: nat)
    ensures var n, bits := Xor(a, q), SetBits(q, k); Ones(n, k) == Ones(a, k) + Change(n, bits, |bits|)
  {
    if k > 0 {
      var n, bits, all := Xor(a, q), SetBits(q, k - 1), SetBits(q, k);
      ToggleCount(a, q, k - 1);
      XorBit(a, q, k - 1);
      AndPow2(k - 1, n);
      ChangePrefix(n, bits, all, |bits|);
    }
  }

  lemma {:induction false} OnesDouble(n: nat, k: nat)
    ensures Ones(2 * n, k + 1) == Ones(n, k)
  {
    if k > 0 {
      OnesDouble(n, k - 1);
      assert 2 * n / 2 == n;
      BitHalf(2 * n, k);
    } else {
      BitHalf(2 * n, 0);
    }
  }

  lemma BitHalf(x: nat, i: nat)
    ensures Bit(x, i) == if i == 0 then x % 2 == 1 else Bit(x / 2, i - 1)
  {
  }

  lemma {:induction false} OnesSame(a: nat, b: nat, k: nat)
    requires forall i: nat :: i < k ==> Bit(a, i) == Bit(b, i)
    ensures Ones(a, k) == Ones(b, k)
  {
    if k > 0 { OnesSame(a, b, k - 1); }
  }

  /** Dropping the top bit and shifting loses exactly that one. */
  lemma ShiftOut(F: Field, n: nat)
    requires F.w >= 1 && F.El(n) && Bit(n, F.w - 1)
    ensures var h := Xor(n, Pow2(F.w - 1));
      2 * h == 2 * n % Pow2(F.w) && Ones(2 * h, F.w) == Ones(n, F.w) - 1
  {
    var w, p := F.w, Pow2(F.w - 1);
    var h := Xor(n, p);
    forall i: nat | i < w ensures Bit(h, i) == (i != w - 1 && Bit(n, i)) {
      XorBit(n, p, i);
      BitPow2(w - 1, i);
    }
    OnesSame(h, n, w - 1);
    OnesDouble(h, w - 1);
    assert Pow2(w) == 2 * p;
    ElXor(F, n, p);
    TopBit(F, h);
    XorDouble(n, p);
    XorMod(2 * n, 2 * p, w);
    SmallMod(2 * h, w);
    XorUnit(2 * n % Pow2(w));
    ModUnique(2 * p, 2 * p, 1, 0);
  }

  /** The update from one column to the next. */
  lemma NextColumn(F: Field, n: nat)
    requires F.w >= 1 && F.El(n)
    ensures var pp := F.poly % Pow2(F.w); var bits := SetBits(pp, F.w);
      if Bit(n, F.w - 1)
      then && F.XTime(n) == Xor(2 * Xor(n, Pow2(F.w - 1)), pp)
           && Ones(F.XTime(n), F.w) == Ones(n, F.w) - 1 + Change(F.XTime(n), bits, |bits|)
      else F.XTime(n) == 2 * n && Ones(F.XTime(n), F.w) == Ones(n, F.w)
  {
    if Bit(n, F.w - 1) {
      ShiftOut(F, n);
      XTimeSplit(F, n);
      ToggleCount(2 * Xor(n, Pow2(F.w - 1)), F.poly % Pow2(F.w), F.w);
    } else {
      OnesDouble(n, F.w - 1);
    }
  }

  /** The bits of `2 * highbit`, and the powers of two they stand for. */
  method ReductionBits(F: Field) returns (pp: nat, bits: seq<nat>)
    requires F.w >= 1
    ensures pp == F.poly % Pow2(F.w) && bits == SetBits(pp, F.w)
  {
    HighBitDoubled(F);
    pp := F.XTime(Pow2(F.w - 1));
    bits := [];
    var i: nat := 0;
    while i < F.w
      invariant i <= F.w && bits == SetBits(pp, i)
    {
      if Bit(pp, i) { bits := bits + [Pow2(i)]; }
      i := i + 1;
    }
  }

  lemma HighBitDoubled(F: Field)
    requires F.w >= 1
    ensures F.El(Pow2(F.w - 1)) && F.XTime(Pow2(F.w - 1)) == F.poly % Pow2(F.w)
  {
    var p := Pow2(F.w - 1);
    assert Pow2(F.w) == 2 * p;
    BitPow2(F.w - 1, F.w - 1);
    XTimeSplit(F, p);
    ModUnique(2 * p, 2 * p, 1, 0);
    XorUnit(F.poly % Pow2(F.w));
  }

  method NOnes(F: Field, e: nat) returns (no: nat)
    requires F.w >= 1 && F.El(e)
    ensures no == BlockOnes(F, e)
  {
    var pp, bits := ReductionBits(F);
    var highbit := Pow2(F.w - 1);
    var n := e;
    no := 0;
    var i: nat := 0;
    while i < F.w
      invariant i <= F.w && no == Ones(n, i)
    {
      if Bit(n, i) { no := no + 1; }
      i := i + 1;
    }
    var cno: int := no;
    i := 1;
    while i < F.w
      invariant 1 <= i <= F.w && F.El(n) && n == F.XPow(i - 1, e)
      invariant cno == Ones(n, F.w) && no == ColumnOnes(F, e, i)
    {
      NextColumn(F, n);
      XTimeEl(F, n);
      XPowStep(F, i - 1, e);
      if Bit(n, F.w - 1) {
        n := Xor(n, highbit);
        n := n * 2;
        n := Xor(n, pp);
        cno := cno - 1;
        var j: nat := 0;
        ghost var was := cno;
        while j < |bits|
          invariant j <= |bits| && cno == was + Change(n, bits, j)
        {
          cno := cno + if And(bits[j], n) != 0 then 1 else -1;
          j := j + 1;
        }
      } else {
        n := n * 2;
      }
      no := no + cno;
      i := i + 1;
    }
  }
}

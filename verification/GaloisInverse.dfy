/** `galois_shift_inverse`: the rows y * 2^i, packed one to a word, are inverted by Gaussian
    elimination over GF(2).  Back-substitution only updates the inverse, never the matrix. */
module GaloisInverse {
  import opened Bits
  import opened Galois
  import opened GaloisMultiply

  /** The sum of the rows selected by the low `n` bits of `v`. */
  ghost function Comb(v: nat, rows: seq<nat>, n: nat): nat
    requires n <= |rows|
  {
    if n == 0 then 0 else Xor(Comb(v, rows, n - 1), if Bit(v, n - 1) then rows[n - 1] else 0)
  }

  lemma {:induction false} CombXor(a: nat, b: nat, rows: seq<nat>, n: nat)
    requires n <= |rows|
    ensures Comb(Xor(a, b), rows, n) == Xor(Comb(a, rows, n), Comb(b, rows, n))
  {
    if n > 0 {
      CombXor(a, b, rows, n - 1);
      XorBit(a, b, n - 1);
      var r := rows[n - 1];
      XorSelf(r);
      XorUnit(r);
      XorUnit(0);
      XorMedial(Comb(a, rows, n - 1), if Bit(a, n - 1) then r else 0,
                Comb(b, rows, n - 1), if Bit(b, n - 1) then r else 0);
    }
  }

  lemma {:induction false} CombPow2(i: nat, rows: seq<nat>, n: nat)
    requires n <= |rows|
    ensures Comb(Pow2(i), rows, n) == if i < n then rows[i] else 0
  {
    if n > 0 {
      CombPow2(i, rows, n - 1);
      BitPow2(i, n - 1);
      XorUnit(rows[n - 1]);
    }
  }

  predicate LowBitsClear(x: nat, n: nat) { forall b: nat :: b < n ==> !Bit(x, b) }

  lemma LowBitsClearXor(x: nat, y: nat, n: nat)
    requires LowBitsClear(x, n) && LowBitsClear(y, n) && (Bit(x, n) == Bit(y, n))
    ensures LowBitsClear(Xor(x, y), n + 1)
  {
    forall b: nat | b < n + 1 ensures !Bit(Xor(x, y), b) { XorBit(x, y, b); }
  }

  lemma {:induction false} LowBitsClearMod(x: nat, n: nat)
    requires LowBitsClear(x, n)
    ensures x % Pow2(n) == 0
  {
    if n > 0 {
      LowBitsClearMod(x, n - 1);
      LowBitsStep(x, n - 1);
      AndPow2(n - 1, x);
    }
  }

  /** Elimination has dealt with the columns below `i`; every row is still the combination of
      original rows that its inverse row records. */
  ghost predicate Eliminated(mat: seq<nat>, inv: seq<nat>, orig: seq<nat>, n: nat, i: nat) {
    && |mat| == |inv| == |orig| == n && i <= n
    && (forall j :: 0 <= j < n ==> mat[j] < Pow2(n) && inv[j] < Pow2(n) && mat[j] == Comb(inv[j], orig, n))
    && (forall j: nat :: j < i ==> LowBitsClear(mat[j], j) && Bit(mat[j], j))
    && (forall j: nat :: i <= j < n ==> LowBitsClear(mat[j], i))
  }

  lemma EliminateRow(mat: seq<nat>, inv: seq<nat>, orig: seq<nat>, n: nat, src: nat, dst: nat)
    requires |mat| == |inv| == |orig| == n && src < n && dst < n
    requires mat[src] == Comb(inv[src], orig, n) && mat[dst] == Comb(inv[dst], orig, n)
    requires mat[src] < Pow2(n) && mat[dst] < Pow2(n) && inv[src] < Pow2(n) && inv[dst] < Pow2(n)
    ensures Xor(mat[dst], mat[src]) == Comb(Xor(inv[dst], inv[src]), orig, n)
    ensures Xor(mat[dst], mat[src]) < Pow2(n) && Xor(inv[dst], inv[src]) < Pow2(n)
  {
    CombXor(inv[dst], inv[src], orig, n);
    XorBound(mat[dst], mat[src], n);
    XorBound(inv[dst], inv[src], n);
  }

  // ----- linear functionals, for the case that the rows are dependent

  /** Parity of the bits that `f` and `u` have in common. */
  ghost predicate Parity(f: nat, u: nat, n: nat) {
    n > 0 && Parity(f, u, n - 1) != (Bit(f, n - 1) && Bit(u, n - 1))
  }

  lemma {:induction false} ParityXor(f: nat, g: nat, u: nat, v: nat, n: nat)
    ensures Parity(f, Xor(u, v), n) == (Parity(f, u, n) != Parity(f, v, n))
    ensures Parity(Xor(f, g), u, n) == (Parity(f, u, n) != Parity(g, u, n))
  {
    if n > 0 {
      ParityXor(f, g, u, v, n - 1);
      XorBit(u, v, n - 1);
      XorBit(f, g, n - 1);
    }
  }

  lemma {:induction false} ParityPow2(i: nat, u: nat, n: nat)
    ensures Parity(Pow2(i), u, n) == (i < n && Bit(u, i))
  {
    if n > 0 {
      ParityPow2(i, u, n - 1);
      BitPow2(i, n - 1);
    }
  }

  lemma {:induction false} ParityComb(f: nat, v: nat, rows: seq<nat>, n: nat, m: nat)
    requires m <= n == |rows| && forall j :: 0 <= j < n ==> !Parity(f, rows[j], n)
    ensures !Parity(f, Comb(v, rows, m), n)
  {
    ParityXor(f, f, 0, 0, n);
    XorSelf(0);
    if m > 0 {
      ParityComb(f, v, rows, n, m - 1);
      ParityXor(f, f, Comb(v, rows, m - 1), if Bit(v, m - 1) then rows[m - 1] else 0, n);
    }
  }

  ghost predicate Annihilates(f: nat, rows: seq<nat>, n: nat) {
    forall j :: 0 <= j < |rows| ==> !Parity(f, rows[j], n)
  }

  /** The original rows lie in the span of the current ones. */
  ghost predicate Spans(mat: seq<nat>, orig: seq<nat>, n: nat) {
    forall f: nat :: Annihilates(f, mat, n) ==> Annihilates(f, orig, n)
  }

  lemma SpansAdd(mat: seq<nat>, orig: seq<nat>, n: nat, src: nat, dst: nat)
    requires src != dst && src < |mat| && dst < |mat| && Spans(mat, orig, n)
    ensures Spans(mat[dst := Xor(mat[dst], mat[src])], orig, n)
  {
    var mat' := mat[dst := Xor(mat[dst], mat[src])];
    forall f: nat | Annihilates(f, mat', n) ensures Annihilates(f, orig, n) {
      assert !Parity(f, mat'[src], n) && !Parity(f, mat'[dst], n);
      ParityXor(f, f, mat[dst], mat[src], n);
      forall j | 0 <= j < |mat| ensures !Parity(f, mat[j], n) {
        if j != dst { assert mat'[j] == mat[j]; }
      }
    }
  }

  lemma SpansSwap(mat: seq<nat>, orig: seq<nat>, n: nat, a: nat, b: nat)
    requires a < |mat| && b < |mat| && Spans(mat, orig, n)
    ensures Spans(mat[a := mat[b]][b := mat[a]], orig, n)
  {
    var mat' := mat[a := mat[b]][b := mat[a]];
    forall f: nat | Annihilates(f, mat', n) ensures Annihilates(f, orig, n) {
      forall j | 0 <= j < |mat| ensures !Parity(f, mat[j], n) {
        assert !Parity(f, mat'[if j == a then b else if j == b then a else j], n);
      }
    }
  }

  /** Back-substitution in the columns below `i` finds a functional that vanishes on all rows
      when column `i` has no pivot. */
  lemma {:induction false} NoPivot(mat: seq<nat>, n: nat, i: nat, j: nat) returns (f: nat)
    requires |mat| == n && j <= i < n
    requires forall l: nat :: l < i ==> LowBitsClear(mat[l], l) && Bit(mat[l], l)
    requires forall l: nat :: i <= l < n ==> LowBitsClear(mat[l], i + 1)
    ensures Bit(f, i) && forall l: nat :: j <= l < n ==> !Parity(f, mat[l], n)
    decreases i - j
  {
    if j == i {
      f := Pow2(i);
      BitPow2(i, i);
      forall l: nat | i <= l < n ensures !Parity(f, mat[l], n) { ParityPow2(i, mat[l], n); }
    } else {
      var g := NoPivot(mat, n, i, j + 1);
      if Parity(g, mat[j], n) {
        f := Xor(g, Pow2(j));
        BitPow2(j, i);
        XorBit(g, Pow2(j), i);
        forall l: nat | j <= l < n ensures !Parity(f, mat[l], n) {
          ParityXor(g, Pow2(j), mat[l], 0, n);
          ParityPow2(j, mat[l], n);
        }
      } else {
        f := g;
      }
    }
  }

  /** A functional that vanishes on every row, although it is not zero. */
  ghost predicate Singular(rows: seq<nat>, n: nat) {
    exists f: nat, b: nat :: b < n && Bit(f, b) && Annihilates(f, rows, n)
  }

  // ----- elimination

  /** Add row `i` to every later row that has a one in column `i`. */
  method EliminateColumn(mat: array<nat>, inv: array<nat>, n: nat, i: nat, ghost orig: seq<nat>)
    requires mat != inv && i < n && Eliminated(mat[..], inv[..], orig, n, i) && Bit(mat[i], i)
    requires Spans(mat[..], orig, n)
    modifies mat, inv
    ensures Eliminated(mat[..], inv[..], orig, n, i + 1) && Spans(mat[..], orig, n)
  {
    hide Comb, Spans, Xor, Bit;
    var j := i + 1;
    while j != n
      invariant i + 1 <= j <= n
      invariant Eliminated(mat[..], inv[..], orig, n, i) && Bit(mat[i], i)
      invariant forall l: nat :: i + 1 <= l < j ==> LowBitsClear(mat[l], i + 1)
      invariant Spans(mat[..], orig, n)
    {
      EliminateRow(mat[..], inv[..], orig, n, i, j);
      SpansAdd(mat[..], orig, n, i, j);
      if Bit(mat[j], i) {
        LowBitsClearXor(mat[j], mat[i], i);
        mat[j] := Xor(mat[j], mat[i]);
        inv[j] := Xor(inv[j], inv[i]);
      }
      j := j + 1;
    }
  }

  /** Find a pivot for column `i` and swap its row into place. */
  method Pivot(mat: array<nat>, inv: array<nat>, n: nat, i: nat, ghost orig: seq<nat>) returns (found: bool)
    requires mat != inv && i < n && Eliminated(mat[..], inv[..], orig, n, i)
    requires Spans(mat[..], orig, n)
    modifies mat, inv
    ensures found ==> Eliminated(mat[..], inv[..], orig, n, i) && Bit(mat[i], i) && Spans(mat[..], orig, n)
    ensures !found ==> Singular(orig, n)
  {
    if !Bit(mat[i], i) {
      var j := i + 1;
      while j < n && !Bit(mat[j], i)
        invariant i + 1 <= j <= n && forall l: nat :: i <= l < j ==> !Bit(mat[l], i)
      {
        j := j + 1;
      }
      if j == n {
        ghost var f := NoPivot(mat[..], n, i, 0);
        assert Annihilates(f, mat[..], n);
        return false;
      }
      SpansSwap(mat[..], orig, n, i, j);
      mat[i], mat[j] := mat[j], mat[i];
      inv[i], inv[j] := inv[j], inv[i];
    }
    found := true;
  }

  /** The rows from `i` on are solved; the others still carry their columns below `i`. */
  ghost predicate BackSubstituted(mat: seq<nat>, inv: seq<nat>, orig: seq<nat>, n: nat, i: nat) {
    && |mat| == |inv| == |orig| == n && i <= n
    && (forall j :: 0 <= j < n ==> inv[j] < Pow2(n))
    && (forall j: nat :: j < n ==> LowBitsClear(mat[j], j) && Bit(mat[j], j))
    && (forall j: nat :: j < i ==> Comb(inv[j], orig, n) == mat[j] % Pow2(i))
    && (forall j: nat :: i <= j < n ==> Comb(inv[j], orig, n) == Pow2(j))
  }

  lemma SolvedRow(x: nat, i: nat)
    requires LowBitsClear(x, i) && Bit(x, i)
    ensures x % Pow2(i + 1) == Pow2(i)
  {
    LowBitsStep(x, i);
    LowBitsClearMod(x, i);
    AndPow2(i, x);
  }

  /** Row `j` loses its column `i`. */
  lemma SubstituteRow(x: nat, i: nat, a: nat, b: nat, orig: seq<nat>, n: nat)
    requires |orig| == n && Comb(a, orig, n) == x % Pow2(i + 1) && Comb(b, orig, n) == Pow2(i)
    ensures Bit(x, i) ==> Comb(Xor(a, b), orig, n) == x % Pow2(i)
    ensures !Bit(x, i) ==> Comb(a, orig, n) == x % Pow2(i)
  {
    hide *;
    LowBitsStep(x, i);
    AndPow2(i, x);
    CombXor(a, b, orig, n);
    XorUnit(x % Pow2(i));
    XorCancel(Pow2(i), x % Pow2(i));
  }

  method BackSubstitute(mat: array<nat>, inv: array<nat>, n: nat, i: nat, ghost orig: seq<nat>)
    requires mat != inv && i < n && BackSubstituted(mat[..], inv[..], orig, n, i + 1)
    modifies inv
    ensures BackSubstituted(mat[..], inv[..], orig, n, i)
  {
    SolvedRow(mat[i], i);
    var j := 0;
    while j < i
      invariant 0 <= j <= i
      invariant forall l :: 0 <= l < n ==> inv[l] < Pow2(n)
      invariant forall l: nat :: l < j ==> Comb(inv[l], orig, n) == mat[l] % Pow2(i)
      invariant forall l: nat :: j <= l < i ==> Comb(inv[l], orig, n) == mat[l] % Pow2(i + 1)
      invariant forall l: nat :: i <= l < n ==> Comb(inv[l], orig, n) == Pow2(l)
    {
      SubstituteRow(mat[j], i, inv[j], inv[i], orig, n);
      XorBound(inv[j], inv[i], n);
      if Bit(mat[j], i) {
        inv[j] := Xor(inv[j], inv[i]);
      }
      j := j + 1;
    }
  }

  lemma StartEliminated(mat: seq<nat>, inv: seq<nat>, n: nat)
    requires |mat| == |inv| == n && forall j :: 0 <= j < n ==> mat[j] < Pow2(n) && inv[j] == Pow2(j)
    ensures Eliminated(mat, inv, mat, n, 0)
  {
    forall j: nat | j < n ensures inv[j] < Pow2(n) && mat[j] == Comb(inv[j], mat, n) {
      CombPow2(j, mat, n);
      Pow2Mono(j + 1, n);
    }
  }

  /** Each inverse row starts by recording its own matrix row. */
  method StartIdentity(mat: array<nat>, inv: array<nat>, n: nat)
    requires mat != inv && mat.Length == inv.Length == n
    requires forall j :: 0 <= j < n ==> mat[j] < Pow2(n)
    modifies inv
    ensures Eliminated(mat[..], inv[..], mat[..], n, 0)
  {
    var i: nat := 0;
    while i < n
      invariant i <= n && forall j: nat :: j < i ==> inv[j] == Pow2(j)
    {
      inv[i] := Pow2(i);
      i := i + 1;
    }
    StartEliminated(mat[..], inv[..], n);
  }

  method InvertBinaryMatrix(mat: array<nat>, inv: array<nat>, n: nat) returns (ok: bool)
    requires mat != inv && mat.Length == inv.Length == n
    requires forall j :: 0 <= j < n ==> mat[j] < Pow2(n)
    modifies mat, inv
    ensures ok ==> forall j: nat :: j < n ==> inv[j] < Pow2(n) && Comb(inv[j], old(mat[..]), n) == Pow2(j)
    ensures !ok ==> Singular(old(mat[..]), n)
  {
    ghost var orig := mat[..];
    StartIdentity(mat, inv, n);
    assert Spans(orig, orig, n);
    hide Comb, Bit, Xor, Singular, Spans, LowBitsClear;
    var i: nat := 0;
    while i < n
      invariant 0 <= i <= n
      invariant Eliminated(mat[..], inv[..], orig, n, i) && Spans(mat[..], orig, n)
    {
      ok := Pivot(mat, inv, n, i, orig);
      if !ok { return; }
      EliminateColumn(mat, inv, n, i, orig);
      i := i + 1;
    }
    forall j: nat | j < n ensures mat[j] % Pow2(n) == mat[j] { SmallMod(mat[j], n); }
    i := n;
    while i > 0
      invariant i <= n && BackSubstituted(mat[..], inv[..], orig, n, i)
    {
      i := i - 1;
      BackSubstitute(mat, inv, n, i, orig);
    }
    ok := true;
  }

  // ----- the inverse of a field element

  lemma {:induction false} CombIsMul(F: Field, v: nat, y: nat, rows: seq<nat>, n: nat)
    requires F.w >= 1 && n <= |rows| && forall l: nat :: l < n ==> rows[l] == F.XPow(l, y)
    ensures Comb(v, rows, n) == F.Mul(v % Pow2(n), y)
  {
    if n > 0 {
      CombIsMul(F, v, y, rows, n - 1);
      MulLowBits(F, v, y, n - 1);
    }
  }

  /** If a functional vanishes on all multiples of `y`, then `y` has no inverse. */
  lemma SingularNoInverse(F: Field, y: nat, rows: seq<nat>)
    requires F.w >= 1 && F.El(y) && |rows| == F.w
    requires forall l: nat :: l < F.w ==> rows[l] == F.XPow(l, y)
    requires Singular(rows, F.w)
    ensures !HasInverse(F, y)
  {
    if HasInverse(F, y) {
      var z :| F.El(z) && F.Mul(y, z) == 1;
      var f: nat, b: nat :| b < F.w && Bit(f, b) && Annihilates(f, rows, F.w);
      var u := Pow2(b);
      Pow2Mono(b + 1, F.w);
      var v := F.Mul(u, z);
      MulEl(F, u, z);
      MulComm(F, y, z);
      MulAssoc(F, u, z, y);
      MulOneRight(F, u);
      SmallMod(v, F.w);
      CombIsMul(F, v, y, rows, F.w);
      ParityComb(f, v, rows, F.w, F.w);
      ParityPow2Right(f, b, F.w);
    }
  }

  lemma {:induction false} ParityPow2Right(f: nat, b: nat, n: nat)
    ensures Parity(f, Pow2(b), n) == (b < n && Bit(f, b))
  {
    if n > 0 {
      ParityPow2Right(f, b, n - 1);
      BitPow2(b, n - 1);
    }
  }

  /** `ok` is false where the code prints its error and exits. */
  method ShiftInverse(F: Field, y0: nat) returns (ok: bool, inverse: nat)
    requires F.w >= 1 && F.El(y0)
    ensures ok <==> HasInverse(F, y0)
    ensures ok ==> F.El(inverse) && F.Mul(y0, inverse) == 1
  {
    var y: nat, i: nat := y0, 0;
    var mat, inv := new nat[F.w], new nat[F.w];
    while i < F.w
      invariant 0 <= i <= F.w && F.El(y) && y == F.XPow(i, y0)
      invariant forall l: nat :: l < i ==> mat[l] == F.XPow(l, y0) && mat[l] < Pow2(F.w)
    {
      mat[i] := y;
      XPowStep(F, i, y0);
      y := Double(F, y);
      i := i + 1;
    }
    ghost var rows := mat[..];
    ok := InvertBinaryMatrix(mat, inv, F.w);
    if ok {
      inverse := inv[0];
      CombIsMul(F, inverse, y0, rows, F.w);
      SmallMod(inverse, F.w);
      MulComm(F, inverse, y0);
    } else {
      SingularNoInverse(F, y0, rows);
      inverse := 0;
    }
  }
}

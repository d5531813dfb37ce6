/** The seven byte-by-byte product tables for w = 32 and the sixteen lookups that multiply
    two 32-bit words with them. */
module GaloisSplit {
  import opened Bits
  import opened Galois
  import opened GaloisMultiply
  import opened GaloisTables

  // ----- cutting a word into bytes

  lemma {:induction false} XorDisjoint(a: nat, c: nat, n: nat)
    requires a < Pow2(n)
    ensures Xor(a, c * Pow2(n)) == a + c * Pow2(n)
  {
    if n == 0 {
      XorUnit(c);
    } else {
      var p := Pow2(n - 1);
      XorDisjoint(a / 2, c, n - 1);
      assert c * Pow2(n) == 2 * (c * p);
      XorAppend(a, c * p);
    }
  }

  lemma XorAppend(a: nat, h: nat)
    ensures Xor(a, 2 * h) == 2 * Xor(a / 2, h) + a % 2
  {
    hide *;
    XorHalves(a, 2 * h);
    assert 2 * h / 2 == h && 2 * h % 2 == 0;
  }

  function Byte(x: nat, n: nat): nat { x / Pow2(n) % 256 }

  lemma ByteStep(x: nat, n: nat)
    ensures x % Pow2(n + 8) == Xor(x % Pow2(n), Byte(x, n) * Pow2(n))
  {
    hide *;
    Pow2Of8();
    ByteIs(x, n);
    var p := Pow2(n);
    var q, r := x / p, x % p;
    Pow2Add(n, 8);
    XorDisjoint(r, q % 256, n);
    ByteArith(x, p, q, r);
    ModUnique(x, p * 256, q / 256, q % 256 * p + r);
  }

  lemma ByteIs(x: nat, n: nat)
    ensures Byte(x, n) == x / Pow2(n) % 256 < 256
  {
  }

  lemma Pow2Of8()
    ensures Pow2(8) == 256
  {
  }

  lemma ByteArith(x: nat, p: nat, q: nat, r: nat)
    requires p > 0 && x == q * p + r && r < p
    ensures x == q / 256 * (p * 256) + (q % 256 * p + r)
    ensures q % 256 * p + r < p * 256
  {
    var h, l := q / 256, q % 256;
    assert q == 256 * h + l;
    Distribute(256 * h, l, p);
    Distribute(255 - l, l, p);
    assert 256 * h * p == h * (p * 256);
  }

  lemma Distribute(a: int, b: int, p: nat)
    ensures (a + b) * p == a * p + b * p
    ensures a >= 0 ==> a * p >= 0
  {
  }

  // ----- the tables

  /** Table `t` holds the products of two bytes, shifted by `t` bytes. */
  ghost predicate SplitTables(F: Field, split: seq<seq<nat>>)
    requires F.w >= 1
  {
    |split| == 7 && forall t: nat :: t < 7 ==> IsSplitTable(F, t, split[t])
  }

  ghost predicate IsSplitTable(F: Field, t: nat, table: seq<nat>)
    requires F.w >= 1
  {
    |table| == 65536 && forall p: nat :: p < 65536 ==> table[p] == F.XPow(8 * t, F.Mul(p / 256, p % 256))
  }

  /** Shifting a byte inside the word needs no reduction. */
  lemma {:induction false} ShiftedByte(F: Field, a: nat, n: nat)
    requires F.w >= n + 8 && a < 256
    ensures a * Pow2(n) == F.XPow(n, a) && F.El(a * Pow2(n)) && a * Pow2(n) < Pow2(n + 8)
  {
    Pow2Of8();
    Pow2Mono(n + 8, F.w);
    if n > 0 {
      ShiftedByte(F, a, n - 1);
      XPowStep(F, n - 1, a);
      Pow2Mono(n + 7, F.w - 1);
      DoubleByte(F, a, Pow2(n - 1), n);
    }
  }

  lemma DoubleByte(F: Field, a: nat, p: nat, n: nat)
    requires 1 <= n <= F.w && a * p < Pow2(F.w - 1)
    ensures F.XTime(a * p) == a * (2 * p) == 2 * (a * p) && F.El(a * (2 * p))
  {
    TopBit(F, a * p);
  }

  /** The product of two shifted bytes depends on the sum of the shifts only. */
  lemma ShiftedProduct(F: Field, a: nat, b: nat, i: nat, j: nat)
    requires F.w == 32 && a < 256 && b < 256 && i < 4 && j < 4
    ensures F.El(a * Pow2(8 * i)) && F.El(b * Pow2(8 * j))
    ensures F.Mul(a * Pow2(8 * i), b * Pow2(8 * j)) == F.XPow(8 * (i + j), F.Mul(a, b))
  {
    ShiftedByte(F, a, 8 * i);
    ShiftedByte(F, b, 8 * j);
    ShiftedByte(F, a, 0);
    ShiftedByte(F, b, 0);
    assert a * Pow2(0) == a && b * Pow2(0) == b;
    hide *;
    MulXPow(F, F.XPow(8 * i, a), b, 8 * j);
    XPowEl(F, 8 * i, a);
    MulComm(F, F.XPow(8 * i, a), b);
    MulXPow(F, b, a, 8 * i);
    MulComm(F, a, b);
    XPowAdd(F, 8 * j, 8 * i, F.Mul(a, b));
  }

  lemma {:induction false} MulXPow(F: Field, x: nat, y: nat, i: nat)
    requires F.w >= 1 && F.El(x) && F.El(y)
    ensures F.Mul(x, F.XPow(i, y)) == F.XPow(i, F.Mul(x, y))
    decreases i
  {
    if i > 0 {
      XTimeEl(F, y);
      MulXTime(F, x, y);
      MulXPow(F, x, F.XTime(y), i - 1);
    }
  }

  /** The table for bytes `i` and `j` of the operands. */
  method FillSplitTable(F: Field, i: nat, j: nat) returns (table: array<nat>)
    requires F.w == 32 && i < 4 && j < 4
    ensures fresh(table) && IsSplitTable(F, i + j, table[..])
  {
    table := new nat[65536];
    var p1: nat, index: nat := 0, 0;
    while p1 < 256
      invariant p1 <= 256 && index == p1 * 256
      invariant forall p: nat :: p < index ==> table[p] == F.XPow(8 * (i + j), F.Mul(p / 256, p % 256))
    {
      var p2: nat := 0;
      while p2 < 256
        invariant p2 <= 256 && index == p1 * 256 + p2
        invariant forall p: nat :: p < index ==> table[p] == F.XPow(8 * (i + j), F.Mul(p / 256, p % 256))
      {
        var product := ShiftedMultiply(F, p1, p2, i, j);
        assert index / 256 == p1 && index % 256 == p2;
        table[index] := product;
        index := index + 1;
        p2 := p2 + 1;
      }
      p1 := p1 + 1;
    }
  }

  /** `galois_shift_multiply(p1 << ishift, p2 << jshift, 32)`. */
  method ShiftedMultiply(F: Field, p1: nat, p2: nat, i: nat, j: nat) returns (r: nat)
    requires F.w == 32 && p1 < 256 && p2 < 256 && i < 4 && j < 4
    ensures r == F.XPow(8 * (i + j), F.Mul(p1, p2))
  {
    hide *;
    ShiftedProduct(F, p1, p2, i, j);
    r := ShiftMultiply(F, p1 * Pow2(8 * i), p2 * Pow2(8 * j));
  }

  method CreateSplitTables(F: Field) returns (split: seq<seq<nat>>)
    requires F.w == 32
    ensures SplitTables(F, split)
  {
    split := [];
    var i: nat := 0;
    while i < 4
      invariant i == 0 || i == 3 || i == 6
      invariant |split| == if i == 0 then 0 else if i == 3 then 4 else 7
      invariant forall t: nat :: t < |split| ==> IsSplitTable(F, t, split[t])
    {
      var j: nat := if i == 0 then 0 else 1;
      while j < 4
        invariant j <= 4 && |split| == i + j
        invariant forall t: nat :: t < |split| ==> IsSplitTable(F, t, split[t])
      {
        var table := FillSplitTable(F, i, j);
        split := split + [table[..]];
        j := j + 1;
      }
      i := i + 3;
    }
  }

  method SplitMultiply(F: Field, split: seq<seq<nat>>, x: nat, y: nat) returns (accumulator: nat)
    requires F.w == 32 && SplitTables(F, split) && F.El(x) && F.El(y)
    ensures accumulator == F.Mul(x, y)
  {
    accumulator := 0;
    assert F.Mul(x % Pow2(0), y) == 0 && x < Pow2(32);
    hide *;
    SmallMod(x, 32);
    var i: nat, i8: nat := 0, 0;
    while i < 4
      invariant i <= 4 && i8 == 8 * i
      invariant accumulator == F.Mul(x % Pow2(i8), y)
    {
      accumulator := AddByteProducts(F, split, x, y, i, accumulator);
      i8 := i8 + 8;
      i := i + 1;
    }
  }

  /** `galois_split_w8[t][(a << 8) | b]`. */
  function SplitLookup(F: Field, split: seq<seq<nat>>, t: nat, a: nat, b: nat): (r: nat)
    requires F.w >= 1 && SplitTables(F, split) && t < 7 && a < 256 && b < 256
    ensures r == F.XPow(8 * t, F.Mul(a, b))
  {
    assert IsSplitTable(F, t, split[t]);
    assert (a * 256 + b) / 256 == a && (a * 256 + b) % 256 == b;
    split[t][a * 256 + b]
  }

  /** The four lookups for byte `i` of `x`. */
  method AddByteProducts(F: Field, split: seq<seq<nat>>, x: nat, y: nat, i: nat, acc: nat) returns (r: nat)
    requires F.w == 32 && SplitTables(F, split) && F.El(x) && F.El(y)
    requires i < 4 && acc == F.Mul(x % Pow2(8 * i), y)
    ensures r == F.Mul(x % Pow2(8 * i + 8), y)
  {
    r := acc;
    var j: nat, j8: nat := 0, 0;
    ghost var hi := Byte(x, 8 * i) * Pow2(8 * i);
    MulZeroRight(F, hi);
    XorUnit(acc);
    assert y % Pow2(0) == 0 && y < Pow2(32);
    hide *;
    SmallMod(y, 32);
    while j < 4
      invariant j <= 4 && j8 == 8 * j
      invariant r == Xor(acc, F.Mul(hi, y % Pow2(j8)))
    {
      var a, b := Byte(x, 8 * i), Byte(y, j8);
      ByteIs(x, 8 * i);
      ByteIs(y, j8);
      r := Xor(r, SplitLookup(F, split, i + j, a, b));
      AddByte(F, x, y, i, j);
      XorAssoc(acc, F.Mul(hi, y % Pow2(j8)), F.XPow(8 * (i + j), F.Mul(a, b)));
      j8 := j8 + 8;
      j := j + 1;
    }
    ByteStep(x, 8 * i);
    MulXorLeft(F, x % Pow2(8 * i), hi, y);
  }

  lemma AddByte(F: Field, x: nat, y: nat, i: nat, j: nat)
    requires F.w == 32 && i < 4 && j < 4
    ensures var hi := Byte(x, 8 * i) * Pow2(8 * i);
      F.Mul(hi, y % Pow2(8 * j + 8))
      == Xor(F.Mul(hi, y % Pow2(8 * j)), F.XPow(8 * (i + j), F.Mul(Byte(x, 8 * i), Byte(y, 8 * j))))
  {
    hide *;
    var a, b := Byte(x, 8 * i), Byte(y, 8 * j);
    ByteIs(x, 8 * i);
    ByteIs(y, 8 * j);
    ByteStep(y, 8 * j);
    ShiftedProduct(F, a, b, i, j);
    Pow2Mono(8 * j, 32);
    ElBelow(F, y % Pow2(8 * j));
    MulXorRight(F, a * Pow2(8 * i), y % Pow2(8 * j), b * Pow2(8 * j));
  }
}

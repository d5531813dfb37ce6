/** Machine words as natural numbers: bits, exclusive or, powers of two.

    The C code keeps field elements, table entries and bit masks in `int`.  Here such a word is
    the natural number that has the same bits, so that `<< 1` is doubling and `^` is `Xor`. */
module Bits {

  function Pow2(n: nat): (p: nat)
    ensures p > 0
  {
    PowerOfTwo(n)
  }

  function PowerOfTwo(n: nat): (p: nat)
    ensures p > 0
  {
    if n == 0 then 1 else 2 * PowerOfTwo(n - 1)
  }

  /** Exclusive or of two words. */
  function Xor(a: nat, b: nat): nat { BitwiseXor(a, b) }

  function BitwiseXor(a: nat, b: nat): nat {
    if a == 0 then b
    else if b == 0 then a
    else 2 * BitwiseXor(a / 2, b / 2) + (if a % 2 == b % 2 then 0 else 1)
  }

  predicate Bit(x: nat, i: nat) { BitAt(x, i) }

  predicate BitAt(x: nat, i: nat) {
    if i == 0 then x % 2 == 1 else BitAt(x / 2, i - 1)
  }

  lemma {:induction false} Pow2Mono(m: nat, n: nat)
    requires m <= n
    ensures Pow2(m) <= Pow2(n)
  {
    if m < n { Pow2Mono(m, n - 1); }
  }

  lemma {:induction false} Pow2Add(m: nat, n: nat)
    ensures Pow2(m + n) == Pow2(m) * Pow2(n)
  {
    if n > 0 { Pow2Add(m, n - 1); }
  }

  // ----- exclusive or is an abelian group in which every element is its own inverse

  lemma {:induction false} XorHalves(a: nat, b: nat)
    ensures Xor(a, b) / 2 == Xor(a / 2, b / 2)
    ensures Xor(a, b) % 2 == (if a % 2 == b % 2 then 0 else 1)
  {
  }

  lemma {:induction false} XorComm(a: nat, b: nat)
    ensures Xor(a, b) == Xor(b, a)
  {
    if a != 0 && b != 0 { XorComm(a / 2, b / 2); }
  }

  lemma {:induction false} XorSelf(a: nat)
    ensures Xor(a, a) == 0
  {
    if a != 0 { XorSelf(a / 2); }
  }

  lemma {:induction false} XorAssoc(a: nat, b: nat, c: nat)
    ensures Xor(Xor(a, b), c) == Xor(a, Xor(b, c))
    decreases a + b + c
  {
    if a != 0 && b != 0 && c != 0 {
      XorAssoc(a / 2, b / 2, c / 2);
      XorHalves(a, b);
      XorHalves(b, c);
      XorHalves(Xor(a, b), c);
      XorHalves(a, Xor(b, c));
    }
  }

  lemma XorMedial(a: nat, b: nat, c: nat, d: nat)
    ensures Xor(Xor(a, b), Xor(c, d)) == Xor(Xor(a, c), Xor(b, d))
  {
    hide *;
    calc {
      Xor(Xor(a, b), Xor(c, d));
      { XorAssoc(a, b, Xor(c, d)); }
      Xor(a, Xor(b, Xor(c, d)));
      { XorAssoc(b, c, d); XorComm(b, c); XorAssoc(c, b, d); }
      Xor(a, Xor(c, Xor(b, d)));
      { XorAssoc(a, c, Xor(b, d)); }
      Xor(Xor(a, c), Xor(b, d));
    }
  }

  lemma XorUnit(a: nat)
    ensures Xor(a, 0) == a && Xor(0, a) == a
  {
  }

  lemma XorDouble(a: nat, b: nat)
    ensures Xor(2 * a, 2 * b) == 2 * Xor(a, b)
  {
  }

  lemma XorCancel(a: nat, b: nat)
    ensures Xor(a, Xor(a, b)) == b && Xor(Xor(b, a), a) == b
  {
    XorAssoc(a, a, b);
    XorAssoc(b, a, a);
    XorSelf(a);
  }

  lemma XorZero(a: nat, b: nat)
    ensures Xor(a, b) == 0 <==> a == b
  {
    XorSelf(a);
    XorCancel(a, b);
  }

  lemma {:induction false} XorBound(a: nat, b: nat, n: nat)
    requires a < Pow2(n) && b < Pow2(n)
    ensures Xor(a, b) < Pow2(n)
  {
    if n > 0 && a != 0 && b != 0 { XorBound(a / 2, b / 2, n - 1); }
  }

  lemma {:induction false} XorMod(a: nat, b: nat, n: nat)
    ensures Xor(a, b) % Pow2(n) == Xor(a % Pow2(n), b % Pow2(n))
  {
    if n > 0 {
      XorMod(a / 2, b / 2, n - 1);
      ModHalves(a, n);
      ModHalves(b, n);
      ModHalves(Xor(a, b), n);
      XorHalves(a, b);
      XorHalves(a % Pow2(n), b % Pow2(n));
    }
  }

  lemma ModHalves(a: nat, n: nat)
    requires n > 0
    ensures a % Pow2(n) / 2 == a / 2 % Pow2(n - 1)
    ensures a % Pow2(n) % 2 == a % 2
  {
    var p := Pow2(n - 1);
    assert a == 2 * (a / 2) + a % 2;
    var q, r := (a / 2) / p, (a / 2) % p;
    assert a / 2 == q * p + r;
    assert a == q * (2 * p) + (2 * r + a % 2);
    ModUnique(a, 2 * p, q, 2 * r + a % 2);
  }

  lemma ModUnique(a: int, m: int, q: int, r: int)
    requires 0 <= r < m && a == q * m + r
    ensures a % m == r && a / m == q
  {
    var q', r' := a / m, a % m;
    assert (q - q') * m == r' - r;
    if q > q' { assert (q - q') * m >= m by { MulAtLeast(q - q', m); } }
    if q < q' { assert (q' - q) * m >= m by { MulAtLeast(q' - q, m); } }
  }

  lemma MulAtLeast(k: int, m: int)
    requires k >= 1 && m >= 0
    ensures k * m >= m
  {
  }

  // ----- bits

  lemma {:induction false} XorBit(a: nat, b: nat, i: nat)
    ensures Bit(Xor(a, b), i) == (Bit(a, i) != Bit(b, i))
  {
    XorHalves(a, b);
    if i > 0 { XorBit(a / 2, b / 2, i - 1); }
  }

  lemma {:induction false} SameBits(a: nat, b: nat, n: nat)
    requires a < Pow2(n) && b < Pow2(n)
    requires forall i: nat :: i < n ==> Bit(a, i) == Bit(b, i)
    ensures a == b
  {
    if n > 0 {
      assert Bit(a, 0) == Bit(b, 0);
      forall i: nat | i < n - 1 ensures Bit(a / 2, i) == Bit(b / 2, i) {
        assert Bit(a, i + 1) == Bit(b, i + 1);
      }
      SameBits(a / 2, b / 2, n - 1);
    }
  }

  lemma {:induction false} BitPow2(n: nat, i: nat)
    ensures Bit(Pow2(n), i) == (i == n)
  {
    if i > 0 && n > 0 { BitPow2(n - 1, i - 1); }
    else if n == 0 && i > 0 { ZeroBits(i - 1); }
  }

  lemma {:induction false} ZeroBits(i: nat)
    ensures !Bit(0, i)
  {
    if i > 0 { ZeroBits(i - 1); }
  }

  /** Bitwise and. */
  function And(a: nat, b: nat): nat { BitwiseAnd(a, b) }

  function BitwiseAnd(a: nat, b: nat): nat {
    if a == 0 || b == 0 then 0
    else 2 * BitwiseAnd(a / 2, b / 2) + (if a % 2 == 1 && b % 2 == 1 then 1 else 0)
  }

  lemma {:induction false} AndPow2(k: nat, s: nat)
    ensures And(Pow2(k), s) == if Bit(s, k) then Pow2(k) else 0
  {
    if s == 0 {
      ZeroBits(k);
    } else if k > 0 {
      AndPow2(k - 1, s / 2);
    } else {
      assert And(0, s / 2) == 0;
    }
  }

  /** The low `k + 1` bits are the low `k` bits and bit `k`. */
  lemma {:induction false} LowBitsStep(s: nat, k: nat)
    ensures s % Pow2(k + 1) == Xor(s % Pow2(k), And(Pow2(k), s))
  {
    AndPow2(k, s);
    if k > 0 {
      LowBitsStep(s / 2, k - 1);
      AndPow2(k - 1, s / 2);
      ModHalves(s, k + 1);
      ModHalves(s, k);
      assert Pow2(k) == 2 * Pow2(k - 1) && (Bit(s, k) <==> Bit(s / 2, k - 1));
      hide *;
      XorHalves(s % Pow2(k), And(Pow2(k), s));
    } else {
      XorUnit(s % 2);
    }
  }

  lemma SmallMod(x: nat, n: nat)
    requires x < Pow2(n)
    ensures x % Pow2(n) == x
  {
    ModUnique(x, Pow2(n), 0, x);
  }
}

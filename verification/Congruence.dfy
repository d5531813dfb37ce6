/** Congruences and greatest common divisors, for the placement design. */
module Congruence {
  import opened Bits

  ghost predicate Cong(a: int, b: int, c: int) { exists k :: a - b == k * c }

  lemma CongIntro(a: int, b: int, c: int, k: int)
    requires a - b == k * c
    ensures Cong(a, b, c)
  {
  }

  lemma CongSym(a: int, b: int, c: int)
    requires Cong(a, b, c)
    ensures Cong(b, a, c)
  {
    var k :| a - b == k * c;
    CongIntro(b, a, c, -k);
  }

  lemma CongTrans(a: int, b: int, d: int, c: int)
    requires Cong(a, b, c) && Cong(b, d, c)
    ensures Cong(a, d, c)
  {
    var k :| a - b == k * c;
    var l :| b - d == l * c;
    assert a - d == (k + l) * c;
  }

  lemma CongAdd(a: int, b: int, x: int, y: int, c: int)
    requires Cong(a, b, c) && Cong(x, y, c)
    ensures Cong(a + x, b + y, c) && Cong(a - x, b - y, c)
  {
    var k :| a - b == k * c;
    var l :| x - y == l * c;
    assert (a + x) - (b + y) == (k + l) * c;
    assert (a - x) - (b - y) == (k - l) * c;
  }

  lemma CongMul(a: int, b: int, x: int, c: int)
    requires Cong(a, b, c)
    ensures Cong(a * x, b * x, c)
  {
    var k :| a - b == k * c;
    assert a * x - b * x == (a - b) * x == k * c * x == (k * x) * c;
  }

  lemma CongMod(a: int, c: int)
    requires c >= 1
    ensures Cong(a, a % c, c)
  {
    CongIntro(a, a % c, c, a / c);
  }

  /** Two remainders that are congruent are equal. */
  lemma CongSmall(a: int, b: int, c: int)
    requires 0 <= a < c && 0 <= b < c && Cong(a, b, c)
    ensures a == b
  {
    var k :| a - b == k * c;
    if k >= 1 { MulAtLeast(k, c); }
    if k <= -1 { MulAtLeast(-k, c); }
    if k == 0 { assert k * c == 0; }
  }

  lemma ModEqual(a: int, b: int, c: int)
    requires c >= 1
    ensures a % c == b % c <==> Cong(a, b, c)
  {
    CongMod(a, c);
    CongMod(b, c);
    if a % c == b % c {
      CongSym(b, b % c, c);
      CongTrans(a, a % c, b, c);
    }
    if Cong(a, b, c) {
      CongSym(a, a % c, c);
      CongTrans(a % c, a, b, c);
      CongTrans(a % c, b, b % c, c);
      CongSmall(a % c, b % c, c);
    }
  }

  // ----- greatest common divisor

  function Gcd(a: nat, b: nat): (g: nat)
    decreases b
  {
    if b == 0 then a else Gcd(b, a % b)
  }

  lemma {:induction false} Bezout(a: nat, b: nat) returns (x: int, y: int)
    ensures a * x + b * y == Gcd(a, b)
    decreases b
  {
    if b == 0 {
      x, y := 1, 0;
    } else {
      var u, v := Bezout(b, a % b);
      x, y := v, u - a / b * v;
      assert a == a / b * b + a % b;
      calc {
        a * x + b * y;
        a * v + b * (u - a / b * v);
        { BezoutStep(a, b, u, v, a / b, a % b); }
        b * u + (a % b) * v;
      }
    }
  }

  lemma BezoutStep(a: int, b: int, u: int, v: int, q: int, r: int)
    requires a == q * b + r
    ensures a * v + b * (u - q * v) == b * u + r * v
  {
    assert a * v == (q * b + r) * v == q * b * v + r * v;
    assert b * (u - q * v) == b * u - b * (q * v);
    assert b * (q * v) == q * b * v;
  }

  /** The divisor really divides both. */
  lemma {:induction false} GcdDivides(a: nat, b: nat) returns (x: nat, y: nat)
    requires a > 0 || b > 0
    ensures Gcd(a, b) >= 1 && a == x * Gcd(a, b) && b == y * Gcd(a, b)
    decreases b
  {
    var g := Gcd(a, b);
    if b == 0 {
      x, y := 1, 0;
    } else {
      var u, v := GcdDivides(b, a % b);
      y := u;
      x := a / b * u + v;
      DivisorStep(a, b, a / b, a % b, u, v, g);
    }
  }

  lemma DivisorStep(a: int, b: int, q: int, r: int, u: int, v: int, g: int)
    requires a == q * b + r && b == u * g && r == v * g
    ensures a == (q * u + v) * g
  {
    assert q * (u * g) == q * u * g;
  }

  /** With a common divisor above 1, a second solution is at distance c / g. */
  lemma SecondSolution(d: nat, c: nat) returns (e: nat)
    requires c >= 1 && Gcd(d, c) > 1
    ensures 0 < e < c && Cong(d * e, 0, c)
  {
    hide Gcd;
    var g := Gcd(d, c);
    var x, y := GcdDivides(d, c);
    e := y;
    assert y >= 1;
    SecondStep(d, c, x, y, g);
    CongIntro(d * e, 0, c, x);
  }

  lemma SecondStep(d: int, c: int, x: int, y: int, g: int)
    requires d == x * g && c == y * g && g >= 2 && y >= 1
    ensures d * y - 0 == x * c && y < c
  {
    MulAtLeast(g - 1, y);
    assert y * g == y + (g - 1) * y;
    assert x * g * y == x * (y * g);
  }

  /** A number without common divisor can be cancelled. */
  lemma Cancel(d: nat, q: int, c: nat)
    requires c >= 1 && Gcd(d, c) == 1 && Cong(d * q, 0, c)
    ensures Cong(q, 0, c)
  {
    var x, y := Bezout(d, c);
    var k :| d * q - 0 == k * c;
    CancelStep(d, q, c, x, y, k);
    CongIntro(q, 0, c, k * x + q * y);
  }

  lemma CancelStep(d: int, q: int, c: int, x: int, y: int, k: int)
    requires d * x + c * y == 1 && d * q == k * c
    ensures q == (k * x + q * y) * c
  {
    calc {
      q;
      q * (d * x + c * y);
      q * (d * x) + q * (c * y);
      (d * q) * x + q * (c * y);
      k * c * x + q * (c * y);
      { assert k * c * x == k * x * c; assert q * (c * y) == q * y * c; }
      k * x * c + q * y * c;
      (k * x + q * y) * c;
    }
  }

  /** ... and has an inverse. */
  lemma Solve(d: nat, b: int, c: nat) returns (q: nat)
    requires c >= 1 && Gcd(d, c) == 1
    ensures q < c && Cong(d * q, b, c)
  {
    var x, y := Bezout(d, c);
    q := (b * x) % c;
    CongMod(b * x, c);
    CongSym(b * x, q, c);
    CongMul(q, b * x, d, c);
    assert q * d == d * q;
    SolveStep(d, b, c, x, y);
    CongIntro((b * x) * d, b, c, -(b * y));
    CongTrans(d * q, (b * x) * d, b, c);
  }

  lemma SolveStep(d: int, b: int, c: int, x: int, y: int)
    requires d * x + c * y == 1
    ensures (b * x) * d - b == (-(b * y)) * c
  {
    calc {
      b;
      b * (d * x + c * y);
      b * (d * x) + b * (c * y);
      { assert b * (d * x) == (b * x) * d; assert b * (c * y) == (b * y) * c; }
      (b * x) * d + (b * y) * c;
    }
  }
}

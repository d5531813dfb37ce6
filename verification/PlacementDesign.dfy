/** The placement design of `createGroupESets`: in a group of `c` columns there are c * c ESets, and
    ESet `s` uses in row `r` the server in column `ColAt(c, r, s)`. */
module PlacementDesign {
  import opened Bits
  import opened Congruence

  function ColAt(c: nat, r: nat, s: nat): nat
    requires c >= 1
  {
    if r == 0 then s / c else ((s / c) * (r - 1) + s) % c
  }

  lemma ColInRange(c: nat, r: nat, s: nat)
    requires c >= 1 && s < c * c
    ensures ColAt(c, r, s) < c && s / c < c && s % c < c && s == s / c * c + s % c
  {
    assert s == s / c * c + s % c;
    if s / c >= c { LeastProduct(s / c, c); }
  }

  lemma LeastProduct(q: nat, c: nat)
    requires q >= c
    ensures q * c >= c * c
  {
    assert (q - c) * c >= 0;
  }

  /** The ESets of a group that contain the server in row `r`, column `col`. */
  ghost function SetsOf(c: nat, r: nat, col: nat): set<nat>
    requires c >= 1
  {
    set s: nat | s < c * c && ColAt(c, r, s) == col
  }

  // ----- an ESet is a quotient and a remainder

  lemma Split(c: nat, q: nat, t: nat)
    requires q < c && t < c
    ensures q * c + t < c * c && (q * c + t) / c == q && (q * c + t) % c == t
  {
    ModUnique(q * c + t, c, q, t);
    MulAtLeast(c - q, c);
    assert (c - q) * c == c * c - q * c;
  }

  /** In a row below the first, the column is q * (r - 1) + t modulo c. */
  lemma ColCongruent(c: nat, r: nat, s: nat, col: nat)
    requires c >= 1 && r >= 1 && s < c * c && col < c
    ensures ColAt(c, r, s) == col <==> Cong((s / c) * (r - 1) + s % c, col, c)
  {
    var a, b := (s / c) * (r - 1) + s, (s / c) * (r - 1) + s % c;
    ColInRange(c, r, s);
    CongIntro(a, b, c, s / c);
    ModEqual(a, b, c);
    ModEqual(b, col, c);
    ModUnique(col, c, 0, col);
  }

  /** In every row below the first, each quotient has exactly one remainder for a given column. */
  function RestFor(c: nat, r: nat, col: nat, q: nat): (t: nat)
    requires c >= 1 && r >= 1
    ensures t < c
  {
    (col - q * (r - 1)) % c
  }

  lemma RestUnique(c: nat, r: nat, col: nat, q: nat, t: nat)
    requires c >= 1 && r >= 1 && t < c
    ensures Cong(q * (r - 1) + t, col, c) <==> t == RestFor(c, r, col, q)
  {
    var x, u := q * (r - 1), RestFor(c, r, col, q);
    CongMod(col - x, c);
    CongSym(col - x, u, c);
    CongIntro(x, x, c, 0);
    CongAdd(u, col - x, x, x, c);
    assert Cong(x + u, col, c);
    if Cong(x + t, col, c) {
      CongSym(x + u, col, c);
      CongTrans(x + t, col, x + u, c);
      CongAdd(x + t, x + u, x, x, c);
      CongSmall(t, u, c);
    }
  }

  /** The `q`-th ESet that contains a server. */
  function SetFor(c: nat, r: nat, col: nat, q: nat): nat
    requires c >= 1
  {
    if r == 0 then col * c + q else q * c + RestFor(c, r, col, q)
  }

  lemma SetForIsIn(c: nat, r: nat, col: nat, q: nat)
    requires c >= 1 && col < c && q < c
    ensures SetFor(c, r, col, q) in SetsOf(c, r, col)
    ensures r >= 1 ==> SetFor(c, r, col, q) / c == q
    ensures r == 0 ==> SetFor(c, r, col, q) % c == q
  {
    var s := SetFor(c, r, col, q);
    if r == 0 {
      Split(c, col, q);
    } else {
      Split(c, q, RestFor(c, r, col, q));
      RestUnique(c, r, col, q, RestFor(c, r, col, q));
      ColCongruent(c, r, s, col);
    }
  }

  lemma InIsSetFor(c: nat, r: nat, col: nat, s: nat)
    requires c >= 1 && col < c && s in SetsOf(c, r, col)
    ensures s == SetFor(c, r, col, if r == 0 then s % c else s / c) && s / c < c && s % c < c
  {
    ColInRange(c, r, s);
    if r >= 1 {
      ColCongruent(c, r, s, col);
      RestUnique(c, r, col, s / c, s % c);
    }
  }

  // ----- every server is in exactly c ESets

  ghost function Firsts(c: nat, r: nat, col: nat, n: nat): (sets: set<nat>)
    requires c >= 1
  {
    if n == 0 then {} else Firsts(c, r, col, n - 1) + {SetFor(c, r, col, n - 1)}
  }

  lemma {:induction false} FirstsCount(c: nat, r: nat, col: nat, n: nat)
    requires c >= 1 && col < c && n <= c
    ensures |Firsts(c, r, col, n)| == n
    ensures forall s :: s in Firsts(c, r, col, n) ==> s in SetsOf(c, r, col) && (if r == 0 then s % c else s / c) < n
  {
    hide SetFor, SetsOf;
    if n > 0 {
      FirstsCount(c, r, col, n - 1);
      SetForIsIn(c, r, col, n - 1);
      var f, x := Firsts(c, r, col, n - 1), SetFor(c, r, col, n - 1);
      assert x !in f;
      assert Firsts(c, r, col, n) == f + {x};
      assert |f + {x}| == |f| + 1;
    }
  }

  lemma EachServerInExactlyCSets(c: nat, r: nat, col: nat)
    requires c >= 1 && col < c
    ensures |SetsOf(c, r, col)| == c
  {
    hide SetFor, Firsts, ColAt;
    FirstsCount(c, r, col, c);
    forall s | s in SetsOf(c, r, col) ensures s in Firsts(c, r, col, c) { InFirsts(c, r, col, s); }
    assert SetsOf(c, r, col) == Firsts(c, r, col, c);
  }

  lemma InFirsts(c: nat, r: nat, col: nat, s: nat)
    requires c >= 1 && col < c && s in SetsOf(c, r, col)
    ensures s in Firsts(c, r, col, c)
  {
    InIsSetFor(c, r, col, s);
    FirstsHas(c, r, col, c, if r == 0 then s % c else s / c);
  }

  lemma {:induction false} FirstsHas(c: nat, r: nat, col: nat, n: nat, q: nat)
    requires c >= 1 && q < n
    ensures SetFor(c, r, col, q) in Firsts(c, r, col, n)
  {
    hide SetFor;
    if q < n - 1 { FirstsHas(c, r, col, n - 1, q); }
  }

  // ----- how many ESets two servers share

  ghost function Shared(c: nat, r1: nat, col1: nat, r2: nat, col2: nat): set<nat>
    requires c >= 1
  {
    SetsOf(c, r1, col1) * SetsOf(c, r2, col2)
  }

  lemma One(s: set<nat>, x: nat)
    requires x in s && forall y :: y in s ==> y == x
    ensures |s| == 1
  {
    assert s == {x};
  }

  /** A server of the first row shares exactly one ESet with every server of another row. */
  lemma FirstRowSharesOne(c: nat, col1: nat, r2: nat, col2: nat)
    requires c >= 1 && col1 < c && col2 < c && r2 >= 1
    ensures |Shared(c, 0, col1, r2, col2)| == 1
  {
    var t := RestFor(c, r2, col2, col1);
    var s := SetFor(c, 0, col1, t);
    Split(c, col1, t);
    SetForIsIn(c, r2, col2, col1);
    assert SetFor(c, r2, col2, col1) == s;
    SetForIsIn(c, 0, col1, t);
    forall y | y in Shared(c, 0, col1, r2, col2) ensures y == s {
      InIsSetFor(c, r2, col2, y);
      assert ColAt(c, 0, y) == col1;
    }
    One(Shared(c, 0, col1, r2, col2), s);
  }

  /** Two lower rows: the shared ESets are the quotients that solve one congruence. */
  lemma SharedCongruence(c: nat, r1: nat, col1: nat, r2: nat, col2: nat, q: nat)
    requires c >= 1 && col1 < c && col2 < c && 1 <= r1 < r2 && q < c
    ensures SetFor(c, r1, col1, q) in Shared(c, r1, col1, r2, col2) <==> Cong((r2 - r1) * q, col2 - col1, c)
  {
    var s, t := SetFor(c, r1, col1, q), RestFor(c, r1, col1, q);
    SetForIsIn(c, r1, col1, q);
    Split(c, q, t);
    RestUnique(c, r1, col1, q, t);
    ColCongruent(c, r2, s, col2);
    var x, d := q * (r1 - 1) + t, (r2 - r1) * q;
    assert q * (r2 - 1) + t == x + d;
    if Cong(x + d, col2, c) {
      CongAdd(x + d, col2, x, col1, c);
    }
    if Cong(d, col2 - col1, c) {
      CongAdd(x, col1, d, col2 - col1, c);
    }
  }

  lemma SharedAreSetFor(c: nat, r1: nat, col1: nat, r2: nat, col2: nat, s: nat)
    requires c >= 1 && col1 < c && col2 < c && 1 <= r1 < r2 && s in Shared(c, r1, col1, r2, col2)
    ensures s / c < c && s == SetFor(c, r1, col1, s / c) && Cong((r2 - r1) * (s / c), col2 - col1, c)
  {
    hide SetsOf, SetFor, ColAt, Cong;
    InIsSetFor(c, r1, col1, s);
    SharedCongruence(c, r1, col1, r2, col2, s / c);
  }

  lemma CoprimeRowsShareOne(c: nat, r1: nat, col1: nat, r2: nat, col2: nat)
    requires c >= 1 && col1 < c && col2 < c && 1 <= r1 < r2 && Gcd(r2 - r1, c) == 1
    ensures |Shared(c, r1, col1, r2, col2)| == 1
  {
    hide Gcd, SetFor, Shared;
    var d := r2 - r1;
    var q := Solve(d, col2 - col1, c);
    var s := SetFor(c, r1, col1, q);
    SharedCongruence(c, r1, col1, r2, col2, q);
    forall y | y in Shared(c, r1, col1, r2, col2) ensures y == s {
      SharedAreSetFor(c, r1, col1, r2, col2, y);
      SameQuotient(d, y / c, q, col2 - col1, c);
    }
    One(Shared(c, r1, col1, r2, col2), s);
  }

  lemma SameQuotient(d: nat, p: nat, q: nat, b: int, c: nat)
    requires c >= 1 && p < c && q < c && Gcd(d, c) == 1 && Cong(d * p, b, c) && Cong(d * q, b, c)
    ensures p == q
  {
    CongAdd(d * p, b, d * q, b, c);
    assert d * p - d * q == d * (p - q);
    Cancel(d, p - q, c);
    CongIntro(q, q, c, 0);
    CongAdd(p - q, 0, q, q, c);
    CongSmall(p, q, c);
  }

  /** With a common divisor there is never exactly one shared ESet: a solution brings another. */
  lemma OtherRowsNeverShareOne(c: nat, r1: nat, col1: nat, r2: nat, col2: nat)
    requires c >= 1 && col1 < c && col2 < c && 1 <= r1 < r2 && Gcd(r2 - r1, c) != 1
    ensures |Shared(c, r1, col1, r2, col2)| != 1
  {
    hide Gcd, SetFor, Shared;
    var sh, d := Shared(c, r1, col1, r2, col2), r2 - r1;
    if sh != {} {
      var s :| s in sh;
      SharedAreSetFor(c, r1, col1, r2, col2, s);
      GcdPositive(d, c);
      var e := SecondSolution(d, c);
      var p := (s / c + e) % c;
      AnotherQuotient(d, s / c, e, col2 - col1, c);
      SharedCongruence(c, r1, col1, r2, col2, p);
      SetForIsIn(c, r1, col1, p);
      TwoElements(sh, s, SetFor(c, r1, col1, p));
    }
  }

  lemma TwoElements(s: set<nat>, x: nat, y: nat)
    requires x in s && y in s && x != y
    ensures |s| != 1
  {
    var t := s - {x};
    assert y in t;
    assert s == t + {x};
  }

  lemma GcdPositive(d: nat, c: nat)
    requires c >= 1
    ensures Gcd(d, c) >= 1
  {
    var x, y := GcdDivides(d, c);
  }

  lemma AnotherQuotient(d: nat, q: nat, e: nat, b: int, c: nat)
    requires c >= 1 && q < c && 0 < e < c && Cong(d * q, b, c) && Cong(d * e, 0, c)
    ensures (q + e) % c != q && Cong(d * ((q + e) % c), b, c)
  {
    var p := (q + e) % c;
    CongMod(q + e, c);
    if p == q {
      CongIntro(q, q, c, 0);
      CongAdd(q + e, q, q, q, c);
      CongSmall(e, 0, c);
    }
    CongSym(q + e, p, c);
    CongMul(p, q + e, d, c);
    CongAdd(d * q, b, d * e, 0, c);
    assert p * d == d * p && (q + e) * d == d * q + d * e;
    CongTrans(d * p, d * q + d * e, b, c);
  }

  /** Servers in different rows share exactly one ESet if and only if one of them is in the first
      row or the distance of the rows has no common divisor with the number of columns. */
  lemma ShareExactlyOne(c: nat, r1: nat, col1: nat, r2: nat, col2: nat)
    requires c >= 1 && col1 < c && col2 < c && r1 < r2
    ensures |Shared(c, r1, col1, r2, col2)| == 1 <==> r1 == 0 || Gcd(r2 - r1, c) == 1
  {
    if r1 == 0 {
      FirstRowSharesOne(c, col1, r2, col2);
    } else if Gcd(r2 - r1, c) == 1 {
      CoprimeRowsShareOne(c, r1, col1, r2, col2);
    } else {
      OtherRowsNeverShareOne(c, r1, col1, r2, col2);
    }
  }
}

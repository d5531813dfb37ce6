/** How a buffer is spread over the k data blocks of a stripe: `s` bytes to each block in turn. */
module Striping {
  import opened Bytes
  import opened Bits
  import opened RowMajor

  function Min(a: nat, b: nat): nat { if a < b then a else b }

  lemma StripePositive(k: nat, s: nat)
    requires k >= 1 && s >= 1
    ensures Base(k, s) >= s >= 1
  {
    MulAtLeast(k, s);
  }

  /** Whole stripes of size `t` in `n` bytes, and what is left over. */
  function Whole(n: nat, t: nat): nat
    requires t >= 1
  {
    n / t
  }

  function Rest(n: nat, t: nat): (r: nat)
    requires t >= 1
    ensures r < t
  {
    n % t
  }

  lemma WholeRest(n: nat, t: nat)
    requires t >= 1
    ensures n == Base(Whole(n, t), t) + Rest(n, t)
  {
  }

  lemma WholeIs(n: nat, t: nat, q: nat, r: nat)
    requires r < t && n == Base(q, t) + r
    ensures Whole(n, t) == q && Rest(n, t) == r
  {
    ModUnique(n, t, q, r);
  }

  // ----- the bytes of one block

  /** The part of block `b` in `data`, stripe after stripe. */
  function Lane(data: seq<Byte>, k: nat, s: nat, b: nat): seq<Byte>
    requires k >= 1 && s >= 1 && b < k
    decreases |data|
  {
    if data == [] then []
    else
      StripePositive(k, s);
      Piece(data, s, b) + Lane(data[Min(Base(k, s), |data|)..], k, s, b)
  }

  /** What block `b` gets of the first stripe. */
  function Piece(data: seq<Byte>, s: nat, b: nat): (p: seq<Byte>)
    ensures |p| == PieceSize(|data|, s, b)
  {
    data[Min(Base(b, s), |data|)..Min(Base(b, s) + s, |data|)]
  }

  function PieceSize(n: nat, s: nat, b: nat): (size: nat)
    ensures size <= s
  {
    if n <= Base(b, s) then 0 else Min(n - Base(b, s), s)
  }

  lemma LaneStep(data: seq<Byte>, k: nat, s: nat, b: nat)
    requires k >= 1 && s >= 1 && b < k && |data| >= Base(k, s)
    ensures Base(b, s) + s <= Base(k, s)
    ensures Lane(data, k, s, b) == data[Base(b, s)..Base(b, s) + s] + Lane(data[Base(k, s)..], k, s, b)
  {
    hide Base;
    StripePositive(k, s);
    BaseBefore(b, k, s);
  }

  /** The last, incomplete stripe. */
  lemma LaneEnd(data: seq<Byte>, k: nat, s: nat, b: nat)
    requires k >= 1 && s >= 1 && b < k && |data| < Base(k, s)
    ensures Lane(data, k, s, b) == Piece(data, s, b)
  {
    hide Base;
    if data != [] {
      assert data[Min(Base(k, s), |data|)..] == [];
      assert Piece(data, s, b) + [] == Piece(data, s, b);
    }
  }

  /** Buffers whose sizes are whole stripes are spread one after the other. */
  lemma {:induction false} LaneConcat(a: seq<Byte>, d: seq<Byte>, k: nat, s: nat, b: nat, n: nat)
    requires k >= 1 && s >= 1 && b < k && |a| == Base(n, Base(k, s))
    ensures Lane(a + d, k, s, b) == Lane(a, k, s, b) + Lane(d, k, s, b)
    decreases n
  {
    hide Base, Lane;
    if n == 0 {
      BaseStep(0, Base(k, s));
      assert a + d == d && Lane(a, k, s, b) == [] by { LaneNone(a, k, s, b); }
    } else {
      StripePositive(k, s);
      BaseStep(n - 1, Base(k, s));
      var t, o := Base(k, s), Base(b, s);
      LaneStep(a, k, s, b);
      LaneStep(a + d, k, s, b);
      assert (a + d)[t..] == a[t..] + d;
      assert (a + d)[o..o + s] == a[o..o + s];
      LaneConcat(a[t..], d, k, s, b, n - 1);
    }
  }

  lemma LaneNone(a: seq<Byte>, k: nat, s: nat, b: nat)
    requires k >= 1 && s >= 1 && b < k && a == []
    ensures Lane(a, k, s, b) == []
  {
  }

  /** Byte by byte: stripe `j`, the first `n` bytes of the piece of block `b`. */
  lemma {:induction false} LaneAt(data: seq<Byte>, k: nat, s: nat, b: nat, j: nat, n: nat)
    requires k >= 1 && s >= 1 && b < k && n <= s && Base(j, Base(k, s)) + Base(b, s) + n <= |data|
    ensures Base(j, s) + n <= |Lane(data, k, s, b)|
    ensures Lane(data, k, s, b)[Base(j, s)..Base(j, s) + n]
         == data[Base(j, Base(k, s)) + Base(b, s)..Base(j, Base(k, s)) + Base(b, s) + n]
    decreases j
  {
    hide Base, Lane;
    var t, o := Base(k, s), Base(b, s);
    StripePositive(k, s);
    BaseBefore(b, k, s);
    BaseStep(0, t);
    BaseStep(0, s);
    if j == 0 {
      if |data| >= t { LaneStep(data, k, s, b); } else { LaneEnd(data, k, s, b); }
    } else {
      BaseStep(j - 1, t);
      BaseStep(j - 1, s);
      LaneStep(data, k, s, b);
      LaneAt(data[t..], k, s, b, j - 1, n);
      var x, y, rest := Base(j - 1, s), Base(j - 1, t) + o, Lane(data[t..], k, s, b);
      assert (data[o..o + s] + rest)[s + x..s + x + n] == rest[x..x + n];
      assert data[t..][y..y + n] == data[t + y..t + y + n];
    }
  }

  // ----- sizes

  /** The size of block `b` after `n` bytes: full stripes, and its share of the last one. */
  function LaneSize(n: nat, k: nat, s: nat, b: nat): nat
    requires Base(k, s) >= 1
  {
    Base(Whole(n, Base(k, s)), s) + PieceSize(Rest(n, Base(k, s)), s, b)
  }

  lemma {:induction false} LaneLength(data: seq<Byte>, k: nat, s: nat, b: nat)
    requires k >= 1 && s >= 1 && b < k
    ensures Base(k, s) >= 1 && |Lane(data, k, s, b)| == LaneSize(|data|, k, s, b)
    decreases |data|
  {
    hide Base, Lane, Whole, Rest;
    StripePositive(k, s);
    var n, t := |data|, Base(k, s);
    if n < t {
      LaneEnd(data, k, s, b);
      BaseStep(0, t);
      BaseStep(0, s);
      WholeIs(n, t, 0, n);
    } else {
      LaneStep(data, k, s, b);
      LaneLength(data[t..], k, s, b);
      WholeRest(n - t, t);
      BaseStep(Whole(n - t, t), t);
      BaseStep(Whole(n - t, t), s);
      WholeIs(n, t, Whole(n - t, t) + 1, Rest(n - t, t));
    }
  }

  /** The parity size: the size of the first block, rounded up to whole pieces. */
  function CodingSize(n: nat, k: nat, s: nat): nat
    requires Base(k, s) >= 1
  {
    Base(Whole(n, Base(k, s)), s) + if Rest(n, Base(k, s)) == 0 then 0 else s
  }

  /** It is the least whole number of pieces that holds what the first block gets. */
  lemma CodingSizeLeast(data: seq<Byte>, k: nat, s: nat)
    requires k >= 1 && s >= 1
    ensures Base(k, s) >= 1 && CodingSize(|data|, k, s) % s == 0
    ensures |Lane(data, k, s, 0)| <= CodingSize(|data|, k, s) < |Lane(data, k, s, 0)| + s
  {
    hide Lane, Whole, Rest, Base;
    StripePositive(k, s);
    LaneLength(data, k, s, 0);
    var q := Whole(|data|, Base(k, s));
    BaseStep(0, s);
    BaseStep(q, s);
    WholePieces(q, s);
    WholePieces(q + 1, s);
  }

  lemma WholePieces(q: nat, s: nat)
    requires s >= 1
    ensures Base(q, s) % s == 0
  {
    WholeIs(Base(q, s), s, q, 0);
  }

  lemma CodingCovers(n: nat, k: nat, s: nat, b: nat)
    requires Base(k, s) >= 1
    ensures LaneSize(n, k, s, b) <= CodingSize(n, k, s)
  {
    hide Base, Whole, Rest;
  }

  /** Sizes of whole stripes add up. */
  lemma SizesAdd(n: nat, m: nat, k: nat, s: nat, b: nat, q: nat)
    requires Base(k, s) >= 1 && n == Base(q, Base(k, s))
    ensures LaneSize(n + m, k, s, b) == LaneSize(n, k, s, b) + LaneSize(m, k, s, b)
    ensures CodingSize(n + m, k, s) == CodingSize(n, k, s) + CodingSize(m, k, s)
  {
    hide Base, Whole, Rest;
    var t := Base(k, s);
    WholeRest(m, t);
    WholeIs(n, t, q, 0);
    BaseTogether(q, Whole(m, t), t);
    BaseTogether(q, Whole(m, t), s);
    WholeIs(n + m, t, q + Whole(m, t), Rest(m, t));
  }

  lemma BaseTogether(p: nat, q: nat, s: nat)
    ensures Base(p + q, s) == Base(p, s) + Base(q, s)
  {
    assert (p + q) * s == p * s + q * s;
  }

  /** The blocks below `b` together. */
  function SizesBelow(n: nat, k: nat, s: nat, b: nat): nat
    requires Base(k, s) >= 1
  {
    if b == 0 then 0 else SizesBelow(n, k, s, b - 1) + LaneSize(n, k, s, b - 1)
  }

  lemma {:induction false} SizesBelowAre(n: nat, k: nat, s: nat, b: nat)
    requires Base(k, s) >= 1
    ensures SizesBelow(n, k, s, b) == Base(b, Base(Whole(n, Base(k, s)), s)) + Min(Rest(n, Base(k, s)), Base(b, s))
  {
    hide Base, Whole, Rest;
    var p := Base(Whole(n, Base(k, s)), s);
    BaseStep(0, p);
    BaseStep(0, s);
    if b > 0 {
      SizesBelowAre(n, k, s, b - 1);
      BaseStep(b - 1, s);
      BaseStep(b - 1, p);
    }
  }

  /** Every byte is in exactly one block: the sizes of the k blocks add up to the number of bytes. */
  lemma SizesSum(n: nat, k: nat, s: nat)
    requires Base(k, s) >= 1
    ensures SizesBelow(n, k, s, k) == n
  {
    hide Base, Whole, Rest;
    SizesBelowAre(n, k, s, k);
    WholeRest(n, Base(k, s));
    Exchange(k, Whole(n, Base(k, s)), s);
  }

  lemma Exchange(k: nat, q: nat, s: nat)
    ensures Base(k, Base(q, s)) == Base(q, Base(k, s))
  {
    assert k * (q * s) == q * (k * s);
  }
}

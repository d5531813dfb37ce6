/** `gcrs_generate_coding_vector`: the rows that rebuild a lost coding device from the survivors in
    ascending order.  The columns of living data devices are moved to the places where those
    survivors stand; the columns of lost ones are replaced through the inverse matrix. */
module GcrsVector {
  import opened Bits
  import opened RowMajor
  import opened Erasures
  import opened BitAlgebra
  import opened Schedule
  import opened BitDecoding
  import opened BitBlocks
  import opened LostColumns

  /** A stretch of `n` bits of `src` pasted into `dst`. */
  function Paste(dst: BitRow, at: nat, src: BitRow, from: nat, n: nat): (r: BitRow)
    requires at + n <= |dst| && from + n <= |src|
    ensures |r| == |dst|
  {
    seq(|dst|, j requires 0 <= j < |dst| => if at <= j < at + n then src[j - at + from] else dst[j])
  }

  /** Reading one survivor packet gives what that packet is made of. */
  lemma UnitRebuilds(S: seq<BitRow>, K: nat, q: nat)
    requires BitMatrix(S, K, K) && q < K
    ensures Rebuilds(UnitBits(K, q), S, S[q], K)
  {
    hide Select;
    forall D: Packets | |D| == K ensures Select(UnitBits(K, q), BitApply(S, D), K) == Select(S[q], D, K) {
      SelectUnit(UnitBits(K, q), BitApply(S, D), q, K);
    }
  }

  lemma ZeroRebuilds(S: seq<BitRow>, K: nat)
    requires BitMatrix(S, K, K)
    ensures Rebuilds(Zeros(K), S, Zeros(K), K)
  {
    hide Select;
    forall D: Packets | |D| == K ensures Select(Zeros(K), BitApply(S, D), K) == Select(Zeros(K), D, K) {
      SelectNone(Zeros(K), BitApply(S, D), K);
      SelectNone(Zeros(K), D, K);
    }
  }

  /** `n` columns with no ones yet. */
  ghost predicate Blank(a: BitRow, at: nat, n: nat) {
    at + n <= |a| && forall c :: at <= c < at + n ==> !a[c]
  }

  /** `n` rows from `at` on that stand for the packets from `from` on. */
  ghost predicate StandFor(S: seq<BitRow>, at: nat, from: nat, n: nat, K: nat) {
    at + n <= |S| && forall c :: at <= c < at + n ==> S[c] == UnitBits(K, from + (c - at))
  }

  lemma BlankLast(a: BitRow, at: nat, n: nat)
    requires n >= 1 && Blank(a, at, n)
    ensures Blank(a, at, n - 1) && !a[at + n - 1]
  {
  }

  lemma StandForLast(S: seq<BitRow>, at: nat, from: nat, n: nat, K: nat)
    requires n >= 1 && StandFor(S, at, from, n, K)
    ensures StandFor(S, at, from, n - 1, K) && S[at + n - 1] == UnitBits(K, from + n - 1)
  {
    var c := at + n - 1;
    assert from + (c - at) == from + n - 1;
  }

  /** Moving the columns of a living device to its place among the survivors. */
  lemma {:induction false} PasteRebuilds(a: BitRow, p: BitRow, S: seq<BitRow>, row: BitRow, at: nat, from: nat, n: nat, K: nat)
    requires Rebuilds(a, S, p, K) && |row| == K && at + n <= K && from + n <= K
    requires Blank(a, at, n) && StandFor(S, at, from, n, K) && Blank(p, from, n)
    ensures Rebuilds(Paste(a, at, row, from, n), S, Paste(p, from, row, from, n), K)
  {
    hide *;
    RebuildsSizes(a, S, p, K);
    if n == 0 {
      PasteNone(a, at, row, from);
      PasteNone(p, from, row, from);
    } else {
      BlankLast(a, at, n);
      BlankLast(p, from, n);
      StandForLast(S, at, from, n, K);
      PasteRebuilds(a, p, S, row, at, from, n - 1, K);
      PasteNext(a, p, S, row, at, from, n, K);
    }
  }

  lemma PasteNext(a: BitRow, p: BitRow, S: seq<BitRow>, row: BitRow, at: nat, from: nat, n: nat, K: nat)
    requires n >= 1 && |row| == |a| == |p| == |S| == K && BitMatrix(S, K, K) && at + n <= K && from + n <= K
    requires !a[at + n - 1] && !p[from + n - 1] && S[at + n - 1] == UnitBits(K, from + n - 1)
    requires Rebuilds(Paste(a, at, row, from, n - 1), S, Paste(p, from, row, from, n - 1), K)
    ensures Rebuilds(Paste(a, at, row, from, n), S, Paste(p, from, row, from, n), K)
  {
    hide *;
    PasteLast(a, at, row, from, n);
    PasteLast(p, from, row, from, n);
    if row[from + n - 1] {
      UnitRebuilds(S, K, at + n - 1);
      RebuildsXor(Paste(a, at, row, from, n - 1), UnitBits(K, at + n - 1), S,
        Paste(p, from, row, from, n - 1), UnitBits(K, from + n - 1), K);
    }
  }

  lemma RebuildsSizes(a: BitRow, S: seq<BitRow>, p: BitRow, K: nat)
    requires Rebuilds(a, S, p, K)
    ensures BitMatrix(S, K, K) && |S| == |a| == |p| == K
  {
  }

  lemma PasteNone(dst: BitRow, at: nat, src: BitRow, from: nat)
    requires at <= |dst| && from <= |src|
    ensures Paste(dst, at, src, from, 0) == dst
  {
  }

  lemma PasteLast(dst: BitRow, at: nat, src: BitRow, from: nat, n: nat)
    requires n >= 1 && at + n <= |dst| && from + n <= |src| && !dst[at + n - 1]
    ensures Paste(dst, at, src, from, n)
         == if src[from + n - 1] then RowXor(Paste(dst, at, src, from, n - 1), UnitBits(|dst|, at + n - 1))
            else Paste(dst, at, src, from, n - 1)
  {
  }

  // ----- the living data devices

  /** A list whose entry `i` is `i` exactly for the living data devices. */
  function Marks(e: seq<bool>, k: nat): (marks: seq<nat>)
    requires k <= |e|
    ensures |marks| == k && forall i :: 0 <= i < k ==> (marks[i] == i <==> !e[i])
  {
    seq(k, i requires 0 <= i < k => if e[i] then k else i)
  }

  /** The columns of the living devices before `d`. */
  function LivingBelow(row: BitRow, e: seq<bool>, k: nat, w: nat, d: nat): (p: BitRow)
    requires w >= 1 && |row| == Base(k, w) && d <= k <= |e|
    ensures |p| == |row|
  {
    seq(|row|, c requires 0 <= c < |row| => (Slots(c, k, w); row[c] && !e[c / w] && c / w < d))
  }

  lemma LivingStep(row: BitRow, e: seq<bool>, k: nat, w: nat, d: nat)
    requires w >= 1 && |row| == Base(k, w) && d < k <= |e|
    ensures Base(d, w) + w <= Base(k, w)
    ensures e[d] ==> LivingBelow(row, e, k, w, d + 1) == LivingBelow(row, e, k, w, d)
    ensures !e[d] ==> LivingBelow(row, e, k, w, d + 1) == Paste(LivingBelow(row, e, k, w, d), Base(d, w), row, Base(d, w), w)
    ensures forall c :: Base(d, w) <= c < Base(d, w) + w ==> !LivingBelow(row, e, k, w, d)[c]
  {
    BaseBefore(d, k, w);
    forall c: nat | c < |row| ensures Base(d, w) <= c < Base(d, w) + w <==> c / w == d {
      if Base(d, w) <= c < Base(d, w) + w { ModUnique(c, w, d, c - Base(d, w)); }
      Slots(c, k, w);
    }
  }

  lemma LivingNone(row: BitRow, e: seq<bool>, k: nat, w: nat)
    requires w >= 1 && |row| == Base(k, w) && k <= |e|
    ensures LivingBelow(row, e, k, w, 0) == Zeros(|row|)
  {
  }

  lemma LivingAll(row: BitRow, e: seq<bool>, k: nat, w: nat)
    requires w >= 1 && |row| == Base(k, w) && k <= |e|
    ensures LivingBelow(row, e, k, w, k) == Mask(row, Marks(e, k), w, 0)
  {
    hide Base;
    var p, q := LivingBelow(row, e, k, w, k), Mask(row, Marks(e, k), w, 0);
    forall c: nat | c < |row| ensures p[c] == q[c] {
      Slots(c, k, w);
      assert Marks(e, k)[c / w] == c / w <==> !e[c / w];
    }
  }

  /** The setting: the survivors are the first k living devices. */
  ghost predicate Setting(B: seq<BitRow>, k: nat, m: nat, w: nat, e: seq<bool>) {
    w >= 1 && BitMatrix(B, Base(m, w), Base(k, w)) && |e| == k + m && |Alive(e, k + m)| >= k
  }

  ghost function FirstBits(B: seq<BitRow>, k: nat, m: nat, w: nat, e: seq<bool>): (S: seq<BitRow>)
    requires Setting(B, k, m, w, e)
    ensures BitMatrix(S, Base(k, w), Base(k, w))
  {
    SurvivorBits(B, k, m, w, FirstAlive(e, k))
  }

  /** A living data device stands at the place given by the number of living devices before it. */
  lemma LivingPlace(B: seq<BitRow>, k: nat, m: nat, w: nat, e: seq<bool>, d: nat)
    requires Setting(B, k, m, w, e) && d < k && !e[d]
    ensures |Alive(e, d)| < k && Base(|Alive(e, d)|, w) + w <= Base(k, w)
    ensures forall c :: Base(|Alive(e, d)|, w) <= c < Base(|Alive(e, d)|, w) + w ==>
      FirstBits(B, k, m, w, e)[c] == UnitBits(Base(k, w), Base(d, w) + (c - Base(|Alive(e, d)|, w)))
  {
    hide Base, Flagged, UnitBits;
    var a := |Alive(e, d)|;
    FlaggedAt(e, false, 0, d, k + m);
    AlivePrefix(e, d, k + m);
    assert a <= d;
    BaseBefore(a, k, w);
    forall c | Base(a, w) <= c < Base(a, w) + w
      ensures FirstBits(B, k, m, w, e)[c] == UnitBits(Base(k, w), Base(d, w) + (c - Base(a, w)))
    {
      SurvivorAt(B, k, m, w, FirstAlive(e, k), a, c - Base(a, w));
    }
  }

  /** Row `a` so far: the living devices before `d` are in place, the rest of the row is clear. */
  ghost predicate Placed(a: BitRow, B: seq<BitRow>, k: nat, m: nat, w: nat, e: seq<bool>, row: BitRow, d: nat) {
    && Setting(B, k, m, w, e) && |row| == Base(k, w) && d <= k
    && Rebuilds(a, FirstBits(B, k, m, w, e), LivingBelow(row, e, k, w, d), Base(k, w))
    && forall c :: Base(|Alive(e, d)|, w) <= c < |a| ==> !a[c]
  }

  lemma PlacedStart(B: seq<BitRow>, k: nat, m: nat, w: nat, e: seq<bool>, row: BitRow)
    requires Setting(B, k, m, w, e) && |row| == Base(k, w)
    ensures Placed(Zeros(Base(k, w)), B, k, m, w, e, row, 0)
  {
    ZeroRebuilds(FirstBits(B, k, m, w, e), Base(k, w));
    LivingNone(row, e, k, w);
  }

  lemma PlacedLost(a: BitRow, B: seq<BitRow>, k: nat, m: nat, w: nat, e: seq<bool>, row: BitRow, d: nat)
    requires Placed(a, B, k, m, w, e, row, d) && d < k && e[d]
    ensures Placed(a, B, k, m, w, e, row, d + 1)
  {
    hide Rebuilds, Base;
    LivingStep(row, e, k, w, d);
    FlaggedNext(e, false, 0, d);
  }

  lemma PlacedLiving(a: BitRow, B: seq<BitRow>, k: nat, m: nat, w: nat, e: seq<bool>, row: BitRow, d: nat)
    requires Placed(a, B, k, m, w, e, row, d) && d < k && !e[d]
    ensures |a| == Base(k, w) && Base(|Alive(e, d)|, w) + w <= |a| && Base(d, w) + w <= |row| && |Alive(e, d + 1)| == |Alive(e, d)| + 1
    ensures Placed(Paste(a, Base(|Alive(e, d)|, w), row, Base(d, w), w), B, k, m, w, e, row, d + 1)
  {
    hide Base, LivingBelow, FirstBits, Select, FirstAlive;
    LivingStep(row, e, k, w, d);
    FlaggedNext(e, false, 0, d);
    LivingPlace(B, k, m, w, e, d);
    BaseStep(|Alive(e, d)|, w);
    PasteRebuilds(a, LivingBelow(row, e, k, w, d), FirstBits(B, k, m, w, e), row, Base(|Alive(e, d)|, w), Base(d, w), w, Base(k, w));
  }

  lemma PlacedAll(a: BitRow, B: seq<BitRow>, k: nat, m: nat, w: nat, e: seq<bool>, row: BitRow)
    requires Placed(a, B, k, m, w, e, row, k)
    ensures Accounts(a, FirstBits(B, k, m, w, e), row, Marks(e, k), w, 0, Base(k, w))
  {
    LivingAll(row, e, k, w);
  }

  // ----- the lost data devices

  /** `a` with the first `y` rows of the inverse from row `at` on that `row` selects. */
  function AddSelected(a: BitRow, inv: seq<BitRow>, row: BitRow, at: nat, y: nat): (r: BitRow)
    requires BitMatrix(inv, |inv|, |a|) && at + y <= |inv| && at + y <= |row|
    ensures |r| == |a|
  {
    if y == 0 then a
    else
      var b := AddSelected(a, inv, row, at, y - 1);
      if row[at + y - 1] then RowXor(b, inv[at + y - 1]) else b
  }

  lemma {:induction false} SelectedAccounts(a: BitRow, inv: seq<BitRow>, S: seq<BitRow>, row: BitRow, marks: seq<nat>, w: nat, i: nat, y: nat, K: nat)
    requires i < |marks| && marks[i] != i && y <= w && Accounts(a, S, row, marks, w, Base(i, w), K)
    requires BitMatrix(inv, K, K) && BitMatrix(S, K, K) && BitInverse(inv, S, K)
    ensures |a| == |row| == K && Base(i, w) + y <= K
    ensures Accounts(AddSelected(a, inv, row, Base(i, w), y), S, row, marks, w, Base(i, w) + y, K)
  {
    hide Base, BitInverse, Rebuilds, Mask;
    assert |a| == K by { AccountsSize(a, S, row, marks, w, Base(i, w), K); }
    BaseBefore(i, |marks|, w);
    if y > 0 {
      SelectedAccounts(a, inv, S, row, marks, w, i, y - 1, K);
      InverseRebuilds(inv, S, K, Base(i, w) + (y - 1));
      AccountsColumn(AddSelected(a, inv, row, Base(i, w), y - 1), inv[Base(i, w) + (y - 1)], S, row, marks, w, i, y - 1, K);
    }
  }

  lemma AccountsSize(a: BitRow, S: seq<BitRow>, row: BitRow, front: seq<nat>, w: nat, c: nat, K: nat)
    requires Accounts(a, S, row, front, w, c, K)
    ensures |a| == |row| == K == Base(|front|, w)
  {
  }

  /** Skipping living devices. */
  lemma {:induction false} SkipLiving(a: BitRow, S: seq<BitRow>, row: BitRow, marks: seq<nat>, w: nat, i: nat, d: nat, K: nat)
    requires i <= d <= |marks| && (forall j :: i <= j < d ==> marks[j] == j) && Accounts(a, S, row, marks, w, Base(i, w), K)
    ensures Accounts(a, S, row, marks, w, Base(d, w), K)
    decreases d - i
  {
    hide Base, Accounts;
    if i < d {
      AccountsKept(a, S, row, marks, w, i, K);
      BaseStep(i, w);
      SkipLiving(a, S, row, marks, w, i + 1, d, K);
    }
  }

  /** The sum of `a` and the first `q` rows of `rows`. */
  function SumRows(a: BitRow, rows: seq<BitRow>, q: nat): (r: BitRow)
    requires q <= |rows| && forall i :: 0 <= i < |rows| ==> |rows[i]| == |a|
    ensures |r| == |a|
  {
    if q == 0 then a else RowXor(SumRows(a, rows, q - 1), rows[q - 1])
  }

  lemma {:induction false} SumRowsSame(a: BitRow, r: seq<BitRow>, t: seq<BitRow>, q: nat)
    requires q <= |r| == |t| && (forall i :: 0 <= i < |r| ==> |r[i]| == |t[i]| == |a|) && forall i :: 0 <= i < q ==> r[i] == t[i]
    ensures SumRows(a, r, q) == SumRows(a, t, q)
  {
    if q > 0 { SumRowsSame(a, r, t, q - 1); }
  }

  lemma {:induction false} SumRowsZeros(a: BitRow, rows: seq<BitRow>, q: nat, n: nat)
    requires q <= n <= |rows| && (forall i :: 0 <= i < |rows| ==> |rows[i]| == |a|)
    requires forall i :: q <= i < n ==> rows[i] == Zeros(|a|)
    ensures SumRows(a, rows, n) == SumRows(a, rows, q)
    decreases n - q
  {
    if q < n {
      SumRowsZeros(a, rows, q, n - 1);
      assert RowXor(SumRows(a, rows, n - 1), Zeros(|a|)) == SumRows(a, rows, n - 1);
    }
  }
}

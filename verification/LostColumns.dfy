/** Rows for lost coding devices: the columns of lost data devices are replaced, one at a time, by
    the rows that rebuild those packets. */
module LostColumns {
  import opened Bits
  import opened RowMajor
  import opened BitAlgebra
  import opened Schedule
  import opened BitDecoding
  import opened BitInvert

  /** `row` without the columns from `c` on whose device does not stand at its own place. */
  function Mask(row: BitRow, front: seq<nat>, w: nat, c: nat): (a: BitRow)
    requires w >= 1 && |row| == Base(|front|, w)
    ensures |a| == |row|
  {
    seq(|row|, p requires 0 <= p < |row| => (Slots(p, |front|, w); row[p] && (front[p / w] == p / w || p < c)))
  }

  lemma MaskAll(row: BitRow, front: seq<nat>, w: nat)
    requires w >= 1 && |row| == Base(|front|, w)
    ensures Mask(row, front, w, |row|) == row
  {
  }

  lemma MaskKept(row: BitRow, front: seq<nat>, w: nat, i: nat)
    requires w >= 1 && |row| == Base(|front|, w) && i < |front| && front[i] == i
    ensures Mask(row, front, w, Base(i, w)) == Mask(row, front, w, Base(i, w) + w)
  {
    forall p: nat | p < |row| && Base(i, w) <= p < Base(i, w) + w ensures p / w == i {
      ModUnique(p, w, i, p - Base(i, w));
    }
  }

  lemma MaskColumn(row: BitRow, front: seq<nat>, w: nat, i: nat, y: nat)
    requires w >= 1 && |row| == Base(|front|, w) && i < |front| && front[i] != i && y < w
    ensures Base(i, w) + y < |row|
    ensures var c, a := Base(i, w) + y, Mask(row, front, w, Base(i, w) + y);
      Mask(row, front, w, c + 1) == if row[c] then RowXor(a, UnitBits(|row|, c)) else a
  {
    BaseBefore(i, |front|, w);
    ModUnique(Base(i, w) + y, w, i, y);
  }

  /** What row `r` amounts to so far: the columns before `c` are accounted for. */
  ghost predicate Accounts(a: BitRow, S: seq<BitRow>, row: BitRow, front: seq<nat>, w: nat, c: nat, K: nat) {
    w >= 1 && |row| == K == Base(|front|, w) && Rebuilds(a, S, Mask(row, front, w, c), K)
  }

  /** The row with all lost columns cleared uses only packets that stand at their own place. */
  lemma AccountsStart(B: seq<BitRow>, k: nat, m: nat, w: nat, front: seq<nat>, row: BitRow)
    requires w >= 1 && BitMatrix(B, Base(m, w), Base(k, w)) && |front| == k && |row| == Base(k, w)
    requires forall i :: 0 <= i < k ==> front[i] < k + m
    ensures Accounts(Mask(row, front, w, 0), SurvivorBits(B, k, m, w, front), row, front, w, 0, Base(k, w))
  {
    hide Base;
    var S, a := SurvivorBits(B, k, m, w, front), Mask(row, front, w, 0);
    forall c: nat | c < Base(k, w) && a[c] ensures S[c] == UnitBits(Base(k, w), c) {
      Slots(c, k, w);
      assert front[c / w] == c / w;
      assert DeviceBits(B, k, m, w, c / w, c % w) == UnitBits(Base(k, w), c);
    }
    KeptRebuilds(a, S, Base(k, w));
  }

  lemma AccountsKept(a: BitRow, S: seq<BitRow>, row: BitRow, front: seq<nat>, w: nat, i: nat, K: nat)
    requires i < |front| && front[i] == i && Accounts(a, S, row, front, w, Base(i, w), K)
    ensures Accounts(a, S, row, front, w, Base(i, w) + w, K)
  {
    MaskKept(row, front, w, i);
  }

  /** One lost column: xor in the row `b` that rebuilds its packet, if the column is selected. */
  lemma AccountsColumn(a: BitRow, b: BitRow, S: seq<BitRow>, row: BitRow, front: seq<nat>, w: nat, i: nat, y: nat, K: nat)
    requires i < |front| && front[i] != i && y < w && Accounts(a, S, row, front, w, Base(i, w) + y, K)
    requires Rebuilds(b, S, UnitBits(K, Base(i, w) + y), K)
    ensures |a| == |b| == |row| == K && Base(i, w) + y < K
    ensures Accounts(if row[Base(i, w) + y] then RowXor(a, b) else a, S, row, front, w, Base(i, w) + y + 1, K)
  {
    MaskColumn(row, front, w, i, y);
    if row[Base(i, w) + y] {
      RebuildsXor(a, b, S, Mask(row, front, w, Base(i, w) + y), UnitBits(K, Base(i, w) + y), K);
    }
  }

  lemma AccountsEnd(a: BitRow, S: seq<BitRow>, row: BitRow, front: seq<nat>, w: nat, K: nat)
    requires Accounts(a, S, row, front, w, K, K)
    ensures Rebuilds(a, S, row, K)
  {
    MaskAll(row, front, w);
  }

  // ----- the block of one coding device

  /** The sizes, and what the blocks before `n` rebuild. */
  ghost predicate Building(dec: seq<BitRow>, B: seq<BitRow>, k: nat, m: nat, w: nat, front: seq<nat>, tail: seq<nat>, n: nat) {
    && w >= 1 && |front| == k && BitMatrix(B, Base(m, w), Base(k, w))
    && (forall i :: 0 <= i < k ==> front[i] < k + m)
    && RebuildsAll(dec, B, k, m, w, SurvivorBits(B, k, m, w, front), tail, n)
  }

  lemma Sizes(dec: seq<BitRow>, B: seq<BitRow>, k: nat, m: nat, w: nat, front: seq<nat>, tail: seq<nat>, n: nat)
    requires Building(dec, B, k, m, w, front, tail, n)
    ensures BitMatrix(dec, |dec|, Base(k, w)) && Base(|tail|, w) <= |dec|
    ensures forall x :: 0 <= x < |tail| ==> tail[x] < k + m
    ensures n < |tail| ==> Base(n, w) + w <= |dec|
  {
    if n < |tail| { BaseBefore(n, |tail|, w); }
  }

  /** Row `j` of block `n`, which is to rebuild coding device `tail[n]`, has its columns before `c`. */
  ghost predicate BlockAccounts(dec: seq<BitRow>, B: seq<BitRow>, k: nat, m: nat, w: nat, front: seq<nat>, tail: seq<nat>,
      n: nat, j: nat, c: nat)
    requires Building(dec, B, k, m, w, front, tail, n) && n < |tail| && j < w
  {
    BaseBefore(n, |tail|, w);
    Accounts(dec[Base(n, w) + j], SurvivorBits(B, k, m, w, front), DeviceBits(B, k, m, w, tail[n], j), front, w, c, Base(k, w))
  }

  /** Inside a block: rows before `j` have the columns before `hi`, the others those before `lo`. */
  ghost predicate InBlock(dec: seq<BitRow>, B: seq<BitRow>, k: nat, m: nat, w: nat, front: seq<nat>, tail: seq<nat>,
      n: nat, j: nat, hi: nat, lo: nat)
  {
    && Building(dec, B, k, m, w, front, tail, n) && n < |tail| && j <= w
    && (forall y: nat :: y < j ==> BlockAccounts(dec, B, k, m, w, front, tail, n, y, hi))
    && (forall y: nat :: j <= y < w ==> BlockAccounts(dec, B, k, m, w, front, tail, n, y, lo))
  }

  /** Row `j` itself has the columns before `c`. */
  ghost predicate InRow(dec: seq<BitRow>, B: seq<BitRow>, k: nat, m: nat, w: nat, front: seq<nat>, tail: seq<nat>,
      n: nat, j: nat, c: nat, hi: nat, lo: nat)
  {
    && Building(dec, B, k, m, w, front, tail, n) && n < |tail| && j < w
    && (forall y: nat :: y < j ==> BlockAccounts(dec, B, k, m, w, front, tail, n, y, hi))
    && (forall y: nat :: j < y < w ==> BlockAccounts(dec, B, k, m, w, front, tail, n, y, lo))
    && BlockAccounts(dec, B, k, m, w, front, tail, n, j, c)
  }

  /** Changing rows of block `n` keeps what the earlier blocks rebuild. */
  lemma BuildingFrame(dec: seq<BitRow>, t: seq<BitRow>, B: seq<BitRow>, k: nat, m: nat, w: nat, front: seq<nat>, tail: seq<nat>, n: nat)
    requires Building(dec, B, k, m, w, front, tail, n) && n < |tail| && BitMatrix(t, |dec|, Base(k, w))
    requires forall r :: 0 <= r < |dec| && !(Base(n, w) <= r < Base(n, w) + w) ==> t[r] == dec[r]
    ensures Building(t, B, k, m, w, front, tail, n)
  {
    hide Base, Rebuilds;
    var S := SurvivorBits(B, k, m, w, front);
    forall x: nat, y: nat | x < n && y < w ensures RebuildsBlock(t, B, k, m, w, S, tail, x, y) {
      assert RebuildsBlock(dec, B, k, m, w, S, tail, x, y);
      BaseBefore(x, |tail|, w);
      BaseBefore(x, n, w);
    }
  }

  lemma BlockStart(dec: seq<BitRow>, t: seq<BitRow>, B: seq<BitRow>, k: nat, m: nat, w: nat, front: seq<nat>, tail: seq<nat>, n: nat)
    requires Building(dec, B, k, m, w, front, tail, n) && n < |tail| && BitMatrix(t, |dec|, Base(k, w))
    requires forall r :: 0 <= r < |dec| && !(Base(n, w) <= r < Base(n, w) + w) ==> t[r] == dec[r]
    requires Base(n, w) + w <= |dec| && forall j: nat :: j < w ==>
      t[Base(n, w) + j] == Mask(DeviceBits(B, k, m, w, tail[n], j), front, w, 0)
    ensures InBlock(t, B, k, m, w, front, tail, n, 0, 0, 0)
  {
    BuildingFrame(dec, t, B, k, m, w, front, tail, n);
    hide Base, Rebuilds, RebuildsAll, Mask, Accounts;
    forall y: nat | y < w ensures BlockAccounts(t, B, k, m, w, front, tail, n, y, 0) {
      AccountsStart(B, k, m, w, front, DeviceBits(B, k, m, w, tail[n], y));
    }
  }

  lemma RowStart(dec: seq<BitRow>, B: seq<BitRow>, k: nat, m: nat, w: nat, front: seq<nat>, tail: seq<nat>, n: nat, j: nat, hi: nat, lo: nat)
    requires InBlock(dec, B, k, m, w, front, tail, n, j, hi, lo) && j < w
    ensures InRow(dec, B, k, m, w, front, tail, n, j, lo, hi, lo)
  {
    hide Building, BlockAccounts;
  }

  lemma RowEnd(dec: seq<BitRow>, B: seq<BitRow>, k: nat, m: nat, w: nat, front: seq<nat>, tail: seq<nat>, n: nat, j: nat, hi: nat, lo: nat)
    requires InRow(dec, B, k, m, w, front, tail, n, j, hi, hi, lo)
    ensures InBlock(dec, B, k, m, w, front, tail, n, j + 1, hi, lo)
  {
    hide Building, BlockAccounts;
  }

  lemma DeviceStart(dec: seq<BitRow>, B: seq<BitRow>, k: nat, m: nat, w: nat, front: seq<nat>, tail: seq<nat>, n: nat, hi: nat, lo: nat)
    requires InBlock(dec, B, k, m, w, front, tail, n, 0, lo, lo)
    ensures InBlock(dec, B, k, m, w, front, tail, n, 0, hi, lo)
  {
    hide Building, BlockAccounts;
  }

  lemma DeviceDone(dec: seq<BitRow>, B: seq<BitRow>, k: nat, m: nat, w: nat, front: seq<nat>, tail: seq<nat>, n: nat, hi: nat, lo: nat)
    requires InBlock(dec, B, k, m, w, front, tail, n, w, hi, lo)
    ensures InBlock(dec, B, k, m, w, front, tail, n, 0, hi, hi)
  {
    hide Building, BlockAccounts;
  }

  lemma DeviceKept(dec: seq<BitRow>, B: seq<BitRow>, k: nat, m: nat, w: nat, front: seq<nat>, tail: seq<nat>, n: nat, i: nat)
    requires InBlock(dec, B, k, m, w, front, tail, n, 0, Base(i, w), Base(i, w)) && i < k && front[i] == i
    ensures InBlock(dec, B, k, m, w, front, tail, n, 0, Base(i, w) + w, Base(i, w) + w)
  {
    hide Base, Rebuilds, RebuildsAll, Mask, Accounts;
    Sizes(dec, B, k, m, w, front, tail, n);
    var c := Base(i, w) + w;
    forall y: nat | y < w ensures BlockAccounts(dec, B, k, m, w, front, tail, n, y, c) {
      assert BlockAccounts(dec, B, k, m, w, front, tail, n, y, Base(i, w));
      AccountsKept(dec[Base(n, w) + y], SurvivorBits(B, k, m, w, front), DeviceBits(B, k, m, w, tail[n], y), front, w, i, Base(k, w));
    }
  }

  lemma BlockEnd(dec: seq<BitRow>, B: seq<BitRow>, k: nat, m: nat, w: nat, front: seq<nat>, tail: seq<nat>, n: nat)
    requires InBlock(dec, B, k, m, w, front, tail, n, 0, Base(k, w), Base(k, w))
    ensures Building(dec, B, k, m, w, front, tail, n + 1)
  {
    hide Base, Rebuilds, Mask, Accounts;
    var S := SurvivorBits(B, k, m, w, front);
    forall x: nat, y: nat | x < n + 1 && y < w ensures RebuildsBlock(dec, B, k, m, w, S, tail, x, y) {
      if x < n {
        assert RebuildsBlock(dec, B, k, m, w, S, tail, x, y);
      } else {
        assert BlockAccounts(dec, B, k, m, w, front, tail, n, y, Base(k, w));
        BaseBefore(n, |tail|, w);
        AccountsEnd(dec[Base(n, w) + y], S, DeviceBits(B, k, m, w, tail[n], y), front, w, Base(k, w));
      }
    }
  }

  /** The row that rebuilds packet `y` of the lost data device `i` is in an earlier block. */
  lemma RebuiltEarlier(dec: seq<BitRow>, B: seq<BitRow>, k: nat, m: nat, w: nat, front: seq<nat>, tail: seq<nat>, n: nat, q: nat, y: nat)
    requires Building(dec, B, k, m, w, front, tail, n) && q < n && y < w && tail[q] < k
    ensures Base(q, w) + y < |dec| && Base(q, w) + w <= Base(n, w)
    ensures Rebuilds(dec[Base(q, w) + y], SurvivorBits(B, k, m, w, front), UnitBits(Base(k, w), Base(tail[q], w) + y), Base(k, w))
  {
    hide Base, Rebuilds;
    assert RebuildsBlock(dec, B, k, m, w, SurvivorBits(B, k, m, w, front), tail, q, y);
    BaseBefore(q, |tail|, w);
    BaseBefore(q, n, w);
  }

  lemma ColumnStep(dec: seq<BitRow>, t: seq<BitRow>, B: seq<BitRow>, k: nat, m: nat, w: nat, front: seq<nat>, tail: seq<nat>,
      n: nat, j: nat, i: nat, y: nat, q: nat, hi: nat, lo: nat)
    requires InRow(dec, B, k, m, w, front, tail, n, j, Base(i, w) + y, hi, lo) && i < k && y < w && front[i] != i
    requires q < n && tail[q] == i && Base(n, w) + w <= |dec| && Base(q, w) + y < |dec| && tail[n] < k + m
    requires Base(i, w) + y < Base(k, w) && |dec[Base(n, w) + j]| == |dec[Base(q, w) + y]| == Base(k, w)
    requires t == if DeviceBits(B, k, m, w, tail[n], j)[Base(i, w) + y] then Folded(dec, Base(n, w) + j, Base(q, w) + y) else dec
    ensures InRow(t, B, k, m, w, front, tail, n, j, Base(i, w) + y + 1, hi, lo)
  {
    hide Base, Rebuilds, RebuildsAll, Mask, Accounts;
    Sizes(dec, B, k, m, w, front, tail, n);
    RebuiltEarlier(dec, B, k, m, w, front, tail, n, q, y);
    BuildingFrame(dec, t, B, k, m, w, front, tail, n);
    var S, r := SurvivorBits(B, k, m, w, front), Base(n, w) + j;
    AccountsColumn(dec[r], dec[Base(q, w) + y], S, DeviceBits(B, k, m, w, tail[n], j), front, w, i, y, Base(k, w));
    assert BlockAccounts(t, B, k, m, w, front, tail, n, j, Base(i, w) + y + 1);
    forall x: nat | x < j ensures BlockAccounts(t, B, k, m, w, front, tail, n, x, hi) {
      assert BlockAccounts(dec, B, k, m, w, front, tail, n, x, hi);
    }
    forall x: nat | j < x < w ensures BlockAccounts(t, B, k, m, w, front, tail, n, x, lo) {
      assert BlockAccounts(dec, B, k, m, w, front, tail, n, x, lo);
    }
  }
}

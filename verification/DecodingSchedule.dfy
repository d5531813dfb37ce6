/** `jerasure_generate_decoding_schedule`: one bit matrix that rebuilds every lost data and coding
    device from the survivors in a single pass, turned into a schedule. */
module DecodingSchedule {
  import opened Bits
  import opened RowMajor
  import opened BitAlgebra
  import opened Schedule
  import opened BitDecoding
  import opened BitInvert
  import opened BitBlocks
  import opened LostColumns

  // ----- the matrix to invert

  lemma SurvivorBlock(B: seq<BitRow>, k: nat, m: nat, w: nat, ids: seq<nat>, i: nat)
    requires w >= 1 && BitMatrix(B, Base(m, w), Base(k, w)) && (forall i :: 0 <= i < |ids| ==> ids[i] < k + m) && i < |ids|
    ensures Base(i, w) + w <= Base(|ids|, w)
    ensures forall r :: Base(i, w) <= r < Base(i, w) + w ==>
      SurvivorBits(B, k, m, w, ids)[r] == DeviceBits(B, k, m, w, ids[i], r - Base(i, w))
  {
    BaseBefore(i, |ids|, w);
    forall r | Base(i, w) <= r < Base(i, w) + w
      ensures SurvivorBits(B, k, m, w, ids)[r] == DeviceBits(B, k, m, w, ids[i], r - Base(i, w))
    {
      SurvivorAt(B, k, m, w, ids, i, r - Base(i, w));
    }
  }

  lemma DeviceBlock(B: seq<BitRow>, k: nat, m: nat, w: nat, d: nat)
    requires BitMatrix(B, Base(m, w), Base(k, w)) && d < k + m
    ensures d < k ==> Base(d, w) + w <= Base(k, w) && forall x: nat :: x < w ==> DeviceBits(B, k, m, w, d, x) == UnitBits(Base(k, w), Base(d, w) + x)
    ensures d >= k ==> Base(d - k, w) + w <= Base(m, w) && forall x: nat :: x < w ==> DeviceBits(B, k, m, w, d, x) == B[Base(d - k, w) + x]
  {
    if d < k { BaseBefore(d, k, w); } else { BaseBefore(d - k, m, w); }
  }

  /** The first `i` blocks are the survivors' rows. */
  ghost predicate SurvivorPart(D: seq<BitRow>, B: seq<BitRow>, k: nat, m: nat, w: nat, front: seq<nat>, i: nat) {
    && w >= 1 && BitMatrix(B, Base(m, w), Base(k, w)) && |front| == k && (forall i :: 0 <= i < k ==> front[i] < k + m)
    && BitMatrix(D, Base(k, w), Base(k, w)) && i <= k && Base(i, w) <= Base(k, w)
    && forall r :: 0 <= r < Base(i, w) ==> D[r] == SurvivorBits(B, k, m, w, front)[r]
  }

  lemma SurvivorPartStep(D: seq<BitRow>, t: seq<BitRow>, B: seq<BitRow>, k: nat, m: nat, w: nat, front: seq<nat>, i: nat)
    requires SurvivorPart(D, B, k, m, w, front, i) && i < k && BitMatrix(t, Base(k, w), Base(k, w))
    requires forall r :: 0 <= r < |D| && !(Base(i, w) <= r < Base(i, w) + w) ==> t[r] == D[r]
    requires forall x: nat :: x < w && Base(i, w) + x < |t| ==> t[Base(i, w) + x] == DeviceBits(B, k, m, w, front[i], x)
    ensures SurvivorPart(t, B, k, m, w, front, i + 1)
  {
    SurvivorBlock(B, k, m, w, front, i);
    BaseStep(i, w);
    hide Base;
    forall r: nat | r < Base(i + 1, w) ensures t[r] == SurvivorBits(B, k, m, w, front)[r] {
      if r >= Base(i, w) { assert t[Base(i, w) + (r - Base(i, w))] == DeviceBits(B, k, m, w, front[i], r - Base(i, w)); }
    }
  }

  lemma SurvivorPartAll(D: seq<BitRow>, B: seq<BitRow>, k: nat, m: nat, w: nat, front: seq<nat>)
    requires SurvivorPart(D, B, k, m, w, front, k)
    ensures D == SurvivorBits(B, k, m, w, front)
  {
  }

  method BuildSurvivorBits(k: nat, m: nat, w: nat, B: array<bool>, rowIds: array<nat>, dec: array<bool>)
    requires w >= 1 && B != dec && B.Length == Base(Base(m, w), Base(k, w)) && dec.Length == Base(Base(k, w), Base(k, w))
    requires k <= rowIds.Length && forall i :: 0 <= i < k ==> rowIds[i] < k + m && (rowIds[i] == i || rowIds[i] >= k)
    modifies dec
    ensures BitMatrix(Rows(B[..], Base(m, w), Base(k, w)), Base(m, w), Base(k, w))
    ensures Rows(dec[..], Base(k, w), Base(k, w)) == SurvivorBits(Rows(B[..], Base(m, w), Base(k, w)), k, m, w, rowIds[..k])
  {
    hide Base, Rows, SurvivorPart, SurvivorBits;
    var K, M := Base(k, w), Base(m, w);
    ghost var R: seq<BitRow>, front := Rows(B[..], M, K), rowIds[..k];
    IsMatrix(B[..], M, K);
    BaseStep(0, w);
    IsMatrix(dec[..], K, K);
    SurvivorPartStart(Rows(dec[..], K, K), R, k, m, w, front);
    var i: nat := 0;
    while i < k
      invariant i <= k && SurvivorPart(Rows(dec[..], K, K), R, k, m, w, front, i)
    {
      ghost var D: seq<BitRow> := Rows(dec[..], K, K);
      BaseBefore(i, k, w);
      DeviceBlock(R, k, m, w, rowIds[i]);
      if rowIds[i] == i {
        UnitBlock(dec, K, K, w, i, i);
      } else {
        CopyRows(dec, K, Base(i, w), B, M, Base(rowIds[i] - k, w), w, K);
      }
      IsMatrix(dec[..], K, K);
      SurvivorPartStep(D, Rows(dec[..], K, K), R, k, m, w, front, i);
      i := i + 1;
    }
    SurvivorPartAll(Rows(dec[..], K, K), R, k, m, w, front);
  }

  lemma SurvivorPartStart(D: seq<BitRow>, B: seq<BitRow>, k: nat, m: nat, w: nat, front: seq<nat>)
    requires w >= 1 && BitMatrix(B, Base(m, w), Base(k, w)) && |front| == k && (forall i :: 0 <= i < k ==> front[i] < k + m)
    requires BitMatrix(D, Base(k, w), Base(k, w))
    ensures SurvivorPart(D, B, k, m, w, front, 0)
  {
    BaseStep(0, w);
    if k > 0 { BaseBefore(0, k, w); }
  }

  // ----- rows for lost data devices

  ghost predicate InvertsSurvivors(inv: seq<BitRow>, B: seq<BitRow>, k: nat, m: nat, w: nat, front: seq<nat>) {
    && w >= 1 && BitMatrix(B, Base(m, w), Base(k, w)) && |front| == k && (forall i :: 0 <= i < k ==> front[i] < k + m)
    && BitMatrix(inv, Base(k, w), Base(k, w)) && BitInverse(inv, SurvivorBits(B, k, m, w, front), Base(k, w))
  }

  lemma DataBlockStep(D: seq<BitRow>, t: seq<BitRow>, B: seq<BitRow>, inv: seq<BitRow>, k: nat, m: nat, w: nat,
      front: seq<nat>, tail: seq<nat>, n: nat)
    requires Building(D, B, k, m, w, front, tail, n) && n < |tail| && tail[n] < k && BitMatrix(t, |D|, Base(k, w))
    requires InvertsSurvivors(inv, B, k, m, w, front)
    requires forall r :: 0 <= r < |D| && !(Base(n, w) <= r < Base(n, w) + w) ==> t[r] == D[r]
    requires Base(tail[n], w) + w <= |inv| && Base(n, w) + w <= |t|
    requires forall r :: Base(n, w) <= r < Base(n, w) + w ==> t[r] == inv[Base(tail[n], w) + (r - Base(n, w))]
    ensures Building(t, B, k, m, w, front, tail, n + 1)
  {
    hide Rebuilds, BitInverse, InvertsSurvivors, Base, SurvivorBits, DeviceBits;
    BuildingFrame(D, t, B, k, m, w, front, tail, n);
    var S := SurvivorBits(B, k, m, w, front);
    forall x: nat, y: nat | x < n + 1 && y < w ensures RebuildsBlock(t, B, k, m, w, S, tail, x, y) {
      if x < n {
        assert RebuildsBlock(t, B, k, m, w, S, tail, x, y);
      } else {
        InverseRow(inv, B, k, m, w, front, tail[n], y);
        assert t[Base(n, w) + y] == inv[Base(tail[n], w) + (Base(n, w) + y - Base(n, w))];
      }
    }
  }

  lemma InverseRow(inv: seq<BitRow>, B: seq<BitRow>, k: nat, m: nat, w: nat, front: seq<nat>, d: nat, y: nat)
    requires InvertsSurvivors(inv, B, k, m, w, front) && d < k && y < w
    ensures Base(d, w) + y < |inv|
    ensures Rebuilds(inv[Base(d, w) + y], SurvivorBits(B, k, m, w, front), DeviceBits(B, k, m, w, d, y), Base(k, w))
  {
    hide BitInverse, Rebuilds, UnitBits, SurvivorBits;
    BaseBefore(d, k, w);
    InverseRebuilds(inv, SurvivorBits(B, k, m, w, front), Base(k, w), Base(d, w) + y);
  }

  /** `memcpy` the rows of the inverse that belong to the lost data devices. */
  method CopyInverse(k: nat, m: nat, w: nat, inverse: array<bool>, rowIds: array<nat>, dec: array<bool>, ddf: nat,
      ghost B: seq<BitRow>, ghost front: seq<nat>, ghost tail: seq<nat>, ghost good: bool)
    requires w >= 1 && inverse != dec && inverse.Length == Base(Base(k, w), Base(k, w))
    requires dec.Length == Base(Base(|tail|, w), Base(k, w)) && ddf <= |tail| && k + |tail| <= rowIds.Length
    requires (forall x: nat :: x < |tail| ==> rowIds[k + x] == tail[x]) && (forall x: nat :: x < ddf ==> tail[x] < k)
    requires good ==> Building(Rows(dec[..], Base(|tail|, w), Base(k, w)), B, k, m, w, front, tail, 0)
    requires good ==> InvertsSurvivors(Rows(inverse[..], Base(k, w), Base(k, w)), B, k, m, w, front)
    modifies dec
    ensures good ==> Building(Rows(dec[..], Base(|tail|, w), Base(k, w)), B, k, m, w, front, tail, ddf)
  {
    hide Base, Rows, Building, InvertsSurvivors;
    var K := Base(k, w);
    ghost var E, V := Base(|tail|, w), Rows(inverse[..], K, K);
    var i: nat := 0;
    while i < ddf
      invariant i <= ddf && (good ==> Building(Rows(dec[..], E, K), B, k, m, w, front, tail, i))
    {
      ghost var D: seq<BitRow> := Rows(dec[..], E, K);
      BaseBefore(tail[i], k, w);
      BaseBefore(i, |tail|, w);
      assert rowIds[k + i] == tail[i];
      CopyRows(dec, E, Base(i, w), inverse, K, Base(rowIds[k + i], w), w, K);
      IsMatrix(dec[..], E, K);
      IsMatrix(inverse[..], K, K);
      if good { DataBlockStep(D, Rows(dec[..], E, K), B, V, k, m, w, front, tail, i); }
      i := i + 1;
    }
  }

  // ----- rows for lost coding devices

  /** `row` with the lost columns before device `i` cleared. */
  function MaskTo(row: BitRow, front: seq<nat>, w: nat, i: nat): (a: BitRow)
    requires w >= 1 && |row| == Base(|front|, w)
    ensures |a| == |row|
  {
    seq(|row|, p requires 0 <= p < |row| => (Slots(p, |front|, w); row[p] && (front[p / w] == p / w || p >= Base(i, w))))
  }

  lemma MaskToStart(row: BitRow, front: seq<nat>, w: nat)
    requires w >= 1 && |row| == Base(|front|, w)
    ensures MaskTo(row, front, w, 0) == row
  {
    BaseStep(0, w);
  }

  lemma MaskToStep(row: BitRow, front: seq<nat>, w: nat, i: nat)
    requires w >= 1 && |row| == Base(|front|, w) && i < |front|
    ensures front[i] == i ==> MaskTo(row, front, w, i + 1) == MaskTo(row, front, w, i)
    ensures front[i] != i ==> MaskTo(row, front, w, i + 1) == Cleared(MaskTo(row, front, w, i), Base(i, w), w)
  {
    BaseStep(i, w);
    forall p: nat | p < |row| ensures Base(i, w) <= p < Base(i, w) + w <==> p / w == i {
      if Base(i, w) <= p < Base(i, w) + w { ModUnique(p, w, i, p - Base(i, w)); }
      Slots(p, |front|, w);
    }
  }

  lemma MaskToEnd(row: BitRow, front: seq<nat>, w: nat)
    requires w >= 1 && |row| == Base(|front|, w)
    ensures MaskTo(row, front, w, |front|) == Mask(row, front, w, 0)
  {
  }

  /** The rows from `r0` on are those of `was` with the lost columns before device `i` cleared, the
      first `j` of them before device `i + 1`. */
  ghost predicate ClearedPart(t: seq<BitRow>, was: seq<BitRow>, front: seq<nat>, w: nat, r0: nat, i: nat, j: nat) {
    && w >= 1 && BitMatrix(was, |was|, Base(|front|, w)) && BitMatrix(t, |was|, Base(|front|, w)) && r0 + w <= |was| && j <= w
    && (forall r :: 0 <= r < |was| && !(r0 <= r < r0 + w) ==> t[r] == was[r])
    && (forall r :: r0 <= r < r0 + j ==> t[r] == MaskTo(was[r], front, w, i + 1))
    && (forall r :: r0 + j <= r < r0 + w ==> t[r] == MaskTo(was[r], front, w, i))
  }

  lemma ClearedPartStart(was: seq<BitRow>, front: seq<nat>, w: nat, r0: nat)
    requires w >= 1 && BitMatrix(was, |was|, Base(|front|, w)) && r0 + w <= |was|
    ensures ClearedPart(was, was, front, w, r0, 0, 0)
  {
    forall r | r0 <= r < r0 + w ensures was[r] == MaskTo(was[r], front, w, 0) { MaskToStart(was[r], front, w); }
  }

  lemma ClearedPartRow(t: seq<BitRow>, was: seq<BitRow>, front: seq<nat>, w: nat, r0: nat, i: nat, j: nat)
    requires ClearedPart(t, was, front, w, r0, i, j) && j < w && i < |front| && front[i] != i
    ensures r0 + j < |t| && ClearedPart(t[r0 + j := Cleared(t[r0 + j], Base(i, w), w)], was, front, w, r0, i, j + 1)
  {
    hide MaskTo, Cleared;
    MaskToStep(was[r0 + j], front, w, i);
  }

  lemma ClearedPartNext(t: seq<BitRow>, was: seq<BitRow>, front: seq<nat>, w: nat, r0: nat, i: nat)
    requires i < |front| && ClearedPart(t, was, front, w, r0, i, if front[i] != i then w else 0)
    ensures ClearedPart(t, was, front, w, r0, i + 1, 0)
  {
    hide MaskTo, Base;
    forall r | r0 <= r < r0 + w ensures t[r] == MaskTo(was[r], front, w, i + 1) {
      MaskToStep(was[r], front, w, i);
    }
  }

  /** Zero the columns of the lost data devices in block `n`. */
  method ClearLostColumns(k: nat, w: nat, rowIds: array<nat>, dec: array<bool>, ghost rows: nat, n: nat)
    requires w >= 1 && k <= rowIds.Length && dec.Length == Base(rows, Base(k, w)) && Base(n, w) + w <= rows
    modifies dec
    ensures BitMatrix(old(Rows(dec[..], rows, Base(k, w))), rows, Base(k, w))
    ensures ClearedPart(Rows(dec[..], rows, Base(k, w)), old(Rows(dec[..], rows, Base(k, w))), rowIds[..k], w, Base(n, w), k, 0)
  {
    hide Base, Rows, ClearedPart;
    var K := Base(k, w);
    ghost var was: seq<BitRow>, front := Rows(dec[..], rows, K), rowIds[..k];
    IsMatrix(dec[..], rows, K);
    ClearedPartStart(was, front, w, Base(n, w));
    var i: nat := 0;
    while i < k
      invariant i <= k && ClearedPart(Rows(dec[..], rows, K), was, front, w, Base(n, w), i, 0)
    {
      BaseBefore(i, k, w);
      if rowIds[i] != i {
        var j: nat := 0;
        while j < w
          invariant j <= w && ClearedPart(Rows(dec[..], rows, K), was, front, w, Base(n, w), i, j)
        {
          ClearedPartRow(Rows(dec[..], rows, K), was, front, w, Base(n, w), i, j);
          ClearRange(dec, rows, K, Base(n, w) + j, Base(i, w), w);
          j := j + 1;
        }
      }
      ClearedPartNext(Rows(dec[..], rows, K), was, front, w, Base(n, w), i);
      i := i + 1;
    }
  }

  /** The block has been copied from the coding matrix and its lost columns cleared. */
  lemma CodingBlockStart(D: seq<BitRow>, C: seq<BitRow>, t: seq<BitRow>, B: seq<BitRow>, k: nat, m: nat, w: nat,
      front: seq<nat>, tail: seq<nat>, n: nat)
    requires Building(D, B, k, m, w, front, tail, n) && n < |tail| && k <= tail[n] < k + m
    requires BitMatrix(C, |D|, Base(k, w)) && Base(n, w) + w <= |D| && Base(tail[n] - k, w) + w <= |B|
    requires forall r :: 0 <= r < |D| && !(Base(n, w) <= r < Base(n, w) + w) ==> C[r] == D[r]
    requires forall r :: Base(n, w) <= r < Base(n, w) + w ==> C[r] == B[Base(tail[n] - k, w) + (r - Base(n, w))]
    requires ClearedPart(t, C, front, w, Base(n, w), k, 0)
    ensures InBlock(t, B, k, m, w, front, tail, n, 0, 0, 0)
  {
    hide Base, Rebuilds, RebuildsAll, Mask, MaskTo;
    DeviceBlock(B, k, m, w, tail[n]);
    forall j: nat | j < w ensures t[Base(n, w) + j] == Mask(DeviceBits(B, k, m, w, tail[n], j), front, w, 0) {
      var r := Base(n, w) + j;
      assert C[r] == B[Base(tail[n] - k, w) + (r - Base(n, w))];
      MaskToEnd(C[r], front, w);
    }
    BlockStart(D, t, B, k, m, w, front, tail, n);
  }

  /** Where the rows that rebuild lost device `i` are. */
  ghost predicate Places(indToRow: seq<nat>, front: seq<nat>, tail: seq<nat>, k: nat, n: nat) {
    |front| == k <= |indToRow| && forall i: nat :: i < k && front[i] != i ==>
      k <= indToRow[i] < k + n && indToRow[i] - k < |tail| && tail[indToRow[i] - k] == i
  }

  /** For every lost data device, every row of the block and every selected packet: xor in the row
      that rebuilds the packet. */
  method AddLostColumns(k: nat, m: nat, w: nat, B: array<bool>, rowIds: array<nat>, indToRow: array<nat>, dec: array<bool>, n: nat,
      ghost tail: seq<nat>, ghost ddf: nat, ghost good: bool)
    requires w >= 1 && B != dec && B.Length == Base(Base(m, w), Base(k, w)) && k <= rowIds.Length
    requires dec.Length == Base(Base(|tail|, w), Base(k, w)) && ddf <= n < |tail| && n + k < rowIds.Length
    requires rowIds[k + n] == tail[n] && k <= tail[n] < k + m
    requires Places(indToRow[..], rowIds[..k], tail, k, ddf)
    requires good ==> InBlock(Rows(dec[..], Base(|tail|, w), Base(k, w)), Rows(B[..], Base(m, w), Base(k, w)), k, m, w, rowIds[..k], tail, n, 0, 0, 0)
    modifies dec
    ensures good ==> Building(Rows(dec[..], Base(|tail|, w), Base(k, w)), Rows(B[..], Base(m, w), Base(k, w)), k, m, w, rowIds[..k], tail, n + 1)
  {
    hide *;
    var K, M := Base(k, w), Base(m, w);
    ghost var E, R: seq<BitRow>, front := Base(|tail|, w), Rows(B[..], M, K), rowIds[..k];
    BaseStep(0, w);
    var i: nat := 0;
    while i < k
      invariant i <= k
      invariant good ==> InBlock(Rows(dec[..], E, K), R, k, m, w, front, tail, n, 0, Base(i, w), Base(i, w))
    {
      BaseStep(i, w);
      if rowIds[i] != i {
        AddLostDevice(k, m, w, B, rowIds, indToRow, dec, n, i, tail, ddf, good);
      } else {
        if good { DeviceKept(Rows(dec[..], E, K), R, k, m, w, front, tail, n, i); }
      }
      i := i + 1;
    }
    if good { BlockEnd(Rows(dec[..], E, K), R, k, m, w, front, tail, n); }
  }

  method AddLostDevice(k: nat, m: nat, w: nat, B: array<bool>, rowIds: array<nat>, indToRow: array<nat>, dec: array<bool>, n: nat, i: nat,
      ghost tail: seq<nat>, ghost ddf: nat, ghost good: bool)
    requires w >= 1 && B != dec && B.Length == Base(Base(m, w), Base(k, w)) && k <= rowIds.Length
    requires dec.Length == Base(Base(|tail|, w), Base(k, w)) && ddf <= n < |tail| && n + k < rowIds.Length
    requires rowIds[k + n] == tail[n] && k <= tail[n] < k + m && i < k && rowIds[i] != i
    requires Places(indToRow[..], rowIds[..k], tail, k, ddf)
    requires good ==> InBlock(Rows(dec[..], Base(|tail|, w), Base(k, w)), Rows(B[..], Base(m, w), Base(k, w)), k, m, w, rowIds[..k], tail,
                              n, 0, Base(i, w), Base(i, w))
    modifies dec
    ensures good ==> InBlock(Rows(dec[..], Base(|tail|, w), Base(k, w)), Rows(B[..], Base(m, w), Base(k, w)), k, m, w, rowIds[..k], tail,
                             n, 0, Base(i, w) + w, Base(i, w) + w)
  {
    hide *;
    ghost var q := PlaceOf(indToRow[..], rowIds[..k], tail, k, ddf, i);
    ghost var K, M := Base(k, w), Base(m, w);
    ghost var E, R: seq<BitRow>, front := Base(|tail|, w), Rows(B[..], M, K), rowIds[..k];
    var b1, drive := indToRow[i] - k, rowIds[k + n] - k;
    ghost var lo, hi := Base(i, w), Base(i, w) + w;
    if good { DeviceStart(Rows(dec[..], E, K), R, k, m, w, front, tail, n, hi, lo); }
    var j: nat := 0;
    while j < w
      invariant j <= w && (good ==> InBlock(Rows(dec[..], E, K), R, k, m, w, front, tail, n, j, hi, lo))
    {
      if good { RowStart(Rows(dec[..], E, K), R, k, m, w, front, tail, n, j, hi, lo); }
      var y: nat := 0;
      while y < w
        invariant y <= w && (good ==> InRow(Rows(dec[..], E, K), R, k, m, w, front, tail, n, j, lo + y, hi, lo))
      {
        ghost var D: seq<BitRow> := Rows(dec[..], E, K);
        AddLostPacket(k, m, w, B, drive, dec, |tail|, n, j, i, y, b1);
        if good { PacketStep(D, Rows(dec[..], E, K), R, k, m, w, front, tail, n, j, i, y, b1, hi, lo); }
        y := y + 1;
      }
      if good { RowEnd(Rows(dec[..], E, K), R, k, m, w, front, tail, n, j, hi, lo); }
      j := j + 1;
    }
    if good { DeviceDone(Rows(dec[..], E, K), R, k, m, w, front, tail, n, hi, lo); }
  }

  lemma PlaceOf(indToRow: seq<nat>, front: seq<nat>, tail: seq<nat>, k: nat, n: nat, i: nat) returns (q: nat)
    requires Places(indToRow, front, tail, k, n) && i < k && front[i] != i
    ensures i < |indToRow| && k <= indToRow[i] && q == indToRow[i] - k && q < n && q < |tail| && tail[q] == i
  {
    q := indToRow[i] - k;
  }

  /** If the row has a one in the column of packet `y` of device `i`, xor in the row that rebuilds it. */
  method AddLostPacket(k: nat, m: nat, w: nat, B: array<bool>, drive: nat, dec: array<bool>, ghost blocks: nat, n: nat,
      j: nat, i: nat, y: nat, b1: nat)
    requires w >= 1 && B != dec && B.Length == Base(Base(m, w), Base(k, w)) && dec.Length == Base(Base(blocks, w), Base(k, w))
    requires drive < m && n < blocks && b1 < n && j < w && y < w && i < k
    modifies dec
    ensures PacketAdded(old(Rows(dec[..], Base(blocks, w), Base(k, w))), Rows(dec[..], Base(blocks, w), Base(k, w)),
                        Rows(B[..], Base(m, w), Base(k, w)), k, w, drive, n, j, i, y, b1)
  {
    hide Base, Rows;
    var K := Base(k, w);
    BaseBefore(i, k, w);
    BaseBefore(drive, m, w);
    BaseBefore(n, blocks, w);
    BaseBefore(b1, blocks, w);
    BaseBefore(b1, n, w);
    IsMatrix(dec[..], Base(blocks, w), K);
    if At(B, Base(m, w), K, Base(drive, w) + j, Base(i, w) + y) {
      XorRow(dec, Base(blocks, w), K, Base(n, w) + j, Base(b1, w) + y);
    }
  }

  ghost predicate PacketAdded(D: seq<BitRow>, t: seq<BitRow>, B: seq<BitRow>, k: nat, w: nat, drive: nat, n: nat, j: nat, i: nat, y: nat, b1: nat) {
    var r, c, p, q := Base(drive, w) + j, Base(i, w) + y, Base(n, w) + j, Base(b1, w) + y;
    && r < |B| && c < |B[r]| && p < |D| && q < |D| && |D[p]| == |D[q]|
    && t == if B[r][c] then Folded(D, p, q) else D
  }

  lemma PacketStep(D: seq<BitRow>, t: seq<BitRow>, B: seq<BitRow>, k: nat, m: nat, w: nat, front: seq<nat>, tail: seq<nat>,
      n: nat, j: nat, i: nat, y: nat, q: nat, hi: nat, lo: nat)
    requires InRow(D, B, k, m, w, front, tail, n, j, Base(i, w) + y, hi, lo) && i < k && y < w && front[i] != i
    requires q < n && tail[q] == i && k <= tail[n] < k + m
    requires PacketAdded(D, t, B, k, w, tail[n] - k, n, j, i, y, q)
    ensures InRow(t, B, k, m, w, front, tail, n, j, Base(i, w) + (y + 1), hi, lo)
  {
    hide Accounts, Mask, Rebuilds, Folded;
    Sizes(D, B, k, m, w, front, tail, n);
    DeviceBlock(B, k, m, w, tail[n]);
    ColumnStep(D, t, B, k, m, w, front, tail, n, j, i, y, q, hi, lo);
  }
}

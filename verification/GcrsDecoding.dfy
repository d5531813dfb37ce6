/** `gcrs_create_decoding_bitmatrix`: for every lost device, in ascending order, the block of rows
    that rebuilds it from the first k living devices. */
module GcrsDecoding {
  import opened RowMajor
  import opened Erasures
  import opened BitAlgebra
  import opened BitDecoding
  import opened BitBlocks
  import opened LostColumns
  import opened GcrsVector

  // ----- one row of one lost coding device

  /** `memcpy` of `n` bits inside rows. */
  method PasteBits(dst: array<bool>, ghost dm: nat, K: nat, r: nat, at: nat, src: array<bool>, ghost sm: nat, sr: nat, from: nat, n: nat)
    requires dst != src && dst.Length == Base(dm, K) && src.Length == Base(sm, K)
    requires r < dm && sr < sm && at + n <= K && from + n <= K
    modifies dst
    ensures Rows(dst[..], dm, K) == old(Rows(dst[..], dm, K))[r := Paste(old(Rows(dst[..], dm, K)[r]), at, Rows(src[..], sm, K)[sr], from, n)]
  {
    hide Base, Rows;
    ghost var s := dst[..];
    BaseBefore(r, dm, K);
    BaseBefore(sr, sm, K);
    var p, q := Base(r, K) + at, Base(sr, K) + from;
    var t: nat := 0;
    while t < n
      invariant t <= n
      invariant forall c :: p <= c < p + t ==> dst[c] == src[c - p + q]
      invariant forall c :: 0 <= c < dst.Length && !(p <= c < p + t) ==> dst[c] == s[c]
    {
      dst[p + t] := src[q + t];
      t := t + 1;
    }
    RowsUpdate(s, dst[..], dm, K, r);
    assert RowOf(dst[..], dm, K, r) == Paste(RowOf(s, dm, K, r), at, RowOf(src[..], sm, K, sr), from, n);
  }

  /** The selected rows of the inverse are packed at the top of `mapping`, the rest of it is zero. */
  ghost predicate Packed(M: seq<BitRow>, a: BitRow, inv: seq<BitRow>, row: BitRow, at: nat, y: nat, cnt: nat, w: nat) {
    && BitMatrix(M, w, |a|) && BitMatrix(inv, |inv|, |a|) && at + y <= |inv| && at + y <= |row| && cnt <= y <= w
    && (forall i :: cnt <= i < w ==> M[i] == Zeros(|a|))
    && SumRows(a, M, cnt) == AddSelected(a, inv, row, at, y)
  }

  lemma PackedStart(M: seq<BitRow>, a: BitRow, inv: seq<BitRow>, row: BitRow, at: nat, w: nat)
    requires BitMatrix(M, w, |a|) && BitMatrix(inv, |inv|, |a|) && at <= |inv| && at <= |row|
    requires forall i :: 0 <= i < w ==> M[i] == Zeros(|a|)
    ensures Packed(M, a, inv, row, at, 0, 0, w)
  {
  }

  lemma PackedStep(M: seq<BitRow>, a: BitRow, inv: seq<BitRow>, row: BitRow, at: nat, y: nat, cnt: nat, w: nat, t: seq<BitRow>)
    requires Packed(M, a, inv, row, at, y, cnt, w) && y < w && at + y < |inv| && at + y < |row|
    requires t == if row[at + y] then M[cnt := inv[at + y]] else M
    ensures Packed(t, a, inv, row, at, y + 1, if row[at + y] then cnt + 1 else cnt, w)
  {
    hide Zeros, RowXor;
    if row[at + y] { SumRowsSame(a, M, t, cnt); }
  }

  lemma PackedSum(M: seq<BitRow>, a: BitRow, inv: seq<BitRow>, row: BitRow, at: nat, cnt: nat, w: nat)
    requires Packed(M, a, inv, row, at, w, cnt, w)
    ensures SumRows(a, M, w) == AddSelected(a, inv, row, at, w)
  {
    SumRowsZeros(a, M, cnt, w);
  }

  /** Collect the rows of the inverse for lost device `i` that row `rowIdx` selects. */
  method PackRows(k: nat, m: nat, w: nat, B: array<bool>, br: nat, inverse: array<bool>, i: nat, ghost a: BitRow)
    returns (mapping: array<bool>, ghost cnt: nat)
    requires w >= 1 && B.Length == Base(Base(m, w), Base(k, w)) && inverse.Length == Base(Base(k, w), Base(k, w))
    requires br < Base(m, w) && i < k && |a| == Base(k, w)
    ensures fresh(mapping) && mapping.Length == Base(w, Base(k, w))
    ensures Packed(Rows(mapping[..], w, Base(k, w)), a, Rows(inverse[..], Base(k, w), Base(k, w)),
                   Rows(B[..], Base(m, w), Base(k, w))[br], Base(i, w), w, cnt, w)
  {
    hide Base, Rows, Packed;
    var K := Base(k, w);
    ghost var V: seq<BitRow>, row := Rows(inverse[..], K, K), Rows(B[..], Base(m, w), K)[br];
    mapping := new bool[Base(w, K)];
    ClearRows(mapping, w, K, 0, w);
    IsMatrix(mapping[..], w, K);
    IsMatrix(inverse[..], K, K);
    BaseBefore(i, k, w);
    PackedStart(Rows(mapping[..], w, K), a, V, row, Base(i, w), w);
    var next: nat := 0;
    var y: nat := 0;
    while y < w
      invariant y <= w && next <= y && Packed(Rows(mapping[..], w, K), a, V, row, Base(i, w), y, next, w)
    {
      ghost var M: seq<BitRow> := Rows(mapping[..], w, K);
      if At(B, Base(m, w), K, br, Base(i, w) + y) {
        CopyRows(mapping, w, next, inverse, K, Base(i, w) + y, 1, K);
        next := next + 1;
        assert Rows(mapping[..], w, K) == M[next - 1 := V[Base(i, w) + y]];
      }
      PackedStep(M, a, V, row, Base(i, w), y, if row[Base(i, w) + y] then next - 1 else next, w, Rows(mapping[..], w, K));
      y := y + 1;
    }
    cnt := next;
  }

  /** `vector row := (vector row + mapping row) % 2` for every row of the mapping. */
  method AddRows(w: nat, K: nat, mapping: array<bool>, dec: array<bool>, ghost rows: nat, r: nat)
    requires mapping != dec && mapping.Length == Base(w, K) && dec.Length == Base(rows, K) && r < rows
    modifies dec
    ensures BitMatrix(Rows(mapping[..], w, K), w, K) && |old(Rows(dec[..], rows, K)[r])| == K
    ensures Rows(dec[..], rows, K) == old(Rows(dec[..], rows, K))[r := SumRows(old(Rows(dec[..], rows, K)[r]), Rows(mapping[..], w, K), w)]
  {
    hide Base, Rows, RowXor;
    ghost var D: seq<BitRow>, M: seq<BitRow> := Rows(dec[..], rows, K), Rows(mapping[..], w, K);
    IsMatrix(mapping[..], w, K);
    var q: nat := 0;
    while q < w
      invariant q <= w && Rows(dec[..], rows, K) == D[r := SumRows(D[r], M, q)]
    {
      AddRowBits(K, mapping, w, q, dec, rows, r);
      q := q + 1;
    }
  }

  method AddRowBits(K: nat, mapping: array<bool>, ghost w: nat, q: nat, dec: array<bool>, ghost rows: nat, r: nat)
    requires mapping != dec && mapping.Length == Base(w, K) && dec.Length == Base(rows, K) && r < rows && q < w
    modifies dec
    ensures Rows(dec[..], rows, K) == old(Rows(dec[..], rows, K))[r := RowXor(old(Rows(dec[..], rows, K)[r]), Rows(mapping[..], w, K)[q])]
  {
    hide Base, Rows;
    ghost var s := dec[..];
    BaseBefore(r, rows, K);
    BaseBefore(q, w, K);
    var p, o := Base(r, K), Base(q, K);
    var c: nat := 0;
    while c < K
      invariant c <= K
      invariant forall x :: p <= x < p + c ==> dec[x] == (s[x] != mapping[x - p + o])
      invariant forall x :: 0 <= x < dec.Length && !(p <= x < p + c) ==> dec[x] == s[x]
    {
      dec[p + c] := dec[p + c] != mapping[o + c];
      c := c + 1;
    }
    RowsUpdate(s, dec[..], rows, K, r);
    XoredStretch(s, dec[..], mapping[..], p, o, K);
  }

  /** One lost data device in one row. */
  method ReplaceLost(k: nat, m: nat, w: nat, B: array<bool>, br: nat, inverse: array<bool>, dec: array<bool>, ghost rows: nat, r: nat, i: nat)
    requires w >= 1 && B.Length == Base(Base(m, w), Base(k, w)) && inverse.Length == Base(Base(k, w), Base(k, w))
    requires dec != B && dec != inverse && dec.Length == Base(rows, Base(k, w)) && r < rows && br < Base(m, w) && i < k
    modifies dec
    ensures LostReplaced(old(Rows(dec[..], rows, Base(k, w))), Rows(dec[..], rows, Base(k, w)), r,
                         Rows(inverse[..], Base(k, w), Base(k, w)), Rows(B[..], Base(m, w), Base(k, w))[br], Base(i, w), w)
  {
    hide Base, Rows, Packed;
    var K := Base(k, w);
    IsMatrix(dec[..], rows, K);
    ghost var a := Rows(dec[..], rows, K)[r];
    assert |a| == K;
    var mapping; ghost var cnt;
    mapping, cnt := PackRows(k, m, w, B, br, inverse, i, a);
    AddRows(w, K, mapping, dec, rows, r);
    PackedSum(Rows(mapping[..], w, K), a, Rows(inverse[..], K, K), Rows(B[..], Base(m, w), K)[br], Base(i, w), cnt, w);
    PackedSizes(Rows(mapping[..], w, K), a, Rows(inverse[..], K, K), Rows(B[..], Base(m, w), K)[br], Base(i, w), cnt, w);
  }

  lemma PackedSizes(M: seq<BitRow>, a: BitRow, inv: seq<BitRow>, row: BitRow, at: nat, cnt: nat, w: nat)
    requires Packed(M, a, inv, row, at, w, cnt, w)
    ensures BitMatrix(inv, |inv|, |a|) && at + w <= |inv| && at + w <= |row|
  {
  }

  ghost predicate LostReplaced(D: seq<BitRow>, t: seq<BitRow>, r: nat, inv: seq<BitRow>, row: BitRow, at: nat, w: nat) {
    && r < |D| && BitMatrix(inv, |inv|, |D[r]|) && at + w <= |inv| && at + w <= |row|
    && t == D[r := AddSelected(D[r], inv, row, at, w)]
  }

  // ----- the block of one lost coding device

  /** Row `y` of block `n` has the living devices before `d` in place. */
  ghost predicate RowPlaced(D: seq<BitRow>, B: seq<BitRow>, k: nat, m: nat, w: nat, e: seq<bool>, dev: nat, n: nat, y: nat, d: nat)
    requires Setting(B, k, m, w, e) && dev < k + m && y < w && Base(n, w) + w <= |D|
  {
    Placed(D[Base(n, w) + y], B, k, m, w, e, DeviceBits(B, k, m, w, dev, y), d)
  }

  /** Rows of block `n` before `j` have the devices before `hi` in place, the others those before `d`;
      nothing outside the block has changed. */
  ghost predicate Placing(D: seq<BitRow>, was: seq<BitRow>, B: seq<BitRow>, k: nat, m: nat, w: nat, e: seq<bool>, dev: nat, n: nat, d: nat, hi: nat, j: nat) {
    && Setting(B, k, m, w, e) && dev < k + m && |D| == |was| && Base(n, w) + w <= |D| && j <= w && BitMatrix(D, |D|, Base(k, w))
    && (forall r :: 0 <= r < |D| && !(Base(n, w) <= r < Base(n, w) + w) ==> D[r] == was[r])
    && (forall y: nat :: y < j ==> RowPlaced(D, B, k, m, w, e, dev, n, y, hi))
    && (forall y: nat :: j <= y < w ==> RowPlaced(D, B, k, m, w, e, dev, n, y, d))
  }

  lemma PlacingStart(D: seq<BitRow>, B: seq<BitRow>, k: nat, m: nat, w: nat, e: seq<bool>, dev: nat, n: nat)
    requires Setting(B, k, m, w, e) && dev < k + m && Base(n, w) + w <= |D| && BitMatrix(D, |D|, Base(k, w))
    requires forall r :: Base(n, w) <= r < Base(n, w) + w ==> D[r] == Zeros(Base(k, w))
    ensures Placing(D, D, B, k, m, w, e, dev, n, 0, 0, 0)
  {
    hide Placed, Zeros, DeviceBits;
    forall y: nat | y < w ensures RowPlaced(D, B, k, m, w, e, dev, n, y, 0) {
      PlacedStart(B, k, m, w, e, DeviceBits(B, k, m, w, dev, y));
    }
  }

  lemma PlacingLost(D: seq<BitRow>, was: seq<BitRow>, B: seq<BitRow>, k: nat, m: nat, w: nat, e: seq<bool>, dev: nat, n: nat, d: nat)
    requires Placing(D, was, B, k, m, w, e, dev, n, d, d, 0) && d < k && e[d]
    ensures Placing(D, was, B, k, m, w, e, dev, n, d + 1, d + 1, 0)
  {
    hide Placed, DeviceBits;
    var next := d + 1;
    forall y: nat | y < w ensures RowPlaced(D, B, k, m, w, e, dev, n, y, next) {
      assert RowPlaced(D, B, k, m, w, e, dev, n, y, d);
      PlacedLost(D[Base(n, w) + y], B, k, m, w, e, DeviceBits(B, k, m, w, dev, y), d);
    }
  }

  lemma PlacingRow(D: seq<BitRow>, was: seq<BitRow>, B: seq<BitRow>, k: nat, m: nat, w: nat, e: seq<bool>, dev: nat, n: nat, d: nat, j: nat)
    requires Placing(D, was, B, k, m, w, e, dev, n, d, d + 1, j) && d < k && !e[d] && j < w
    ensures var r, row, at := Base(n, w) + j, DeviceBits(B, k, m, w, dev, j), Base(|Alive(e, d)|, w);
      && r < |D| && at + w <= |D[r]| && Base(d, w) + w <= |row|
      && Placing(D[r := Paste(D[r], at, row, Base(d, w), w)], was, B, k, m, w, e, dev, n, d, d + 1, j + 1)
  {
    hide Placed, DeviceBits, Base;
    var r, row, at := Base(n, w) + j, DeviceBits(B, k, m, w, dev, j), Base(|Alive(e, d)|, w);
    assert RowPlaced(D, B, k, m, w, e, dev, n, j, d);
    PlacedLiving(D[r], B, k, m, w, e, row, d);
    var t := D[r := Paste(D[r], at, row, Base(d, w), w)];
    var next := d + 1;
    forall y: nat | y < j + 1 ensures RowPlaced(t, B, k, m, w, e, dev, n, y, next) {
      if y < j { assert RowPlaced(D, B, k, m, w, e, dev, n, y, next); }
    }
    forall y: nat | j + 1 <= y < w ensures RowPlaced(t, B, k, m, w, e, dev, n, y, d) {
      assert RowPlaced(D, B, k, m, w, e, dev, n, y, d);
    }
  }

  lemma PlacingLiving(D: seq<BitRow>, was: seq<BitRow>, B: seq<BitRow>, k: nat, m: nat, w: nat, e: seq<bool>, dev: nat, n: nat, d: nat)
    requires Placing(D, was, B, k, m, w, e, dev, n, d, d + 1, w)
    ensures Placing(D, was, B, k, m, w, e, dev, n, d + 1, d + 1, 0)
  {
    hide RowPlaced, Setting, Base;
  }

  lemma PlacingFirst(D: seq<BitRow>, was: seq<BitRow>, B: seq<BitRow>, k: nat, m: nat, w: nat, e: seq<bool>, dev: nat, n: nat, d: nat)
    requires Placing(D, was, B, k, m, w, e, dev, n, d, d, 0)
    ensures Placing(D, was, B, k, m, w, e, dev, n, d, d + 1, 0)
  {
    hide RowPlaced, Setting, Base;
  }

  lemma CodingRow(B: seq<BitRow>, k: nat, m: nat, w: nat, e: seq<bool>, mIdx: nat, y: nat)
    requires Setting(B, k, m, w, e) && mIdx < m && y < w
    ensures BitMatrix(B, Base(m, w), Base(k, w)) && Base(mIdx, w) + y < |B| == Base(m, w)
    ensures DeviceBits(B, k, m, w, k + mIdx, y) == B[Base(mIdx, w) + y]
  {
    BaseBefore(mIdx, m, w);
  }

  /** One living data device: its columns, row by row. */
  method PlaceDevice(k: nat, m: nat, w: nat, mIdx: nat, B: array<bool>, dec: array<bool>, ghost rows: nat, n: nat, d: nat, mapIdx: nat,
      ghost e: seq<bool>, ghost was: seq<BitRow>)
    requires w >= 1 && mIdx < m && B != dec && B.Length == Base(Base(m, w), Base(k, w)) && dec.Length == Base(rows, Base(k, w))
    requires |e| == k + m && d < k && !e[d] && mapIdx == |Alive(e, d)| && Base(n, w) + w <= rows
    requires Placing(Rows(dec[..], rows, Base(k, w)), was, Rows(B[..], Base(m, w), Base(k, w)), k, m, w, e, k + mIdx, n, d, d, 0)
    modifies dec
    ensures Placing(Rows(dec[..], rows, Base(k, w)), was, Rows(B[..], Base(m, w), Base(k, w)), k, m, w, e, k + mIdx, n, d + 1, d + 1, 0)
  {
    hide Base, Rows, Placing, DeviceBits, Alive;
    var K := Base(k, w);
    ghost var R: seq<BitRow> := Rows(B[..], Base(m, w), K);
    PlacingFirst(Rows(dec[..], rows, K), was, R, k, m, w, e, k + mIdx, n, d);
    var rowIdx: nat := 0;
    while rowIdx < w
      invariant rowIdx <= w && Placing(Rows(dec[..], rows, K), was, R, k, m, w, e, k + mIdx, n, d, d + 1, rowIdx)
    {
      PlacingSetting(Rows(dec[..], rows, K), was, R, k, m, w, e, k + mIdx, n, d, d + 1, rowIdx);
      CodingRow(R, k, m, w, e, mIdx, rowIdx);
      PlacingRow(Rows(dec[..], rows, K), was, R, k, m, w, e, k + mIdx, n, d, rowIdx);
      PasteBits(dec, rows, K, Base(n, w) + rowIdx, Base(mapIdx, w), B, Base(m, w), Base(mIdx, w) + rowIdx, Base(d, w), w);
      rowIdx := rowIdx + 1;
    }
    PlacingLiving(Rows(dec[..], rows, K), was, R, k, m, w, e, k + mIdx, n, d);
  }

  lemma PlacingSetting(D: seq<BitRow>, was: seq<BitRow>, B: seq<BitRow>, k: nat, m: nat, w: nat, e: seq<bool>, dev: nat, n: nat, d: nat, hi: nat, j: nat)
    requires Placing(D, was, B, k, m, w, e, dev, n, d, hi, j)
    ensures Setting(B, k, m, w, e) && BitMatrix(D, |D|, Base(k, w))
  {
  }

  /** Copy the columns of the living data devices to their places, and note the lost ones. */
  method PlaceLiving(k: nat, m: nat, w: nat, mIdx: nat, B: array<bool>, dec: array<bool>, ghost rows: nat, n: nat, erases: array<bool>,
      missing: array<int>) returns (r: int)
    requires w >= 1 && mIdx < m && B != dec && B.Length == Base(Base(m, w), Base(k, w)) && dec.Length == Base(rows, Base(k, w))
    requires erases.Length == k + m && erases != dec && missing.Length == m + 1 && Base(n, w) + w <= rows
    requires Placing(Rows(dec[..], rows, Base(k, w)), Rows(dec[..], rows, Base(k, w)), Rows(B[..], Base(m, w), Base(k, w)),
                     k, m, w, erases[..], k + mIdx, n, 0, 0, 0)
    modifies dec, missing
    ensures r == if |Flagged(erases[..], true, 0, k)| > m then -1 else 0
    ensures r == 0 ==> Placing(Rows(dec[..], rows, Base(k, w)), old(Rows(dec[..], rows, Base(k, w))), Rows(B[..], Base(m, w), Base(k, w)),
                               k, m, w, erases[..], k + mIdx, n, k, k, 0)
    ensures r == 0 ==> Noted(missing[..], old(missing[..]), Flagged(erases[..], true, 0, k))
  {
    hide *;
    var K := Base(k, w);
    ghost var R: seq<BitRow>, e, was: seq<BitRow>, m0 := Rows(B[..], Base(m, w), K), erases[..], Rows(dec[..], rows, K), missing[..];
    NotedStart(m0);
    var mapIdx: nat, missIdx: nat := 0, 0;
    NoneFlagged(e);
    var d: nat := 0;
    while d < k
      invariant d <= k && mapIdx == |Alive(e, d)| && missIdx == |Flagged(e, true, 0, d)| <= m
      invariant Placing(Rows(dec[..], rows, K), was, R, k, m, w, e, k + mIdx, n, d, d, 0)
      invariant Noted(missing[..], m0, Flagged(e, true, 0, d))
    {
      mapIdx, missIdx := PlaceNext(k, m, w, mIdx, B, dec, rows, n, erases, missing, d, mapIdx, missIdx, was, m0);
      if missIdx > m {
        FlaggedPrefix(e, true, 0, d + 1, k);
        return -1;
      }
      d := d + 1;
    }
    r := 0;
  }

  /** Data device `d`: place its columns, or note that it is lost. */
  method PlaceNext(k: nat, m: nat, w: nat, mIdx: nat, B: array<bool>, dec: array<bool>, ghost rows: nat, n: nat, erases: array<bool>,
      missing: array<int>, d: nat, mapIdx0: nat, missIdx0: nat, ghost was: seq<BitRow>, ghost m0: seq<int>) returns (mapIdx: nat, missIdx: nat)
    requires w >= 1 && mIdx < m && B != dec && B.Length == Base(Base(m, w), Base(k, w)) && dec.Length == Base(rows, Base(k, w))
    requires erases.Length == k + m && erases != dec && missing.Length == m + 1 && Base(n, w) + w <= rows && d < k
    requires mapIdx0 == |Alive(erases[..], d)| && missIdx0 == |Flagged(erases[..], true, 0, d)| <= m
    requires Placing(Rows(dec[..], rows, Base(k, w)), was, Rows(B[..], Base(m, w), Base(k, w)), k, m, w, erases[..], k + mIdx, n, d, d, 0)
    requires Noted(missing[..], m0, Flagged(erases[..], true, 0, d))
    modifies dec, missing
    ensures mapIdx == |Alive(erases[..], d + 1)| && missIdx == |Flagged(erases[..], true, 0, d + 1)| <= m + 1
    ensures Placing(Rows(dec[..], rows, Base(k, w)), was, Rows(B[..], Base(m, w), Base(k, w)), k, m, w, erases[..], k + mIdx, n, d + 1, d + 1, 0)
    ensures Noted(missing[..], m0, Flagged(erases[..], true, 0, d + 1))
  {
    hide *;
    ghost var e := erases[..];
    mapIdx, missIdx := mapIdx0, missIdx0;
    NextCounts(e, d);
    if !erases[d] {
      PlaceDevice(k, m, w, mIdx, B, dec, rows, n, d, mapIdx, e, was);
      mapIdx := mapIdx + 1;
    } else {
      PlacingLost(Rows(dec[..], rows, Base(k, w)), was, Rows(B[..], Base(m, w), Base(k, w)), k, m, w, e, k + mIdx, n, d);
      NoteLost(missing, missIdx, d, m0, Flagged(e, true, 0, d));
      missIdx := missIdx + 1;
    }
  }

  /** The noted devices stand at the beginning of `missing`; the rest of it is untouched. */
  ghost predicate Noted(missing: seq<int>, before: seq<int>, lost: seq<nat>) {
    && |missing| == |before| && |lost| <= |missing|
    && (forall i :: 0 <= i < |lost| ==> missing[i] == lost[i])
    && (forall i :: |lost| <= i < |missing| ==> missing[i] == before[i])
  }

  lemma NotedStart(missing: seq<int>)
    ensures Noted(missing, missing, [])
  {
  }

  method NoteLost(missing: array<int>, missIdx: nat, d: nat, ghost before: seq<int>, ghost lost: seq<nat>)
    requires Noted(missing[..], before, lost) && missIdx == |lost| < missing.Length
    modifies missing
    ensures Noted(missing[..], before, lost + [d])
  {
    NotedStep(missing[..], before, lost, d);
    hide Noted;
    missing[missIdx] := d;
  }

  lemma NotedStep(missing: seq<int>, before: seq<int>, lost: seq<nat>, d: nat)
    requires Noted(missing, before, lost) && |lost| < |missing|
    ensures Noted(missing[|lost| := d], before, lost + [d])
  {
  }

  lemma NextCounts(e: seq<bool>, d: nat)
    requires d < |e|
    ensures |Alive(e, d + 1)| == |Alive(e, d)| + if e[d] then 0 else 1
    ensures Flagged(e, true, 0, d + 1) == if e[d] then Flagged(e, true, 0, d) + [d] else Flagged(e, true, 0, d)
  {
    FlaggedNext(e, false, 0, d);
    FlaggedNext(e, true, 0, d);
  }

  lemma NoneFlagged(e: seq<bool>)
    ensures Flagged(e, true, 0, 0) == [] && Alive(e, 0) == []
  {
  }

  // ----- the lost data devices, row by row

  ghost predicate RowReplaced(D: seq<BitRow>, B: seq<BitRow>, k: nat, m: nat, w: nat, e: seq<bool>, dev: nat, n: nat, y: nat, c: nat)
    requires Setting(B, k, m, w, e) && dev < k + m && y < w && Base(n, w) + w <= |D|
  {
    Accounts(D[Base(n, w) + y], FirstBits(B, k, m, w, e), DeviceBits(B, k, m, w, dev, y), Marks(e, k), w, c, Base(k, w))
  }

  /** Rows before `j` of block `n` account for all columns, row `j` for those before `c`, the rest for none lost. */
  ghost predicate Replacing(D: seq<BitRow>, was: seq<BitRow>, B: seq<BitRow>, k: nat, m: nat, w: nat, e: seq<bool>, dev: nat, n: nat, j: nat, c: nat) {
    && Setting(B, k, m, w, e) && dev < k + m && |D| == |was| && Base(n, w) + w <= |D| && j <= w && BitMatrix(D, |D|, Base(k, w))
    && (forall r :: 0 <= r < |D| && !(Base(n, w) <= r < Base(n, w) + w) ==> D[r] == was[r])
    && (forall y: nat :: y < j ==> RowReplaced(D, B, k, m, w, e, dev, n, y, Base(k, w)))
    && (j < w ==> RowReplaced(D, B, k, m, w, e, dev, n, j, c))
    && (forall y: nat :: j < y < w ==> RowReplaced(D, B, k, m, w, e, dev, n, y, 0))
  }

  lemma ReplacingStart(D: seq<BitRow>, was: seq<BitRow>, B: seq<BitRow>, k: nat, m: nat, w: nat, e: seq<bool>, dev: nat, n: nat)
    requires Placing(D, was, B, k, m, w, e, dev, n, k, k, 0)
    ensures Replacing(D, was, B, k, m, w, e, dev, n, 0, 0)
  {
    hide Placed, Accounts, DeviceBits, Base, FirstBits;
    forall y: nat | y < w ensures RowReplaced(D, B, k, m, w, e, dev, n, y, 0) {
      assert RowPlaced(D, B, k, m, w, e, dev, n, y, k);
      PlacedAll(D[Base(n, w) + y], B, k, m, w, e, DeviceBits(B, k, m, w, dev, y));
    }
  }

  lemma ReplacingSkip(D: seq<BitRow>, was: seq<BitRow>, B: seq<BitRow>, k: nat, m: nat, w: nat, e: seq<bool>, dev: nat, n: nat, j: nat, i: nat, d: nat)
    requires Replacing(D, was, B, k, m, w, e, dev, n, j, Base(i, w)) && j < w && i <= d <= k && forall x :: i <= x < d ==> !e[x]
    ensures Replacing(D, was, B, k, m, w, e, dev, n, j, Base(d, w))
  {
    hide Accounts, DeviceBits, Base, FirstBits;
    assert RowReplaced(D, B, k, m, w, e, dev, n, j, Base(i, w));
    SkipLiving(D[Base(n, w) + j], FirstBits(B, k, m, w, e), DeviceBits(B, k, m, w, dev, j), Marks(e, k), w, i, d, Base(k, w));
  }

  lemma ReplacingLost(D: seq<BitRow>, t: seq<BitRow>, was: seq<BitRow>, B: seq<BitRow>, k: nat, m: nat, w: nat, e: seq<bool>, dev: nat, n: nat, j: nat,
      i: nat, inv: seq<BitRow>)
    requires Replacing(D, was, B, k, m, w, e, dev, n, j, Base(i, w)) && j < w && i < k && e[i]
    requires BitMatrix(inv, Base(k, w), Base(k, w)) && BitInverse(inv, FirstBits(B, k, m, w, e), Base(k, w))
    requires LostReplaced(D, t, Base(n, w) + j, inv, DeviceBits(B, k, m, w, dev, j), Base(i, w), w)
    ensures Replacing(t, was, B, k, m, w, e, dev, n, j, Base(i + 1, w))
  {
    hide Accounts, DeviceBits, Base, FirstBits, BitInverse, AddSelected;
    var r := Base(n, w) + j;
    assert RowReplaced(D, B, k, m, w, e, dev, n, j, Base(i, w));
    SelectedAccounts(D[r], inv, FirstBits(B, k, m, w, e), DeviceBits(B, k, m, w, dev, j), Marks(e, k), w, i, w, Base(k, w));
    BaseStep(i, w);
    var K := Base(k, w);
    forall y: nat | y < j ensures RowReplaced(t, B, k, m, w, e, dev, n, y, K) { assert RowReplaced(D, B, k, m, w, e, dev, n, y, K); }
    forall y: nat | j < y < w ensures RowReplaced(t, B, k, m, w, e, dev, n, y, 0) { assert RowReplaced(D, B, k, m, w, e, dev, n, y, 0); }
  }

  lemma ReplacingNext(D: seq<BitRow>, was: seq<BitRow>, B: seq<BitRow>, k: nat, m: nat, w: nat, e: seq<bool>, dev: nat, n: nat, j: nat)
    requires Replacing(D, was, B, k, m, w, e, dev, n, j, Base(k, w)) && j < w
    ensures Replacing(D, was, B, k, m, w, e, dev, n, j + 1, 0)
  {
    hide RowReplaced, Base;
  }

  /** Between two entries of the list of lost devices there are only living ones. */
  lemma LostGap(e: seq<bool>, k: nat, q: nat, i: nat, d: nat)
    requires k <= |e| && q <= |Flagged(e, true, 0, k)| && d <= k
    requires i == if q == 0 then 0 else Flagged(e, true, 0, k)[q - 1] + 1
    requires d == if q == |Flagged(e, true, 0, k)| then k else Flagged(e, true, 0, k)[q]
    ensures i <= d && forall x :: i <= x < d ==> !e[x]
  {
    forall x: nat | i <= x < d ensures !e[x] {
      if e[x] { FlaggedAt(e, true, 0, x, k); }
    }
  }

  /** All lost data devices in all rows of the block. */
  method ReplaceAllLost(k: nat, m: nat, w: nat, mIdx: nat, B: array<bool>, inverse: array<bool>, dec: array<bool>, ghost rows: nat, n: nat,
      missing: array<int>, ghost e: seq<bool>, ghost was: seq<BitRow>, ghost good: bool)
    requires w >= 1 && mIdx < m && B.Length == Base(Base(m, w), Base(k, w)) && inverse.Length == Base(Base(k, w), Base(k, w))
    requires dec != B && dec != inverse && dec.Length == Base(rows, Base(k, w)) && Base(n, w) + w <= rows && |e| == k + m
    requires |Flagged(e, true, 0, k)| < missing.Length && missing[|Flagged(e, true, 0, k)|] == -1
    requires forall i :: 0 <= i < |Flagged(e, true, 0, k)| ==> missing[i] == Flagged(e, true, 0, k)[i]
    requires good && Flagged(e, true, 0, k) != [] ==> Setting(Rows(B[..], Base(m, w), Base(k, w)), k, m, w, e)
    requires good && Flagged(e, true, 0, k) != [] ==> BitMatrix(Rows(inverse[..], Base(k, w), Base(k, w)), Base(k, w), Base(k, w))
    requires good && Flagged(e, true, 0, k) != [] ==>
      BitInverse(Rows(inverse[..], Base(k, w), Base(k, w)), FirstBits(Rows(B[..], Base(m, w), Base(k, w)), k, m, w, e), Base(k, w))
    requires Replacing(Rows(dec[..], rows, Base(k, w)), was, Rows(B[..], Base(m, w), Base(k, w)), k, m, w, e, k + mIdx, n, 0, 0)
    modifies dec
    ensures good ==>
      Replacing(Rows(dec[..], rows, Base(k, w)), was, Rows(B[..], Base(m, w), Base(k, w)), k, m, w, e, k + mIdx, n, w, 0)
  {
    hide Base, Rows, Replacing, DeviceBits, LostReplaced, Flagged, BitInverse, FirstBits;
    var K := Base(k, w);
    ghost var R: seq<BitRow>, V: seq<BitRow>, lost := Rows(B[..], Base(m, w), K), Rows(inverse[..], K, K), Flagged(e, true, 0, k);
    BaseStep(0, w);
    BaseBefore(mIdx, m, w);
    var rowIdx: nat := 0;
    while rowIdx < w
      invariant rowIdx <= w
      invariant good ==> Replacing(Rows(dec[..], rows, K), was, R, k, m, w, e, k + mIdx, n, rowIdx, 0)
    {
      var idx: nat := 0;
      ghost var i: nat := 0;
      while missing[idx] != -1
        invariant idx <= |lost| && i == (if idx == 0 then 0 else lost[idx - 1] + 1)
        invariant good ==> Replacing(Rows(dec[..], rows, K), was, R, k, m, w, e, k + mIdx, n, rowIdx, Base(i, w))
        decreases |lost| - idx
      {
        LostGap(e, k, idx, i, lost[idx]);
        ghost var D: seq<BitRow> := Rows(dec[..], rows, K);
        if good { ReplacingSkip(D, was, R, k, m, w, e, k + mIdx, n, rowIdx, i, lost[idx]); }
        ReplaceLost(k, m, w, B, Base(mIdx, w) + rowIdx, inverse, dec, rows, Base(n, w) + rowIdx, missing[idx]);
        if good {
          CodingRow(R, k, m, w, e, mIdx, rowIdx);
          ReplacingLost(D, Rows(dec[..], rows, K), was, R, k, m, w, e, k + mIdx, n, rowIdx, lost[idx], V);
        }
        i := lost[idx] + 1;
        idx := idx + 1;
      }
      if good {
        LostGap(e, k, idx, i, k);
        ReplacingSkip(Rows(dec[..], rows, K), was, R, k, m, w, e, k + mIdx, n, rowIdx, i, k);
        ReplacingNext(Rows(dec[..], rows, K), was, R, k, m, w, e, k + mIdx, n, rowIdx);
      }
      rowIdx := rowIdx + 1;
    }
  }

  /** Fill the cleared block `n` for the lost coding device `mIdx`. */
  method GenerateCodingVector(k: nat, m: nat, w: nat, mIdx: nat, B: array<bool>, inverse: array<bool>, dec: array<bool>, ghost rows: nat,
      n: nat, erases: array<bool>, ghost good: bool) returns (r: int)
    requires w >= 1 && mIdx < m && B.Length == Base(Base(m, w), Base(k, w)) && inverse.Length == Base(Base(k, w), Base(k, w))
    requires dec != B && dec != inverse && dec != erases && dec.Length == Base(rows, Base(k, w)) && Base(n, w) + w <= rows
    requires erases.Length == k + m && |Flagged(erases[..], true, 0, k)| < k
    requires Setting(Rows(B[..], Base(m, w), Base(k, w)), k, m, w, erases[..])
    requires BitMatrix(Rows(dec[..], rows, Base(k, w)), rows, Base(k, w))
    requires forall r :: Base(n, w) <= r < Base(n, w) + w ==> Rows(dec[..], rows, Base(k, w))[r] == Zeros(Base(k, w))
    requires good && Flagged(erases[..], true, 0, k) != [] ==>
      InvertsFirst(Rows(inverse[..], Base(k, w), Base(k, w)), Rows(B[..], Base(m, w), Base(k, w)), k, m, w, erases[..])
    modifies dec
    ensures r == if |Flagged(erases[..], true, 0, k)| > m then -1 else 0
    ensures good && r == 0 ==> Replacing(Rows(dec[..], rows, Base(k, w)), old(Rows(dec[..], rows, Base(k, w))),
      Rows(B[..], Base(m, w), Base(k, w)), k, m, w, erases[..], k + mIdx, n, w, 0)
  {
    hide Base, Rows, Placing, Replacing, Flagged, BitInverse, FirstBits, Zeros;
    var K := Base(k, w);
    ghost var R: seq<BitRow>, D: seq<BitRow>, e := Rows(B[..], Base(m, w), K), Rows(dec[..], rows, K), erases[..];
    var missing := new int[m + 1];
    var kIdx: nat := 0;
    while kIdx < k
      invariant kIdx <= k && forall i :: 0 <= i < kIdx && i <= m ==> missing[i] == -1
      invariant Rows(dec[..], rows, K) == D && erases[..] == e
    {
      if kIdx <= m { missing[kIdx] := -1; }
      kIdx := kIdx + 1;
    }
    PlacingStart(D, R, k, m, w, e, k + mIdx, n);
    r := PlaceLiving(k, m, w, mIdx, B, dec, rows, n, erases, missing);
    if r == -1 { return; }
    ReplacingStart(Rows(dec[..], rows, K), D, R, k, m, w, e, k + mIdx, n);
    ReplaceAllLost(k, m, w, mIdx, B, inverse, dec, rows, n, missing, e, D, good);
  }

  ghost predicate InvertsFirst(inv: seq<BitRow>, B: seq<BitRow>, k: nat, m: nat, w: nat, e: seq<bool>) {
    && Setting(B, k, m, w, e) && BitMatrix(inv, Base(k, w), Base(k, w))
    && BitInverse(inv, FirstBits(B, k, m, w, e), Base(k, w))
  }
}

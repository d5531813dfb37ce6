/** `set_up_ids_for_scheduled_decoding` and `set_up_ptrs_for_scheduled_decoding`: the order of the
    device pointers a decoding schedule works on.  Place i < k holds data device i, or, if it is
    lost, the next coding device that is not; the lost devices follow. */
module ScheduledIds {
  import opened Survivors
  import opened Erasures

  /** The lost devices: exactly the members of the erasure list. */
  lemma FlaggedMembers(erasures: seq<nat>, n: nat)
    requires forall i :: 0 <= i < |erasures| ==> erasures[i] < n
    ensures |Flagged(Flags(erasures, n), true, 0, n)| == |Members(erasures)|
  {
    var e := Flags(erasures, n);
    var lost := Flagged(e, true, 0, n);
    forall d: nat | d in erasures ensures d in lost { FlaggedAt(e, true, 0, d, n); }
    assert Members(lost) == Members(erasures);
    DistinctMembers(lost);
  }

  /** Enough coding devices are alive to stand in for the lost data devices. */
  ghost predicate Recoverable(erased: seq<bool>, k: nat, m: nat) {
    |erased| == k + m && |Flagged(erased, true, 0, k + m)| <= m
  }

  lemma StandIns(erased: seq<bool>, k: nat, m: nat)
    requires Recoverable(erased, k, m)
    ensures |Flagged(erased, true, 0, k)| <= |Flagged(erased, false, k, k + m)|
  {
    FlaggedSplit(erased, true, 0, k, k + m);
    FlaggedBoth(erased, k, k + m);
  }

  /** Who stands at place `i` < k. */
  ghost function Stand(erased: seq<bool>, k: nat, m: nat, i: nat): (d: nat)
    requires Recoverable(erased, k, m) && i < k
    ensures d < k + m && !erased[d] && (if erased[i] then d >= k else d == i)
  {
    if !erased[i] then i
    else
      StandIns(erased, k, m);
      FlaggedAt(erased, true, 0, i, k);
      Flagged(erased, false, k, k + m)[|Flagged(erased, true, 0, i)|]
  }

  ghost function Front(erased: seq<bool>, k: nat, m: nat): (ids: seq<nat>)
    requires Recoverable(erased, k, m)
    ensures |ids| == k && forall i: nat :: i < k ==> ids[i] == Stand(erased, k, m, i)
  {
    seq(k, i requires 0 <= i < k => Stand(erased, k, m, i))
  }

  ghost function Tail(erased: seq<bool>, k: nat, m: nat): (ids: seq<nat>)
    requires |erased| == k + m
    ensures ids == Flagged(erased, true, 0, k) + Flagged(erased, true, k, k + m)
  {
    FlaggedSplit(erased, true, 0, k, k + m);
    Flagged(erased, true, 0, k + m)
  }

  ghost function RowIds(erased: seq<bool>, k: nat, m: nat): (ids: seq<nat>)
    requires Recoverable(erased, k, m)
    ensures |ids| == k + |Tail(erased, k, m)| <= k + m
    ensures forall p :: 0 <= p < |ids| ==> ids[p] < k + m
  {
    assert forall p :: 0 <= p < k ==> Front(erased, k, m)[p] == Stand(erased, k, m, p);
    Front(erased, k, m) + Tail(erased, k, m)
  }

  /** Different lost devices have different stand-ins. */
  lemma StandDistinct(erased: seq<bool>, k: nat, m: nat, i: nat, j: nat)
    requires Recoverable(erased, k, m) && i < j < k
    ensures Stand(erased, k, m, i) != Stand(erased, k, m, j)
  {
    if erased[i] && erased[j] {
      StandIns(erased, k, m);
      FlaggedAt(erased, true, 0, i, j);
      FlaggedAt(erased, true, 0, j, k);
    }
  }

  lemma RowIdsDistinct(erased: seq<bool>, k: nat, m: nat)
    requires Recoverable(erased, k, m)
    ensures Distinct(RowIds(erased, k, m))
  {
    var ids := RowIds(erased, k, m);
    forall p, q | 0 <= p < q < |ids| ensures ids[p] != ids[q] {
      if q < k {
        StandDistinct(erased, k, m, p, q);
      } else if p < k {
        assert ids[p] == Stand(erased, k, m, p);
      }
    }
  }

  /** Every lost device has a place behind the survivors. */
  lemma LostHasPlace(erased: seq<bool>, k: nat, m: nat, d: nat)
    requires Recoverable(erased, k, m) && d < k + m && erased[d]
    ensures d in RowIds(erased, k, m)
  {
    FlaggedAt(erased, true, 0, d, k + m);
    var x := |Flagged(erased, true, 0, d)|;
    assert RowIds(erased, k, m)[k + x] == d;
  }

  // ----- counting the two kinds of losses

  /** The entries below `k` in the erasure list. */
  function DataErasures(erasures: seq<nat>, k: nat, n: nat): nat
    requires n <= |erasures|
  {
    if n == 0 then 0 else DataErasures(erasures, k, n - 1) + if erasures[n - 1] < k then 1 else 0
  }

  lemma {:induction false} BelowCount(erasures: seq<nat>, k: nat, n: nat)
    requires n <= |erasures| && Distinct(erasures)
    ensures DataErasures(erasures, k, n) == |Below(Members(erasures[..n]), k)|
  {
    if n == 0 {
      assert Below(Members(erasures[..0]), k) == {};
    } else {
      BelowCount(erasures, k, n - 1);
      var d := erasures[n - 1];
      assert erasures[..n] == erasures[..n - 1] + [d];
      if d < k {
        assert Below(Members(erasures[..n]), k) == Below(Members(erasures[..n - 1]), k) + {d};
      } else {
        assert Below(Members(erasures[..n]), k) == Below(Members(erasures[..n - 1]), k);
      }
    }
  }

  /** Without repetitions the two counters are the numbers of lost data and coding devices. */
  lemma CountsAreLosses(erasures: seq<nat>, k: nat, m: nat)
    requires Distinct(erasures) && forall i :: 0 <= i < |erasures| ==> erasures[i] < k + m
    ensures var e := Flags(erasures, k + m);
      && DataErasures(erasures, k, |erasures|) == |Flagged(e, true, 0, k)|
      && |erasures| - DataErasures(erasures, k, |erasures|) == |Flagged(e, true, k, k + m)|
      && |erasures| == |Tail(e, k, m)|
  {
    hide Flags, Flagged, DataErasures;
    var e := Flags(erasures, k + m);
    LostData(erasures, k, m);
    FlaggedMembers(erasures, k + m);
    DistinctMembers(erasures);
    FlaggedSplit(e, true, 0, k, k + m);
  }

  lemma LostData(erasures: seq<nat>, k: nat, m: nat)
    requires Distinct(erasures) && forall i :: 0 <= i < |erasures| ==> erasures[i] < k + m
    ensures DataErasures(erasures, k, |erasures|) == |Flagged(Flags(erasures, k + m), true, 0, k)|
  {
    hide Flagged, DataErasures;
    var e := Flags(erasures, k + m);
    BelowCount(erasures, k, |erasures|);
    assert erasures[..|erasures|] == erasures;
    var lost := Flagged(e, true, 0, k);
    forall d: nat | d in erasures && d < k ensures d in lost { FlaggedAt(e, true, 0, d, k); }
    assert Members(lost) == Below(Members(erasures), k);
    DistinctMembers(lost);
  }

  /** `ddf` and `cdf`. */
  method CountLosses(erasures: seq<nat>, k: nat) returns (ddf: nat, cdf: nat)
    ensures ddf == DataErasures(erasures, k, |erasures|) && ddf + cdf == |erasures|
  {
    ddf, cdf := 0, 0;
    var i: nat := 0;
    while i < |erasures|
      invariant i <= |erasures| && ddf == DataErasures(erasures, k, i) && ddf + cdf == i
    {
      if erasures[i] < k { ddf := ddf + 1; } else { cdf := cdf + 1; }
      i := i + 1;
    }
  }

  // ----- the arrays

  /** `ind_to_row` inverts `row_ids`. */
  ghost predicate Inverse(rowIds: seq<nat>, indToRow: seq<nat>) {
    forall p :: 0 <= p < |rowIds| ==> rowIds[p] < |indToRow| && indToRow[rowIds[p]] == p
  }

  /** `row_ids` before place `i`: survivors in front, the lost data devices so far behind. */
  ghost predicate PlacedData(e: seq<bool>, k: nat, m: nat, rowIds: seq<nat>, indToRow: seq<nat>, i: nat, j: nat, x: nat) {
    && Recoverable(e, k, m) && |rowIds| == |indToRow| == k + m && i <= k <= j <= k + m
    && x == k + |Flagged(e, true, 0, i)| <= k + m
    && |Flagged(e, false, k, j)| == |Flagged(e, true, 0, i)|
    && (forall p: nat :: p < i ==> rowIds[p] == Stand(e, k, m, p) && indToRow[rowIds[p]] == p)
    && (forall p: nat :: k <= p < x ==> rowIds[p] == Flagged(e, true, 0, i)[p - k] && indToRow[rowIds[p]] == p)
  }

  lemma PlaceAlive(e: seq<bool>, k: nat, m: nat, r: seq<nat>, t: seq<nat>, i: nat, j: nat, x: nat)
    requires PlacedData(e, k, m, r, t, i, j, x) && i < k && !e[i]
    ensures PlacedData(e, k, m, r[i := i], t[i := i], i + 1, j, x)
  {
    forall p: nat | p < i ensures r[p] != i { assert r[p] == Stand(e, k, m, p); }
  }

  /** The counters, and who stands in for the lost device `i`. */
  lemma PlaceLostCounts(e: seq<bool>, k: nat, m: nat, r: seq<nat>, t: seq<nat>, i: nat, j: nat, x: nat)
    requires PlacedData(e, k, m, r, t, i, j, x) && i < k && e[i] && j < k + m && !e[j]
    ensures x < k + m && Stand(e, k, m, i) == j && |e| == k + m
    ensures Flagged(e, true, 0, i + 1) == Flagged(e, true, 0, i) + [i]
    ensures |Flagged(e, false, k, j + 1)| == |Flagged(e, true, 0, i + 1)|
  {
    StandIns(e, k, m);
    FlaggedAt(e, true, 0, i, k);
    FlaggedAt(e, false, k, j, k + m);
    FlaggedSplit(e, true, 0, k, k + m);
    FlaggedNext(e, true, 0, i);
    FlaggedNext(e, false, k, j);
  }

  lemma PlaceLost(e: seq<bool>, k: nat, m: nat, r: seq<nat>, t: seq<nat>, i: nat, j: nat, x: nat)
    requires PlacedData(e, k, m, r, t, i, j, x) && i < k && e[i] && j < k + m && !e[j]
    ensures x < k + m && PlacedData(e, k, m, r[i := j][x := i], t[j := i][i := x], i + 1, j + 1, x + 1)
  {
    PlaceLostCounts(e, k, m, r, t, i, j, x);
    forall p: nat | p < i ensures r[p] != j && r[p] != i {
      assert r[p] == Stand(e, k, m, p);
      StandDistinct(e, k, m, p, i);
    }
    PlaceLostBehind(e, k, m, r, t, i, j, x, r[i := j][x := i], t[j := i][i := x]);
    hide Flagged, Stand;
  }

  lemma PlaceLostBehind(e: seq<bool>, k: nat, m: nat, r: seq<nat>, t: seq<nat>, i: nat, j: nat, x: nat, r': seq<nat>, t': seq<nat>)
    requires PlacedData(e, k, m, r, t, i, j, x) && i < k && e[i] && j < k + m && !e[j] && x < k + m
    requires Flagged(e, true, 0, i + 1) == Flagged(e, true, 0, i) + [i]
    requires r' == r[i := j][x := i] && t' == t[j := i][i := x]
    ensures forall p: nat :: k <= p < x + 1 ==> r'[p] == Flagged(e, true, 0, i + 1)[p - k] && t'[r'[p]] == p
  {
    hide Flagged, Stand;
    var lost, lost' := Flagged(e, true, 0, i), Flagged(e, true, 0, i + 1);
    forall p: nat | k <= p < x + 1 ensures r'[p] == lost'[p - k] && t'[r'[p]] == p {
      if p < x { assert r[p] == lost[p - k] && lost'[p - k] == lost[p - k]; }
    }
  }

  /** There is still a living coding device behind `j`. */
  lemma NextStandIn(e: seq<bool>, k: nat, m: nat, r: seq<nat>, t: seq<nat>, i: nat, j: nat, x: nat)
    requires PlacedData(e, k, m, r, t, i, j, x) && i < k && e[i]
    ensures j < k + m && (e[j] ==> PlacedData(e, k, m, r, t, i, j + 1, x))
  {
    StandIns(e, k, m);
    FlaggedAt(e, true, 0, i, k);
  }

  /** After the data devices: the lost coding devices below `i` are placed too. */
  ghost predicate PlacedCoding(e: seq<bool>, k: nat, m: nat, rowIds: seq<nat>, indToRow: seq<nat>, i: nat, x: nat) {
    && Recoverable(e, k, m) && |rowIds| == |indToRow| == k + m && k <= i <= k + m
    && x == k + |Flagged(e, true, 0, i)| <= k + m
    && (forall p: nat :: p < k ==> rowIds[p] == Stand(e, k, m, p) && indToRow[rowIds[p]] == p)
    && (forall p: nat :: k <= p < x ==> rowIds[p] == Flagged(e, true, 0, i)[p - k] && indToRow[rowIds[p]] == p)
  }

  lemma PlaceCoding(e: seq<bool>, k: nat, m: nat, r: seq<nat>, t: seq<nat>, i: nat, x: nat)
    requires PlacedCoding(e, k, m, r, t, i, x) && i < k + m
    ensures e[i] ==> x < k + m && PlacedCoding(e, k, m, r[x := i], t[i := x], i + 1, x + 1)
    ensures !e[i] ==> PlacedCoding(e, k, m, r, t, i + 1, x)
  {
    FlaggedNext(e, true, 0, i);
    if e[i] { PlaceCodingLost(e, k, m, r, t, i, x); }
    hide Flagged, Stand;
  }

  lemma PlaceCodingLost(e: seq<bool>, k: nat, m: nat, r: seq<nat>, t: seq<nat>, i: nat, x: nat)
    requires PlacedCoding(e, k, m, r, t, i, x) && i < k + m && e[i]
    ensures x < k + m && PlacedCoding(e, k, m, r[x := i], t[i := x], i + 1, x + 1)
  {
    hide Flagged, Stand;
    FlaggedNext(e, true, 0, i);
    FlaggedAt(e, true, 0, i, k + m);
    forall p: nat | p < k ensures r[p] != i { assert r[p] == Stand(e, k, m, p); }
    PlaceCodingBehind(e, k, m, r, t, i, x, r[x := i], t[i := x]);
  }

  lemma PlaceCodingBehind(e: seq<bool>, k: nat, m: nat, r: seq<nat>, t: seq<nat>, i: nat, x: nat, r': seq<nat>, t': seq<nat>)
    requires PlacedCoding(e, k, m, r, t, i, x) && i < k + m && e[i] && x < k + m
    requires Flagged(e, true, 0, i + 1) == Flagged(e, true, 0, i) + [i]
    requires r' == r[x := i] && t' == t[i := x]
    ensures forall p: nat :: k <= p < x + 1 ==> r'[p] == Flagged(e, true, 0, i + 1)[p - k] && t'[r'[p]] == p
  {
    hide Flagged, Stand;
    var lost, lost' := Flagged(e, true, 0, i), Flagged(e, true, 0, i + 1);
    forall p: nat | k <= p < x + 1 ensures r'[p] == lost'[p - k] && t'[r'[p]] == p {
      if p < x { assert r[p] == lost[p - k] && lost'[p - k] == lost[p - k]; }
    }
  }

  lemma Placed(e: seq<bool>, k: nat, m: nat, r: seq<nat>, t: seq<nat>, x: nat)
    requires PlacedCoding(e, k, m, r, t, k + m, x)
    ensures x == |RowIds(e, k, m)| && r[..x] == RowIds(e, k, m) && Inverse(r[..x], t)
  {
    forall p: nat | p < x ensures r[..x][p] == RowIds(e, k, m)[p] && t[r[..x][p]] == p {
      if p < k { assert r[p] == Stand(e, k, m, p); }
    }
  }

  method SetUpIds(k: nat, m: nat, erasures: seq<nat>) returns (ok: bool, rowIds: array<nat>, indToRow: array<nat>)
    requires forall i :: 0 <= i < |erasures| ==> erasures[i] < k + m
    ensures fresh(rowIds) && fresh(indToRow)
    ensures ok <==> |Members(erasures)| <= m
    ensures ok ==> Recoverable(Flags(erasures, k + m), k, m)
    ensures ok ==> |RowIds(Flags(erasures, k + m), k, m)| <= rowIds.Length == indToRow.Length == k + m
    ensures ok ==> rowIds[..|RowIds(Flags(erasures, k + m), k, m)|] == RowIds(Flags(erasures, k + m), k, m)
    ensures ok ==> Inverse(RowIds(Flags(erasures, k + m), k, m), indToRow[..])
  {
    rowIds, indToRow := new nat[k + m], new nat[k + m];
    var erased := ErasuresToErased(k, m, erasures);
    FlaggedMembers(erasures, k + m);
    if erased == null { return false, rowIds, indToRow; }
    ok := true;
    ghost var e := Flags(erasures, k + m);
    assert erased[..] == e;
    StartPlacing(e, k, m, rowIds[..], indToRow[..]);
    var j, x := PlaceDataDevices(k, m, erased, rowIds, indToRow);
    StartCoding(e, k, m, rowIds[..], indToRow[..], j, x);
    x := PlaceCodingDevices(k, m, erased, rowIds, indToRow, x);
    Placed(e, k, m, rowIds[..], indToRow[..], x);
  }

  /** The inner loop of `PlaceDataDevices`: on to the next living coding device. */
  method SkipLost(k: nat, m: nat, erased: array<bool>, ghost r: seq<nat>, ghost t: seq<nat>, ghost i: nat, j0: nat, ghost x: nat) returns (j: nat)
    requires PlacedData(erased[..], k, m, r, t, i, j0, x) && i < k && erased.Length == k + m && erased[i]
    ensures j < k + m && !erased[j] && PlacedData(erased[..], k, m, r, t, i, j, x)
  {
    hide PlacedData;
    j := j0;
    NextStandIn(erased[..], k, m, r, t, i, j, x);
    while erased[j]
      invariant j < k + m && PlacedData(erased[..], k, m, r, t, i, j, x)
      decreases k + m - j
    {
      NextStandIn(erased[..], k, m, r, t, i, j, x);
      NextStandIn(erased[..], k, m, r, t, i, j + 1, x);
      j := j + 1;
    }
  }

  /** The loop over the data devices. */
  method PlaceDataDevices(k: nat, m: nat, erased: array<bool>, rowIds: array<nat>, indToRow: array<nat>) returns (j: nat, x: nat)
    requires rowIds != indToRow && PlacedData(erased[..], k, m, rowIds[..], indToRow[..], 0, k, k)
    modifies rowIds, indToRow
    ensures PlacedData(erased[..], k, m, rowIds[..], indToRow[..], k, j, x)
  {
    ghost var e := erased[..];
    assert |e| == k + m == rowIds.Length == indToRow.Length;
    hide PlacedData;
    j, x := k, k;
    var i: nat := 0;
    while i < k
      invariant i <= k && PlacedData(e, k, m, rowIds[..], indToRow[..], i, j, x)
    {
      if !erased[i] {
        PlaceAlive(e, k, m, rowIds[..], indToRow[..], i, j, x);
        rowIds[i] := i;
        indToRow[i] := i;
      } else {
        j := SkipLost(k, m, erased, rowIds[..], indToRow[..], i, j, x);
        PlaceLost(e, k, m, rowIds[..], indToRow[..], i, j, x);
        rowIds[i] := j;
        indToRow[j] := i;
        j := j + 1;
        rowIds[x] := i;
        indToRow[i] := x;
        x := x + 1;
      }
      i := i + 1;
    }
  }

  /** The loop over the coding devices. */
  method PlaceCodingDevices(k: nat, m: nat, erased: array<bool>, rowIds: array<nat>, indToRow: array<nat>, x0: nat) returns (x: nat)
    requires rowIds != indToRow && PlacedCoding(erased[..], k, m, rowIds[..], indToRow[..], k, x0)
    modifies rowIds, indToRow
    ensures PlacedCoding(erased[..], k, m, rowIds[..], indToRow[..], k + m, x)
  {
    ghost var e := erased[..];
    assert |e| == k + m == rowIds.Length == indToRow.Length;
    hide PlacedCoding;
    x := x0;
    var i: nat := k;
    while i < k + m
      invariant k <= i <= k + m && PlacedCoding(e, k, m, rowIds[..], indToRow[..], i, x)
    {
      PlaceCoding(e, k, m, rowIds[..], indToRow[..], i, x);
      if erased[i] {
        rowIds[x] := i;
        indToRow[i] := x;
        x := x + 1;
      }
      i := i + 1;
    }
  }

  lemma StartPlacing(e: seq<bool>, k: nat, m: nat, r: seq<nat>, t: seq<nat>)
    requires Recoverable(e, k, m) && |r| == |t| == k + m
    ensures PlacedData(e, k, m, r, t, 0, k, k)
  {
  }

  lemma StartCoding(e: seq<bool>, k: nat, m: nat, r: seq<nat>, t: seq<nat>, j: nat, x: nat)
    requires PlacedData(e, k, m, r, t, k, j, x)
    ensures PlacedCoding(e, k, m, r, t, k, x)
  {
  }
}

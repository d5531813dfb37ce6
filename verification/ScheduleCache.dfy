/** `jerasure_generate_schedule_cache` and `jerasure_schedule_decode_cache`: for two coding devices
    all schedules are made in advance; entry (e1, e2) serves both orders of the two erasures, and
    entry (e, e) the single erasure. */
module ScheduleCache {
  import opened RowMajor
  import opened Survivors
  import opened Erasures
  import opened BitAlgebra
  import opened Schedule
  import opened DeviceStripes
  import opened ScheduleDecode

  /** The entry at row `a`, column `b` decodes the loss of those two devices. */
  ghost predicate Entry(cache: seq<seq<seq<Op>>>, B: seq<BitRow>, k: nat, m: nat, w: nat, a: nat, b: nat)
    requires a < |cache| && b < |cache[a]|
  {
    Decodes(cache[a][b], B, k, m, w, Flags([a, b], k + m))
  }

  ghost predicate Shape(cache: seq<seq<seq<Op>>>, n: nat) {
    |cache| == n + 1 && forall a :: 0 <= a < |cache| ==> |cache[a]| == n
  }

  /** All pairs below `e1`, and the pairs of `e1` with devices below `e2`. */
  ghost predicate FilledTo(cache: seq<seq<seq<Op>>>, B: seq<BitRow>, k: nat, m: nat, w: nat, e1: nat, e2: nat) {
    && Shape(cache, k + m) && e2 <= e1 <= k + m
    && (forall a: nat, b: nat :: a < e1 && b < e1 ==> Entry(cache, B, k, m, w, a, b))
    && (forall b: nat :: b < e2 && e1 < k + m ==> Entry(cache, B, k, m, w, e1, b) && Entry(cache, B, k, m, w, b, e1))
  }

  lemma SameFlags(a: nat, b: nat, n: nat)
    ensures Flags([a, b], n) == Flags([b, a], n) && Flags([a, a], n) == Flags([a], n)
  {
  }

  lemma FillPair(cache: seq<seq<seq<Op>>>, t: seq<seq<seq<Op>>>, B: seq<BitRow>, k: nat, m: nat, w: nat, e1: nat, e2: nat, ops: seq<Op>)
    requires FilledTo(cache, B, k, m, w, e1, e2) && e2 < e1 < k + m
    requires Decodes(ops, B, k, m, w, Flags([e1, e2], k + m))
    requires |cache| > e1 && |cache[e1]| > e2 && |cache[e2]| > e1
    requires t == cache[e1 := cache[e1][e2 := ops]][e2 := cache[e2][e1 := ops]]
    ensures FilledTo(t, B, k, m, w, e1, e2 + 1)
  {
    SameFlags(e1, e2, k + m);
    hide Decodes, Flags;
    forall a: nat, b: nat | a < e1 && b < e1 ensures Entry(t, B, k, m, w, a, b) { assert Entry(cache, B, k, m, w, a, b); }
    forall b: nat | b < e2 + 1 ensures Entry(t, B, k, m, w, e1, b) && Entry(t, B, k, m, w, b, e1) {
      if b < e2 { assert Entry(cache, B, k, m, w, e1, b) && Entry(cache, B, k, m, w, b, e1); }
    }
  }

  lemma FillSingle(cache: seq<seq<seq<Op>>>, B: seq<BitRow>, k: nat, m: nat, w: nat, e1: nat, ops: seq<Op>)
    requires FilledTo(cache, B, k, m, w, e1, e1) && e1 < k + m && Decodes(ops, B, k, m, w, Flags([e1], k + m))
    ensures |cache| > e1 && |cache[e1]| > e1 && FilledTo(cache[e1 := cache[e1][e1 := ops]], B, k, m, w, e1 + 1, 0)
  {
    SameFlags(e1, e1, k + m);
    hide Decodes, Flags;
    var t := cache[e1 := cache[e1][e1 := ops]];
    forall a: nat, b: nat | a < e1 + 1 && b < e1 + 1 ensures Entry(t, B, k, m, w, a, b) {
      if a < e1 && b < e1 { assert Entry(cache, B, k, m, w, a, b); }
      else if a < e1 { assert Entry(cache, B, k, m, w, a, e1); }
      else if b < e1 { assert Entry(cache, B, k, m, w, e1, b); }
    }
  }

  lemma FillStart(cache: seq<seq<seq<Op>>>, B: seq<BitRow>, k: nat, m: nat, w: nat)
    requires Shape(cache, k + m)
    ensures FilledTo(cache, B, k, m, w, 0, 0)
  {
  }

  lemma FillNext(cache: seq<seq<seq<Op>>>, B: seq<BitRow>, k: nat, m: nat, w: nat, e1: nat, a: nat, b: nat)
    requires FilledTo(cache, B, k, m, w, e1, 0) && a < e1 && b < e1
    ensures a < |cache| && b < |cache[a]| && Entry(cache, B, k, m, w, a, b)
  {
  }

  lemma RowsShape(s: seq<seq<Op>>, n: nat)
    requires |s| == Base(n + 1, n)
    ensures Shape(Rows(s, n + 1, n), n)
  {
  }

  /** The table, or null when there are not exactly two coding devices. */
  method GenerateScheduleCache(k: nat, m: nat, w: nat, B: array<bool>, smart: bool) returns (scache: array?<seq<Op>>)
    requires w >= 1 && B.Length == Base(Base(m, w), Base(k, w))
    ensures scache == null <==> m != 2
    ensures scache != null ==> fresh(scache) && scache.Length == Base(k + m + 1, k + m)
    ensures scache != null ==> FilledTo(Rows(scache[..], k + m + 1, k + m), Rows(B[..], Base(m, w), Base(k, w)), k, m, w, k + m, 0)
  {
    hide *;
    if m != 2 { return null; }
    var n := k + m;
    ghost var R: seq<BitRow> := Rows(B[..], Base(m, w), Base(k, w));
    var cache := new seq<Op>[Base(n + 1, n)];
    RowsShape(cache[..], n);
    FillStart(Rows(cache[..], n + 1, n), R, k, m, w);
    var e1: nat := 0;
    while e1 < n
      invariant e1 <= n && FilledTo(Rows(cache[..], n + 1, n), R, k, m, w, e1, 0)
    {
      var ok, ops;
      ghost var D;
      var e2: nat := 0;
      while e2 < e1
        invariant e2 <= e1 && FilledTo(Rows(cache[..], n + 1, n), R, k, m, w, e1, e2)
      {
        PairErasable(e1, e2, n);
        ok, ops, D := GenerateDecodingSchedule(k, m, w, B, [e1, e2], smart);
        ghost var C: seq<seq<seq<Op>>> := Rows(cache[..], n + 1, n);
        RowsShape(cache[..], n);
        ShapeAt(C, n, e1);
        ShapeAt(C, n, e2);
        Put(cache, n + 1, n, e1, e2, Base(e1, n) + e2, ops);
        CellIs(cache, n, e1, e2);
        Put(cache, n + 1, n, e2, e1, Base(e2, n) + e1, cache[CellIndex(n, e1, e2)]);
        FillPair(C, Rows(cache[..], n + 1, n), R, k, m, w, e1, e2, ops);
        e2 := e2 + 1;
      }
      SingleErasable(e1, n);
      ok, ops, D := GenerateDecodingSchedule(k, m, w, B, [e1], smart);
      FillSingle(Rows(cache[..], n + 1, n), R, k, m, w, e1, ops);
      Put(cache, n + 1, n, e1, e1, Base(e1, n) + e1, ops);
      e1 := e1 + 1;
    }
    scache := cache;
  }

  /** `a * n + b`, inside the table. */
  function CellIndex(n: nat, a: nat, b: nat): (i: nat)
    requires a < n && b < n
    ensures i == Base(a, n) + b < Base(n + 1, n)
  {
    BaseBefore(a, n + 1, n);
    Base(a, n) + b
  }

  lemma ShapeAt(C: seq<seq<seq<Op>>>, n: nat, a: nat)
    requires Shape(C, n) && a <= n
    ensures |C| == n + 1 && |C[a]| == n
  {
  }

  lemma PairErasable(a: nat, b: nat, n: nat)
    requires b < a < n
    ensures Erasable([a, b], n) && |[a, b]| == 2 && [a, b] != []
  {
  }

  lemma SingleErasable(a: nat, n: nat)
    requires a < n
    ensures Erasable([a], n) && |[a]| == 1 && [a] != []
  {
  }

  /** `jerasure_schedule_decode_cache`: one or two erasures in either order. */
  method ScheduleDecodeCache(k: nat, m: nat, w: nat, ghost B: seq<BitRow>, scache: array<seq<Op>>, erasures: seq<nat>, stripes: seq<array<nat>>,
      ghost orig: seq<Packets>) returns (r: int)
    requires w >= 1 && m == 2 && Stripes(stripes, Base(k + m, w)) && |orig| == |stripes| && scache.Length == Base(k + m + 1, k + m)
    requires FilledTo(Rows(scache[..], k + m + 1, k + m), B, k, m, w, k + m, 0)
    requires erasures != [] && forall i :: 0 <= i < |erasures| ==> erasures[i] < k + m
    modifies stripes
    ensures r == if |erasures| <= 2 then 0 else -1
    ensures r == -1 ==> forall t :: 0 <= t < |stripes| ==> stripes[t][..] == old(stripes[t][..])
    ensures forall t :: 0 <= t < |stripes| && Damaged(old(stripes[t][..]), orig[t], B, k, m, w, Flags(erasures, k + m)) && |erasures| <= 2 ==>
      stripes[t][..] == orig[t]
  {
    hide Base, Rows, FilledTo, Damaged, Decodes, Flags, BitAlgebra.BitMatrix;
    var n := k + m;
    ghost var C: seq<seq<seq<Op>>> := Rows(scache[..], n + 1, n);
    var index: nat;
    if |erasures| == 1 {
      assert erasures == [erasures[0]];
      SameFlags(erasures[0], erasures[0], n);
      FillNext(C, B, k, m, w, n, erasures[0], erasures[0]);
      index := CellIndex(n, erasures[0], erasures[0]);
      assert scache[index] == C[erasures[0]][erasures[0]] by { CellIs(scache, n, erasures[0], erasures[0]); }
    } else if |erasures| == 2 {
      assert erasures == [erasures[0], erasures[1]];
      FillNext(C, B, k, m, w, n, erasures[0], erasures[1]);
      index := CellIndex(n, erasures[0], erasures[1]);
      assert scache[index] == C[erasures[0]][erasures[1]] by { CellIs(scache, n, erasures[0], erasures[1]); }
    } else {
      return -1;
    }
    FewMembers(erasures);
    var ok := RunOnPointers(k, m, w, scache[index], erasures, stripes, B, orig);
    r := 0;
  }

  lemma CellIs(cache: array<seq<Op>>, n: nat, a: nat, b: nat)
    requires cache.Length == Base(n + 1, n) && a < n && b < n
    ensures cache[CellIndex(n, a, b)] == Rows(cache[..], n + 1, n)[a][b]
  {
    BaseBefore(a, n + 1, n);
    assert RowOf(cache[..], n + 1, n, a)[b] == cache[Base(a, n) + b];
  }

  lemma FewMembers(erasures: seq<nat>)
    requires 1 <= |erasures| <= 2
    ensures |Members(erasures)| <= 2
  {
    if |erasures| == 1 {
      assert Members(erasures) == {erasures[0]};
    } else {
      assert Members(erasures) == {erasures[0], erasures[1]};
    }
  }
}

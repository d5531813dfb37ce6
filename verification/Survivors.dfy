/** Which rows of the distribution matrix [I; C] the surviving devices stand for. */
module Survivors {
  import opened Galois
  import opened LinearAlgebra
  import opened Elimination

  function UnitRow(k: nat, p: nat): (u: Row)
    ensures |u| == k && forall j :: 0 <= j < k ==> u[j] == if j == p then 1 else 0
  {
    seq(k, j => if j == p then 1 else 0)
  }

  /** Row of device `id`: a unit row for data, a coding row for the others. */
  function DeviceRow(C: seq<Row>, k: nat, id: nat): Row
    requires id < k + |C|
  {
    if id < k then UnitRow(k, id) else C[id - k]
  }

  function SurvivorMatrix(C: seq<Row>, k: nat, ids: seq<nat>): (M: seq<Row>)
    requires forall i :: 0 <= i < |ids| ==> ids[i] < k + |C|
    ensures |M| == |ids| && forall i :: 0 <= i < |ids| ==> M[i] == DeviceRow(C, k, ids[i])
  {
    seq(|ids|, i requires 0 <= i < |ids| => DeviceRow(C, k, ids[i]))
  }

  predicate Distinct(ids: seq<nat>) { forall i, j :: 0 <= i < j < |ids| ==> ids[i] != ids[j] }

  lemma SurvivorMatrixElements(F: Field, C: seq<Row>, k: nat, m: nat, ids: seq<nat>)
    requires F.w >= 1 && Matrix(F, C, m, k) && forall i :: 0 <= i < |ids| ==> ids[i] < k + m
    ensures Matrix(F, SurvivorMatrix(C, k, ids), |ids|, k)
  {
    forall i | 0 <= i < |ids| ensures Vec(F, DeviceRow(C, k, ids[i]), k) {
      if ids[i] < k { OneEl(F); } else { assert Vec(F, C[ids[i] - k], k); }
    }
  }

  /** The columns below `n` whose devices are lost. */
  function Lost(ids: seq<nat>, n: nat): (lost: seq<nat>)
    ensures Distinct(lost) && forall j :: 0 <= j < |lost| ==> lost[j] < n && lost[j] !in ids
  {
    if n == 0 then [] else if n - 1 in ids then Lost(ids, n - 1) else Lost(ids, n - 1) + [n - 1]
  }

  lemma {:induction false} LostComplete(ids: seq<nat>, n: nat, c: nat)
    requires c < n && c !in ids
    ensures exists j :: 0 <= j < |Lost(ids, n)| && Lost(ids, n)[j] == c
  {
    if c == n - 1 {
      assert Lost(ids, n)[|Lost(ids, n - 1)|] == c;
    } else {
      LostComplete(ids, n - 1, c);
      var j :| 0 <= j < |Lost(ids, n - 1)| && Lost(ids, n - 1)[j] == c;
      assert Lost(ids, n)[j] == c;
    }
  }

  // ----- counting: as many coding devices survive as data devices are lost

  ghost function Members(ids: seq<nat>): set<nat> { set i | i in ids }

  lemma {:induction false} DistinctMembers(ids: seq<nat>)
    requires Distinct(ids)
    ensures |Members(ids)| == |ids|
  {
    if ids != [] {
      var n := |ids| - 1;
      DistinctMembers(ids[..n]);
      assert ids == ids[..n] + [ids[n]];
      assert Members(ids) == Members(ids[..n]) + {ids[n]};
    }
  }

  ghost function Below(s: set<nat>, n: nat): set<nat> { set i | i in s && i < n }

  lemma {:induction false} LostCount(ids: seq<nat>, n: nat)
    ensures |Lost(ids, n)| + |Below(Members(ids), n)| == n
  {
    if n == 0 {
      assert Below(Members(ids), 0) == {};
    } else {
      LostCount(ids, n - 1);
      var b := Below(Members(ids), n - 1);
      if n - 1 in ids {
        assert Below(Members(ids), n) == b + {n - 1};
      } else {
        assert Below(Members(ids), n) == b;
      }
    }
  }

  /** The coding rows among the survivors. */
  ghost function CodingRows(s: set<nat>, k: nat): (rows: set<nat>)
    ensures forall r: nat :: r in rows <==> r + k in s
  {
    var rows: set<nat> := set i | i in s && i >= k :: (i - k) as nat;
    assert forall r: nat :: r + k in s ==> r in rows by {
      forall r: nat | r + k in s ensures r in rows {
        var i := r + k;
        assert i in s && i >= k && (i - k) as nat == r;
      }
    }
    rows
  }

  lemma {:induction false} CodingCount(s: set<nat>, k: nat)
    ensures |CodingRows(s, k)| + |Below(s, k)| == |s|
  {
    if s == {} {
      assert CodingRows(s, k) == {} && Below(s, k) == {};
    } else {
      var i :| i in s;
      CodingCount(s - {i}, k);
      CodingCountStep(s, k, i);
    }
  }

  lemma CodingCountStep(s: set<nat>, k: nat, i: nat)
    requires i in s
    ensures i < k ==> CodingRows(s, k) == CodingRows(s - {i}, k) && Below(s, k) == Below(s - {i}, k) + {i}
    ensures i >= k ==> CodingRows(s, k) == CodingRows(s - {i}, k) + {i - k} && Below(s, k) == Below(s - {i}, k)
    ensures i >= k ==> i - k !in CodingRows(s - {i}, k)
  {
  }
}

/** The ESets of the placement groups, the place every server remembers, and the enumeration of the
    ESets that a failed server belongs to. */
module Placement {
  import opened Bits
  import opened RowMajor
  import opened PlacementDesign

  /** A server, named by its rack and its number there. */
  datatype Node = Node(rackId: nat, serverIdInRack: nat)

  datatype ESetNode = ESetNode(server: Node, row: nat, col: nat, failed: bool)

  datatype ESet = ESet(esetId: nat, nodes: seq<ESetNode>, recovering: bool)

  datatype Place = Place(groupId: nat, row: nat, col: nat)

  /** `rows` rows of `c` servers. */
  type Group = seq<seq<Node>>

  ghost predicate Shape(g: Group, rows: nat, c: nat) {
    |g| == rows && forall r :: 0 <= r < rows ==> |g[r]| == c
  }

  ghost predicate Groups(groups: seq<Group>, rows: nat, c: nat) {
    c >= 1 && forall g :: 0 <= g < |groups| ==> Shape(groups[g], rows, c)
  }

  ghost predicate InGroups(groups: seq<Group>, rows: nat, c: nat, p: Place) {
    p.groupId < |groups| && p.row < rows && p.col < c
  }

  ghost function ServerAt(groups: seq<Group>, rows: nat, c: nat, p: Place): Node
    requires Groups(groups, rows, c) && InGroups(groups, rows, c, p)
  {
    groups[p.groupId][p.row][p.col]
  }

  /** No server has two places. */
  ghost predicate DistinctServers(groups: seq<Group>, rows: nat, c: nat)
    requires Groups(groups, rows, c)
  {
    forall p, q :: InGroups(groups, rows, c, p) && InGroups(groups, rows, c, q) && p != q ==>
      ServerAt(groups, rows, c, p) != ServerAt(groups, rows, c, q)
  }

  // ----- creating the ESets

  /** ESet number `s` of a group. */
  function NewESet(g: Group, rows: nat, c: nat, start: nat, s: nat): (e: ESet)
    requires c >= 1 && s < c * c && |g| == rows && forall r :: 0 <= r < rows ==> |g[r]| == c
    ensures |e.nodes| == rows && e.esetId == start + s && !e.recovering
    ensures forall r: nat :: r < rows ==> NewNode(g, rows, c, s, e.nodes[r], r)
  {
    ESet(start + s, seq(rows, r requires 0 <= r < rows =>
      (ColInRange(c, r, s); ESetNode(g[r][ColAt(c, r, s)], r, ColAt(c, r, s), false))), false)
  }

  /** The node of row `r`. */
  predicate NewNode(g: Group, rows: nat, c: nat, s: nat, e: ESetNode, r: nat)
    requires c >= 1 && s < c * c && |g| == rows && r < rows && forall r :: 0 <= r < rows ==> |g[r]| == c
  {
    ColInRange(c, r, s);
    e == ESetNode(g[r][ColAt(c, r, s)], r, ColAt(c, r, s), false)
  }

  /** The nodes of one ESet, row by row. */
  method CreateNodes(g: Group, rows: nat, c: nat, s: nat) returns (nodes: seq<ESetNode>)
    requires Shape(g, rows, c) && c >= 1 && s < c * c
    ensures nodes == NewESet(g, rows, c, 0, s).nodes
  {
    nodes := [];
    var r: nat := 0;
    while r < rows
      invariant r <= rows && |nodes| == r && forall x :: 0 <= x < r ==> nodes[x] == NewESet(g, rows, c, 0, s).nodes[x]
    {
      ColInRange(c, r, s);
      var col;
      if r == 0 {
        col := s / c;
      } else {
        col := ((s / c) * (r - 1) + s) % c;
      }
      assert NewNode(g, rows, c, s, NewESet(g, rows, c, 0, s).nodes[r], r);
      nodes := nodes + [ESetNode(g[r][col], r, col, false)];
      r := r + 1;
    }
  }

  ghost predicate GroupDone(eSets: seq<ESet>, g: Group, rows: nat, c: nat, start: nat, n: nat)
    requires Shape(g, rows, c) && c >= 1 && n <= c * c
  {
    start + n <= |eSets| && forall i :: start <= i < start + n ==> eSets[i] == NewESet(g, rows, c, start, i - start)
  }

  method CreateGroupESets(g: Group, rows: nat, c: nat, start: nat, eSets: array<ESet>)
    requires Shape(g, rows, c) && c >= 1 && start + c * c <= eSets.Length
    modifies eSets
    ensures GroupDone(eSets[..], g, rows, c, start, c * c)
    ensures forall i :: 0 <= i < eSets.Length && !(start <= i < start + c * c) ==> eSets[i] == old(eSets[i])
  {
    hide NewESet, Shape;
    ghost var n := c * c;
    var s: nat := 0;
    while s < c * c
      invariant s <= n == c * c && GroupDone(eSets[..], g, rows, c, start, s)
      invariant forall i :: 0 <= i < eSets.Length && !(start <= i < start + s) ==> eSets[i] == old(eSets[i])
    {
      var nodes := CreateNodes(g, rows, c, s);
      SameNodes(g, rows, c, start, s, nodes);
      eSets[start + s] := ESet(start + s, nodes, false);
      s := s + 1;
    }
  }

  lemma SameNodes(g: Group, rows: nat, c: nat, start: nat, s: nat, nodes: seq<ESetNode>)
    requires Shape(g, rows, c) && c >= 1 && s < c * c && nodes == NewESet(g, rows, c, 0, s).nodes
    ensures ESet(start + s, nodes, false) == NewESet(g, rows, c, start, s)
  {
  }

  ghost predicate AllDone(eSets: seq<ESet>, groups: seq<Group>, rows: nat, c: nat, n: nat) {
    Groups(groups, rows, c) && n <= |groups| && forall g: nat :: g < n ==> GroupDone(eSets, groups[g], rows, c, Base(g, c * c), c * c)
  }

  method CreateESets(groups: seq<Group>, rows: nat, c: nat, eSets: array<ESet>)
    requires Groups(groups, rows, c) && eSets.Length == Base(|groups|, c * c)
    modifies eSets
    ensures AllDone(eSets[..], groups, rows, c, |groups|)
  {
    hide Base, NewESet, Shape;
    var g: nat := 0;
    while g < |groups|
      invariant g <= |groups| && AllDone(eSets[..], groups, rows, c, g)
    {
      ghost var was := eSets[..];
      BaseBefore(g, |groups|, c * c);
      CreateGroupESets(groups[g], rows, c, Base(g, c * c), eSets);
      forall h: nat | h < g ensures GroupDone(eSets[..], groups[h], rows, c, Base(h, c * c), c * c) {
        assert GroupDone(was, groups[h], rows, c, Base(h, c * c), c * c);
        BaseBefore(h, g, c * c);
      }
      g := g + 1;
    }
  }

  // ----- every server remembers its place

  predicate Earlier(p: Place, g: nat, r: nat, col: nat) {
    p.groupId < g || (p.groupId == g && (p.row < r || (p.row == r && p.col < col)))
  }

  /** Every server of the groups has an entry in the racks. */
  ghost predicate Known(racks: nat, servers: nat, groups: seq<Group>, rows: nat, c: nat)
    requires Groups(groups, rows, c)
  {
    forall p :: InGroups(groups, rows, c, p) ==>
      ServerAt(groups, rows, c, p).rackId < racks && ServerAt(groups, rows, c, p).serverIdInRack < servers
  }

  /** The servers of the places before (g, r, col) know their place. */
  ghost predicate Knows(places: array2<Place>, groups: seq<Group>, rows: nat, c: nat, g: nat, r: nat, col: nat)
    requires Groups(groups, rows, c) && Known(places.Length0, places.Length1, groups, rows, c)
    reads places
  {
    forall p :: InGroups(groups, rows, c, p) && Earlier(p, g, r, col) ==>
      places[ServerAt(groups, rows, c, p).rackId, ServerAt(groups, rows, c, p).serverIdInRack] == p
  }

  /** `setServersPlacementGroup`. */
  method SetServersPlacementGroup(groups: seq<Group>, rows: nat, c: nat, places: array2<Place>)
    requires Groups(groups, rows, c) && DistinctServers(groups, rows, c) && Known(places.Length0, places.Length1, groups, rows, c)
    modifies places
    ensures Knows(places, groups, rows, c, |groups|, 0, 0)
  {
    var g: nat := 0;
    while g < |groups|
      invariant g <= |groups| && Knows(places, groups, rows, c, g, 0, 0)
    {
      var r: nat := 0;
      while r < rows
        invariant r <= rows && Knows(places, groups, rows, c, g, r, 0)
      {
        var col: nat := 0;
        while col < c
          invariant col <= c && Knows(places, groups, rows, c, g, r, col)
        {
          ghost var p := Place(g, r, col);
          assert InGroups(groups, rows, c, p) && ServerAt(groups, rows, c, p) == groups[g][r][col];
          places[groups[g][r][col].rackId, groups[g][r][col].serverIdInRack] := Place(g, r, col);
          col := col + 1;
        }
        r := r + 1;
      }
      g := g + 1;
    }
  }

  // ----- a failed server

  /** What the recovery keeps about one failed server: the ESets to recover, newest first. */
  class FailedServer {
    var eSetsNum: nat
    var pending: seq<nat>

    constructor ()
      ensures eSetsNum == 0 && pending == []
    {
      eSetsNum, pending := 0, [];
    }

    /** Link a new entry in at the head of the list. */
    method Prepend(idx: nat)
      modifies this
      ensures pending == [idx] + old(pending) && eSetsNum == old(eSetsNum) + 1
    {
      pending := [idx] + pending;
      eSetsNum := eSetsNum + 1;
    }
  }

  predicate Descending(list: seq<nat>) { forall i, j :: 0 <= i < j < |list| ==> list[i] > list[j] }

  /** The ESets below `n` of a group that contain (row, col), newest first, counted from `start`. */
  function Affected(c: nat, row: nat, col: nat, start: nat, n: nat): (list: seq<nat>)
    requires c >= 1
    ensures forall i :: 0 <= i < |list| ==> start <= list[i] < start + n && ColAt(c, row, list[i] - start) == col
    ensures Descending(list)
  {
    if n == 0 then []
    else if ColAt(c, row, n - 1) == col then [start + n - 1] + Affected(c, row, col, start, n - 1)
    else Affected(c, row, col, start, n - 1)
  }

  lemma {:induction false} AffectedHas(c: nat, row: nat, col: nat, start: nat, n: nat, s: nat)
    requires c >= 1 && s < n && ColAt(c, row, s) == col
    ensures start + s in Affected(c, row, col, start, n)
  {
    if s < n - 1 { AffectedHas(c, row, col, start, n - 1, s); }
  }

  lemma {:induction false} AffectedSet(c: nat, row: nat, col: nat, start: nat, n: nat)
    requires c >= 1 && n <= c * c
    ensures |Affected(c, row, col, start, n)| == |Part(c, row, col, n)|
  {
    if n == 0 {
      assert Part(c, row, col, 0) == {};
    } else {
      AffectedSet(c, row, col, start, n - 1);
      if ColAt(c, row, n - 1) == col {
        assert Part(c, row, col, n) == Part(c, row, col, n - 1) + {n - 1};
      } else {
        assert Part(c, row, col, n) == Part(c, row, col, n - 1);
      }
    }
  }

  ghost function Part(c: nat, row: nat, col: nat, n: nat): set<nat>
    requires c >= 1
  {
    set s: nat | s < n && ColAt(c, row, s) == col
  }

  /** There are exactly c of them. */
  lemma AffectedCount(c: nat, row: nat, col: nat, start: nat)
    requires c >= 1 && col < c
    ensures |Affected(c, row, col, start, c * c)| == c
  {
    AffectedSet(c, row, col, start, c * c);
    assert Part(c, row, col, c * c) == SetsOf(c, row, col);
    EachServerInExactlyCSets(c, row, col);
  }

  /** In the first row they are the `c` ESets from col * c on. */
  lemma {:induction false} FirstRowAffected(c: nat, col: nat, start: nat, n: nat)
    requires c >= 1 && col < c && n <= c * c
    ensures n <= col * c ==> Affected(c, 0, col, start, n) == []
    ensures col * c <= n < col * c + c ==> Affected(c, 0, col, start, n + 1) == [start + n] + Affected(c, 0, col, start, n)
    ensures col * c + c <= n ==> Affected(c, 0, col, start, n) == Affected(c, 0, col, start, col * c + c)
    decreases n
  {
    if col * c <= n < col * c + c { QuotientIs(n, c, col); }
    if n > 0 {
      FirstRowAffected(c, col, start, n - 1);
      if n - 1 < col * c || col * c + c <= n - 1 { QuotientIsNot(n - 1, c, col); }
    }
  }

  lemma QuotientIs(s: nat, c: nat, col: nat)
    requires c >= 1 && col * c <= s < col * c + c
    ensures s / c == col
  {
    ModUnique(s, c, col, s - col * c);
  }

  lemma QuotientIsNot(s: nat, c: nat, col: nat)
    requires c >= 1 && (s < col * c || col * c + c <= s)
    ensures s / c != col
  {
    assert s == s / c * c + s % c;
  }

  /** The ESet with its node in row `row` marked. */
  function Marked(e: ESet, row: nat): ESet
    requires row < |e.nodes|
  {
    e.(recovering := true, nodes := e.nodes[row := e.nodes[row].(failed := true)])
  }

  /** The listed ESets are being recovered and their nodes in row `row` have failed; all else is as before. */
  ghost predicate MarkedAll(now: seq<ESet>, before: seq<ESet>, list: seq<nat>, row: nat) {
    && |now| == |before| && (forall i :: 0 <= i < |before| ==> row < |before[i].nodes|)
    && forall i: nat :: i < |before| ==> MarkedIf(now[i], before[i], i in list, row)
  }

  ghost predicate MarkedIf(now: ESet, before: ESet, listed: bool, row: nat) {
    && now.esetId == before.esetId && |now.nodes| == |before.nodes| && now.recovering == (listed || before.recovering)
    && forall r: nat :: r < |now.nodes| ==>
         now.nodes[r] == before.nodes[r].(failed := before.nodes[r].failed || (listed && r == row))
  }

  lemma MarkOne(now: seq<ESet>, before: seq<ESet>, list: seq<nat>, row: nat, i: nat)
    requires MarkedAll(now, before, list, row) && i < |now| && i !in list
    ensures row < |now[i].nodes| && MarkedAll(now[i := Marked(now[i], row)], before, [i] + list, row)
  {
    assert MarkedIf(now[i], before[i], false, row);
    assert MarkedIf(Marked(now[i], row), before[i], true, row);
  }

  /** After looking at the first `n` ESets of the group. */
  ghost predicate Looked(now: seq<ESet>, before: seq<ESet>, pending: seq<nat>, num: nat, c: nat, row: nat, col: nat, start: nat, n: nat)
    requires c >= 1
  {
    pending == Affected(c, row, col, start, n) && num == |pending| && MarkedAll(now, before, pending, row)
  }

  lemma LookedAt(now: seq<ESet>, before: seq<ESet>, pending: seq<nat>, num: nat, c: nat, row: nat, col: nat, start: nat, n: nat)
    requires c >= 1 && Looked(now, before, pending, num, c, row, col, start, n) && start + n < |now|
    ensures ColAt(c, row, n) != col ==> Looked(now, before, pending, num, c, row, col, start, n + 1)
    ensures row < |now[start + n].nodes|
    ensures ColAt(c, row, n) == col ==>
      Looked(now[start + n := Marked(now[start + n], row)], before, [start + n] + pending, num + 1, c, row, col, start, n + 1)
  {
    hide ColAt, Marked;
    assert MarkedIf(now[start + n], before[start + n], start + n in pending, row);
    hide MarkedIf;
    if ColAt(c, row, n) == col { MarkOne(now, before, pending, row, start + n); }
  }

  lemma LookedPast(now: seq<ESet>, before: seq<ESet>, pending: seq<nat>, num: nat, c: nat, col: nat, start: nat, n: nat, n': nat)
    requires c >= 1 && Looked(now, before, pending, num, c, 0, col, start, n)
    requires Affected(c, 0, col, start, n) == Affected(c, 0, col, start, n')
    ensures Looked(now, before, pending, num, c, 0, col, start, n')
  {
  }

  /** `addFailedESets`. */
  method AddFailedESets(place: Place, c: nat, eSets: array<ESet>, failed: FailedServer)
    requires c >= 1 && place.col < c && Base(place.groupId, c * c) + c * c <= eSets.Length
    requires failed.eSetsNum == 0 && failed.pending == [] && forall i :: 0 <= i < eSets.Length ==> place.row < |eSets[i].nodes|
    modifies eSets, failed
    ensures failed.pending == Affected(c, place.row, place.col, Base(place.groupId, c * c), c * c)
    ensures failed.eSetsNum == |failed.pending| == c && Descending(failed.pending)
    ensures MarkedAll(eSets[..], old(eSets[..]), failed.pending, place.row)
    ensures forall i: nat :: i < eSets.Length ==>
      && eSets[i].esetId == old(eSets[i].esetId) && |eSets[i].nodes| == |old(eSets[i].nodes)|
      && eSets[i].recovering == (i in failed.pending || old(eSets[i].recovering))
    ensures forall i: nat, r: nat :: i < eSets.Length && r < |eSets[i].nodes| ==>
      && eSets[i].nodes[r].server == old(eSets[i].nodes[r].server)
      && eSets[i].nodes[r].row == old(eSets[i].nodes[r].row) && eSets[i].nodes[r].col == old(eSets[i].nodes[r].col)
      && eSets[i].nodes[r].failed == ((i in failed.pending && r == place.row) || old(eSets[i].nodes[r].failed))
  {
    hide Base, ColAt, Marked;
    var start, row, col := Base(place.groupId, c * c), place.row, place.col;
    AffectedCount(c, row, col, start);
    if row == 0 {
      AddFirstRow(c, col, start, eSets, failed);
    } else {
      AddOtherRow(c, row, col, start, eSets, failed);
    }
    MarkedNodes(eSets[..], old(eSets[..]), failed.pending, row);
  }

  lemma MarkedNodes(now: seq<ESet>, before: seq<ESet>, list: seq<nat>, row: nat)
    requires MarkedAll(now, before, list, row)
    ensures forall i: nat :: i < |now| ==> MarkedIf(now[i], before[i], i in list, row)
  {
  }

  method AddFirstRow(c: nat, col: nat, start: nat, eSets: array<ESet>, failed: FailedServer)
    requires c >= 1 && col < c && start + c * c <= eSets.Length
    requires failed.eSetsNum == 0 && failed.pending == [] && forall i :: 0 <= i < eSets.Length ==> 0 < |eSets[i].nodes|
    modifies eSets, failed
    ensures Looked(eSets[..], old(eSets[..]), failed.pending, failed.eSetsNum, c, 0, col, start, c * c)
  {
    hide ColAt, Marked, MarkedIf, Looked, Affected;
    ColumnFits(col, c);
    ghost var first, before := Base(col, c), eSets[..];
    StartLooking(before, c, col, start, first);
    var idx := start + col * c;
    while failed.eSetsNum != c
      invariant start + first <= idx && failed.eSetsNum == idx - start - first <= c
      invariant Looked(eSets[..], before, failed.pending, failed.eSetsNum, c, 0, col, start, idx - start)
      decreases c - failed.eSetsNum
    {
      QuotientIs(idx - start, c, col);
      FirstRowColumn(c, idx - start);
      LookedAt(eSets[..], before, failed.pending, failed.eSetsNum, c, 0, col, start, idx - start);
      eSets[idx] := Marked(eSets[idx], 0);
      failed.Prepend(idx);
      idx := idx + 1;
    }
    FirstRowAffected(c, col, start, c * c);
    LookedPast(eSets[..], before, failed.pending, failed.eSetsNum, c, col, start, idx - start, c * c);
  }

  lemma StartLooking(before: seq<ESet>, c: nat, col: nat, start: nat, n: nat)
    requires c >= 1 && col < c && n == col * c && n <= c * c && forall i :: 0 <= i < |before| ==> 0 < |before[i].nodes|
    ensures Looked(before, before, [], 0, c, 0, col, start, n)
  {
    FirstRowAffected(c, col, start, n);
  }

  lemma FirstRowColumn(c: nat, s: nat)
    requires c >= 1
    ensures ColAt(c, 0, s) == s / c
  {
  }

  method AddOtherRow(c: nat, row: nat, col: nat, start: nat, eSets: array<ESet>, failed: FailedServer)
    requires c >= 1 && row >= 1 && start + c * c <= eSets.Length
    requires failed.eSetsNum == 0 && failed.pending == [] && forall i :: 0 <= i < eSets.Length ==> row < |eSets[i].nodes|
    modifies eSets, failed
    ensures Looked(eSets[..], old(eSets[..]), failed.pending, failed.eSetsNum, c, row, col, start, c * c)
  {
    hide ColAt, Marked;
    ghost var n, before := c * c, eSets[..];
    assert Looked(before, before, [], 0, c, row, col, start, 0);
    var idx: nat := 0;
    while idx < c * c
      invariant idx <= n == c * c && Looked(eSets[..], before, failed.pending, failed.eSetsNum, c, row, col, start, idx)
    {
      hide Looked;
      var modValue := (idx / c) * (row - 1) + idx;
      modValue := modValue % c;
      RowColumn(c, row, idx);
      LookedAt(eSets[..], before, failed.pending, failed.eSetsNum, c, row, col, start, idx);
      if col == modValue {
        eSets[start + idx] := Marked(eSets[start + idx], row);
        failed.Prepend(start + idx);
      }
      idx := idx + 1;
    }
  }

  lemma RowColumn(c: nat, row: nat, s: nat)
    requires c >= 1 && row >= 1
    ensures ColAt(c, row, s) == ((s / c) * (row - 1) + s) % c
  {
  }

  lemma ColumnFits(col: nat, c: nat)
    requires col < c
    ensures col * c + c <= c * c
  {
    LeastProduct(c, col + 1);
    assert (c - col - 1) * c >= 0;
  }

  ghost predicate Contains(e: ESet, n: Node) { exists r :: 0 <= r < |e.nodes| && e.nodes[r].server == n }

  /** Node `r` of a fresh ESet is the server of row `r` in its column, which is server `p` exactly in the
      group and the row of `p` and in the ESets of its column. */
  lemma NodeOf(groups: seq<Group>, rows: nat, c: nat, eSets: seq<ESet>, p: Place, g: nat, s: nat, r: nat)
    requires Groups(groups, rows, c) && DistinctServers(groups, rows, c) && AllDone(eSets, groups, rows, c, |groups|)
    requires InGroups(groups, rows, c, p) && g < |groups| && s < c * c && Base(g, c * c) + s < |eSets| && r < rows
    ensures var e := eSets[Base(g, c * c) + s];
      && |e.nodes| == rows && e.esetId == Base(g, c * c) + s && !e.recovering && !e.nodes[r].failed
      && e.nodes[r].row == r && e.nodes[r].col < c && e.nodes[r].server == groups[g][r][e.nodes[r].col]
      && (e.nodes[r].server == ServerAt(groups, rows, c, p) <==> g == p.groupId && r == p.row && ColAt(c, r, s) == p.col)
  {
    hide Base;
    var i, start := Base(g, c * c) + s, Base(g, c * c);
    assert GroupDone(eSets, groups[g], rows, c, start, c * c);
    assert eSets[i] == NewESet(groups[g], rows, c, start, i - start);
    ColInRange(c, r, s);
    assert NewNode(groups[g], rows, c, s, eSets[i].nodes[r], r);
    assert eSets[i].nodes[r].server == ServerAt(groups, rows, c, Place(g, r, ColAt(c, r, s)));
  }

  /** What the list is for: exactly the ESets that contain the failed server, in all groups. */
  lemma AffectedExactly(groups: seq<Group>, rows: nat, c: nat, eSets: seq<ESet>, p: Place, g: nat, s: nat)
    requires Groups(groups, rows, c) && DistinctServers(groups, rows, c) && AllDone(eSets, groups, rows, c, |groups|)
    requires InGroups(groups, rows, c, p) && g < |groups| && s < c * c && Base(g, c * c) + s < |eSets|
    ensures Contains(eSets[Base(g, c * c) + s], ServerAt(groups, rows, c, p)) <==>
      Base(g, c * c) + s in Affected(c, p.row, p.col, Base(p.groupId, c * c), c * c)
  {
    hide Base, ColAt, AllDone, DistinctServers;
    var i, start := Base(g, c * c) + s, Base(g, c * c);
    NodeOf(groups, rows, c, eSets, p, g, s, p.row);
    forall r: nat | r < rows
      ensures eSets[i].nodes[r].server == ServerAt(groups, rows, c, p) <==> g == p.groupId && r == p.row && ColAt(c, r, s) == p.col
    {
      NodeOf(groups, rows, c, eSets, p, g, s, r);
    }
    if g != p.groupId {
      if g < p.groupId { BaseBefore(g, p.groupId, c * c); } else { BaseBefore(p.groupId, g, c * c); }
    } else if ColAt(c, p.row, s) == p.col {
      AffectedHas(c, p.row, p.col, start, c * c, s);
    }
  }

  /** After one failure in a fresh placement: the failed nodes are those of the failed server, in every
      ESet, and the ESets to recover are those that contain it. */
  lemma FailedExactly(groups: seq<Group>, rows: nat, c: nat, before: seq<ESet>, now: seq<ESet>, p: Place, g: nat, s: nat, r: nat)
    requires Groups(groups, rows, c) && DistinctServers(groups, rows, c) && AllDone(before, groups, rows, c, |groups|)
    requires InGroups(groups, rows, c, p) && g < |groups| && s < c * c && Base(g, c * c) + s < |before| && r < rows
    requires MarkedAll(now, before, Affected(c, p.row, p.col, Base(p.groupId, c * c), c * c), p.row)
    ensures var e := now[Base(g, c * c) + s];
      && |e.nodes| == rows && (e.nodes[r].failed <==> e.nodes[r].server == ServerAt(groups, rows, c, p))
      && (e.recovering <==> Contains(e, ServerAt(groups, rows, c, p)))
  {
    hide Base, ColAt, AllDone, DistinctServers;
    var i, failed := Base(g, c * c) + s, ServerAt(groups, rows, c, p);
    var list := Affected(c, p.row, p.col, Base(p.groupId, c * c), c * c);
    assert MarkedIf(now[i], before[i], i in list, p.row);
    AffectedExactly(groups, rows, c, before, p, g, s);
    NodeOf(groups, rows, c, before, p, g, s, r);
    forall x: nat | x < rows
      ensures !before[i].nodes[x].failed
      ensures before[i].nodes[x].server == now[i].nodes[x].server
      ensures before[i].nodes[x].server == failed <==> g == p.groupId && x == p.row && ColAt(c, x, s) == p.col
    {
      NodeOf(groups, rows, c, before, p, g, s, x);
    }
    assert Contains(before[i], failed) <==> Contains(now[i], failed);
  }
}

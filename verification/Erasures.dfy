/** `jerasure_erasures_to_erased` and the choice of the surviving devices. */
module Erasures {
  import opened FiniteSets
  import opened Survivors

  /** The erasure list, which the C code ends with -1, flags exactly the devices it names; too
      many different devices make the call fail. */
  method ErasuresToErased(k: nat, m: nat, erasures: seq<nat>) returns (erased: array?<bool>)
    requires forall i :: 0 <= i < |erasures| ==> erasures[i] < k + m
    ensures erased == null <==> |Members(erasures)| > m
    ensures erased != null ==> fresh(erased) && erased.Length == k + m
    ensures erased != null ==> forall d: nat :: d < k + m ==> (erased[d] <==> d in erasures)
  {
    var flags := new bool[k + m];
    var i: nat := 0;
    while i < k + m
      invariant i <= k + m && forall d :: 0 <= d < i ==> !flags[d]
    {
      flags[i] := false;
      i := i + 1;
    }
    var nonErased := k + m;
    i := 0;
    while i < |erasures|
      invariant i <= |erasures| && nonErased == k + m - |Members(erasures[..i])| && nonErased >= k
      invariant forall d: nat :: d < k + m ==> (flags[d] <==> d in erasures[..i])
    {
      MembersStep(erasures, i);
      if !flags[erasures[i]] {
        flags[erasures[i]] := true;
        nonErased := nonErased - 1;
        if nonErased < k {
          MembersMono(erasures, i + 1);
          return null;
        }
      }
      i := i + 1;
    }
    assert erasures[..i] == erasures;
    erased := flags;
  }

  lemma MembersStep(s: seq<nat>, i: nat)
    requires i < |s|
    ensures Members(s[..i + 1]) == Members(s[..i]) + {s[i]}
    ensures |Members(s[..i + 1])| == |Members(s[..i])| + if s[i] in s[..i] then 0 else 1
    ensures forall d: nat :: d in s[..i + 1] <==> d in s[..i] || d == s[i]
  {
    assert s[..i + 1] == s[..i] + [s[i]];
    assert Members(s[..i + 1]) == Members(s[..i]) + {s[i]};
    if s[i] in s[..i] { assert Members(s[..i + 1]) == Members(s[..i]); }
  }

  lemma MembersMono(s: seq<nat>, i: nat)
    requires i <= |s|
    ensures |Members(s[..i])| <= |Members(s)|
  {
    SubsetCount(Members(s[..i]), Members(s));
  }

  // ----- the devices with a given flag, in ascending order

  /** The flags `jerasure_erasures_to_erased` sets. */
  function Flags(erasures: seq<nat>, n: nat): (erased: seq<bool>)
    ensures |erased| == n && forall d: nat :: d < n ==> (erased[d] <==> d in erasures)
  {
    seq(n, d requires 0 <= d => (d as nat) in erasures)
  }

  predicate Ascending(ids: seq<nat>) { forall i, j :: 0 <= i < j < |ids| ==> ids[i] < ids[j] }

  /** The devices in lo .. hi-1 whose flag is `flag`, in ascending order. */
  function Flagged(erased: seq<bool>, flag: bool, lo: nat, hi: nat): (ids: seq<nat>)
    requires lo <= hi <= |erased|
    ensures Ascending(ids) && |ids| <= hi - lo
    ensures forall i :: 0 <= i < |ids| ==> lo <= ids[i] < hi && erased[ids[i]] == flag
  {
    if lo == hi then []
    else if erased[hi - 1] == flag then Flagged(erased, flag, lo, hi - 1) + [hi - 1]
    else Flagged(erased, flag, lo, hi - 1)
  }

  lemma {:induction false} FlaggedPrefix(erased: seq<bool>, flag: bool, lo: nat, mid: nat, hi: nat)
    requires lo <= mid <= hi <= |erased|
    ensures |Flagged(erased, flag, lo, mid)| <= |Flagged(erased, flag, lo, hi)|
    ensures Flagged(erased, flag, lo, mid) == Flagged(erased, flag, lo, hi)[..|Flagged(erased, flag, lo, mid)|]
  {
    if mid < hi { FlaggedPrefix(erased, flag, lo, mid, hi - 1); }
  }

  lemma {:induction false} FlaggedSplit(erased: seq<bool>, flag: bool, lo: nat, mid: nat, hi: nat)
    requires lo <= mid <= hi <= |erased|
    ensures Flagged(erased, flag, lo, hi) == Flagged(erased, flag, lo, mid) + Flagged(erased, flag, mid, hi)
  {
    if mid < hi {
      FlaggedSplit(erased, flag, lo, mid, hi - 1);
    }
  }

  lemma {:induction false} FlaggedBoth(erased: seq<bool>, lo: nat, hi: nat)
    requires lo <= hi <= |erased|
    ensures |Flagged(erased, true, lo, hi)| + |Flagged(erased, false, lo, hi)| == hi - lo
  {
    if lo < hi { FlaggedBoth(erased, lo, hi - 1); }
  }

  /** Device `d`, if it has the flag, is listed right after the ones before it. */
  lemma FlaggedAt(erased: seq<bool>, flag: bool, lo: nat, d: nat, hi: nat)
    requires lo <= d < hi <= |erased| && erased[d] == flag
    ensures |Flagged(erased, flag, lo, d)| < |Flagged(erased, flag, lo, hi)|
    ensures Flagged(erased, flag, lo, hi)[|Flagged(erased, flag, lo, d)|] == d
  {
    FlaggedPrefix(erased, flag, lo, d + 1, hi);
  }

  lemma FlaggedNext(e: seq<bool>, flag: bool, lo: nat, i: nat)
    requires lo <= i < |e|
    ensures Flagged(e, flag, lo, i + 1) == if e[i] == flag then Flagged(e, flag, lo, i) + [i] else Flagged(e, flag, lo, i)
  {
  }

  /** The devices below `n` that are not erased. */
  function Alive(erased: seq<bool>, n: nat): (ids: seq<nat>)
    requires n <= |erased|
    ensures forall i :: 0 <= i < |ids| ==> ids[i] < n && !erased[ids[i]]
    ensures Distinct(ids)
  {
    Flagged(erased, false, 0, n)
  }

  /** At most m erasures leave at least k devices alive. */
  lemma {:induction false} AliveCount(erased: seq<bool>, n: nat, lost: set<nat>)
    requires n <= |erased| && forall d: nat :: d < n && erased[d] ==> d in lost
    ensures |Alive(erased, n)| >= n - |lost|
  {
    if n > 0 {
      FlaggedNext(erased, false, 0, n - 1);
      if erased[n - 1] {
        forall d: nat | d < n - 1 && erased[d] ensures d in lost - {n - 1} { }
        AliveCount(erased, n - 1, lost - {n - 1});
      } else {
        AliveCount(erased, n - 1, lost);
      }
    }
  }

  lemma AlivePrefix(erased: seq<bool>, n: nat, k: nat)
    requires n <= k <= |erased|
    ensures |Alive(erased, n)| <= |Alive(erased, k)| && Alive(erased, n) == Alive(erased, k)[..|Alive(erased, n)|]
  {
    FlaggedPrefix(erased, false, 0, n, k);
  }

  /** `dm_ids`: the first k devices that are not erased. */
  ghost function FirstAlive(erased: seq<bool>, k: nat): (ids: seq<nat>)
    requires |Alive(erased, |erased|)| >= k
    ensures |ids| == k && Distinct(ids) && forall i :: 0 <= i < k ==> ids[i] < |erased| && !erased[ids[i]]
  {
    Alive(erased, |erased|)[..k]
  }

  method ChooseSurvivors(k: nat, erased: array<bool>, dmIds: array<nat>)
    requires |Alive(erased[..], erased.Length)| >= k && dmIds.Length == k
    modifies dmIds
    ensures dmIds[..] == FirstAlive(erased[..], k)
  {
    ghost var e := erased[..];
    var j: nat, i: nat := 0, 0;
    while j < k
      invariant i <= |e| && j <= k && j == |Alive(e, i)| && dmIds[..j] == Alive(e, i)
      decreases |e| - i
    {
      AlivePrefix(e, i, |e|);
      assert i < |e|;
      if !erased[i] {
        dmIds[j] := i;
        j := j + 1;
      }
      i := i + 1;
    }
    AlivePrefix(e, i, |e|);
  }
}

/** A file that is written or read in parts: all of them but the last are whole stripes. */
module FileParts {
  import opened Bytes
  import opened RowMajor
  import opened Striping

  /** `alignBufSize`: the buffer sizes the tools use. */
  function AlignBufSize(size: nat, align: nat): (r: nat)
    ensures align == 0 ==> r == size
    ensures align > 0 ==> Rest(r, align) == 0 && r >= align && size <= r < (if size < align then align else size) + align
  {
    if align == 0 then size
    else
      var n := if size < align then align else size;
      if Rest(n, align) == 0 then n
      else
        WholeRest(n, align);
        BaseStep(Whole(n, align), align);
        WholeIs(n + (align - Rest(n, align)), align, Whole(n, align) + 1, 0);
        n + (align - Rest(n, align))
  }

  /** All parts but the last are whole stripes. */
  ghost predicate Cut(parts: seq<seq<Byte>>, t: nat)
    requires t >= 1
  {
    forall i :: 0 <= i < |parts| - 1 ==> Rest(|parts[i]|, t) == 0
  }

  /** What the writes append to block `b`. */
  function Appended(parts: seq<seq<Byte>>, k: nat, s: nat, b: nat): seq<Byte>
    requires k >= 1 && s >= 1 && b < k
    decreases |parts|
  {
    if parts == [] then [] else Appended(parts[..|parts| - 1], k, s, b) + Lane(parts[|parts| - 1], k, s, b)
  }

  lemma {:induction false} WholeParts(parts: seq<seq<Byte>>, t: nat)
    requires t >= 1 && forall i :: 0 <= i < |parts| ==> Rest(|parts[i]|, t) == 0
    ensures Rest(|Joined(parts)|, t) == 0
    decreases |parts|
  {
    hide Base, Whole, Rest;
    BaseStep(0, t);
    if parts == [] {
      WholeIs(0, t, 0, 0);
    } else {
      var front, last := parts[..|parts| - 1], parts[|parts| - 1];
      WholeParts(front, t);
      WholeRest(|Joined(front)|, t);
      WholeRest(|last|, t);
      BaseTogether(Whole(|Joined(front)|, t), Whole(|last|, t), t);
      WholeIs(|Joined(parts)|, t, Whole(|Joined(front)|, t) + Whole(|last|, t), 0);
    }
  }

  /** The blocks hold the lanes of the whole file. */
  lemma {:induction false} WritesMakeLanes(parts: seq<seq<Byte>>, k: nat, s: nat, b: nat)
    requires k >= 1 && s >= 1 && b < k && Base(k, s) >= 1 && Cut(parts, Base(k, s))
    ensures Appended(parts, k, s, b) == Lane(Joined(parts), k, s, b)
    decreases |parts|
  {
    hide Base, Whole, Rest, Lane;
    if parts == [] {
      LaneNone([], k, s, b);
    } else {
      var front, last := parts[..|parts| - 1], parts[|parts| - 1];
      assert Cut(front, Base(k, s));
      WritesMakeLanes(front, k, s, b);
      WholeParts(front, Base(k, s));
      WholeRest(|Joined(front)|, Base(k, s));
      LaneConcat(Joined(front), last, k, s, b, Whole(|Joined(front)|, Base(k, s)));
    }
  }

  // ----- sizes

  /** The coding sizes of the parts, added up. */
  function Coded(parts: seq<seq<Byte>>, k: nat, s: nat): nat
    requires Base(k, s) >= 1
    decreases |parts|
  {
    if parts == [] then 0 else Coded(parts[..|parts| - 1], k, s) + CodingSize(|parts[|parts| - 1]|, k, s)
  }

  /** Coded part by part or all at once: the parity blocks get the same size. */
  lemma {:induction false} CodedIsCodingSize(parts: seq<seq<Byte>>, k: nat, s: nat)
    requires Base(k, s) >= 1 && Cut(parts, Base(k, s))
    ensures Coded(parts, k, s) == CodingSize(|Joined(parts)|, k, s)
    decreases |parts|
  {
    hide Base, Whole, Rest;
    if parts == [] {
      NothingCoded(k, s);
    } else {
      var front, last := parts[..|parts| - 1], parts[|parts| - 1];
      assert Cut(front, Base(k, s));
      CodedIsCodingSize(front, k, s);
      WholeParts(front, Base(k, s));
      WholeRest(|Joined(front)|, Base(k, s));
      SizesAdd(|Joined(front)|, |last|, k, s, 0, Whole(|Joined(front)|, Base(k, s)));
    }
  }

  lemma NothingCoded(k: nat, s: nat)
    requires Base(k, s) >= 1
    ensures CodingSize(0, k, s) == 0
  {
    hide Base;
    BaseStep(0, Base(k, s));
    WholeIs(0, Base(k, s), 0, 0);
    BaseStep(0, s);
  }

  /** The sizes of the first `n` blocks together. */
  function Total(sizes: seq<nat>, n: nat): nat
    requires n <= |sizes|
  {
    if n == 0 then 0 else Total(sizes, n - 1) + sizes[n - 1]
  }

  lemma {:induction false} TotalIs(sizes: seq<nat>, n: nat, k: nat, s: nat, b: nat)
    requires Base(k, s) >= 1 && b <= k <= |sizes| && forall i: nat :: i < k ==> sizes[i] == LaneSize(n, k, s, i)
    ensures Total(sizes, b) == SizesBelow(n, k, s, b)
  {
    hide LaneSize, Base;
    if b > 0 { TotalIs(sizes, n, k, s, b - 1); }
  }
}

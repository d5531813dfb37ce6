/** Bytes, and sequences of bytes that arrive in parts. */
module Bytes {
  type Byte = bv8

  /** The parts one after the other. */
  function Joined(parts: seq<seq<Byte>>): seq<Byte>
    decreases |parts|
  {
    if parts == [] then [] else Joined(parts[..|parts| - 1]) + parts[|parts| - 1]
  }

  lemma JoinedMore(parts: seq<seq<Byte>>, part: seq<Byte>)
    ensures Joined(parts + [part]) == Joined(parts) + part
  {
    assert (parts + [part])[..|parts|] == parts;
  }

  lemma {:induction false} JoinedSplit(parts: seq<seq<Byte>>, i: nat)
    requires i <= |parts|
    ensures Joined(parts) == Joined(parts[..i]) + Joined(parts[i..])
    decreases |parts|
  {
    if i == |parts| {
      assert parts[..i] == parts && parts[i..] == [];
    } else {
      var front := parts[..|parts| - 1];
      JoinedSplit(front, i);
      assert front[..i] == parts[..i];
      assert parts[i..][..|parts[i..]| - 1] == front[i..];
    }
  }
}

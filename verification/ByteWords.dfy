/** Buffers of bytes as the region operations see them: words of `c` bytes, the lowest byte first. */
module ByteWords {
  import opened Bytes
  import opened Bits
  import opened Galois
  import opened LinearAlgebra
  import opened RowMajor
  import opened Striping

  /** The bytes of one word, the lowest first. */
  function Word(bytes: seq<Byte>): (v: nat)
    ensures v < Pow2(8 * |bytes|)
  {
    if bytes == [] then 0
    else
      EightMore(|bytes| - 1);
      bytes[0] as nat + 256 * Word(bytes[1..])
  }

  lemma EightMore(n: nat)
    ensures Pow2(8 * n + 8) == 256 * Pow2(8 * n)
  {
    Pow2Add(8 * n, 8);
  }

  lemma SameByte(a: Byte, b: Byte)
    requires a as nat == b as nat
    ensures a == b
  {
    assert (a as nat) as Byte == a && (b as nat) as Byte == b;
  }

  lemma FirstByte(a: seq<Byte>)
    requires a != []
    ensures a[0] as nat < 256 && Word(a) == a[0] as nat + 256 * Word(a[1..])
  {
    hide Pow2;
  }

  lemma SameDigits(a: nat, x: nat, b: nat, y: nat)
    requires a < 256 && b < 256 && a + 256 * x == b + 256 * y
    ensures a == b && x == y
  {
  }

  lemma {:induction false} WordDetermines(a: seq<Byte>, b: seq<Byte>)
    requires |a| == |b| && Word(a) == Word(b)
    ensures a == b
  {
    hide *;
    if a != [] {
      FirstByte(a);
      FirstByte(b);
      SameDigits(a[0] as nat, Word(a[1..]), b[0] as nat, Word(b[1..]));
      SameByte(a[0], b[0]);
      WordDetermines(a[1..], b[1..]);
      assert a == [a[0]] + a[1..] && b == [b[0]] + b[1..];
    }
  }

  /** The words a region operation sees in a buffer. */
  function Words(bytes: seq<Byte>, c: nat): (row: Row)
    requires c >= 1
    ensures |row| == Whole(|bytes|, c)
  {
    seq(Whole(|bytes|, c), i requires 0 <= i < Whole(|bytes|, c) => (WordInside(|bytes|, c, i); Word(bytes[Base(i, c)..Base(i, c) + c])))
  }

  /** Words of `c` bytes are elements of GF(2^(8c)): the buffers can be encoded as they are. */
  lemma WordsAreElements(F: Field, bytes: seq<Byte>, c: nat)
    requires c >= 1 && F.w == 8 * c
    ensures Vec(F, Words(bytes, c), Whole(|bytes|, c))
  {
    hide Base, Whole, Word;
    forall i: nat | i < Whole(|bytes|, c) ensures F.El(Words(bytes, c)[i]) { WordInside(|bytes|, c, i); }
  }

  lemma WordInside(n: nat, c: nat, i: nat)
    requires c >= 1 && i < Whole(n, c)
    ensures Base(i, c) + c <= n
  {
    hide Base, Whole, Rest;
    WholeRest(n, c);
    BaseBefore(i, Whole(n, c), c);
  }

  lemma ByteInside(n: nat, c: nat, p: nat)
    requires c >= 1 && Rest(n, c) == 0 && p < n
    ensures Whole(p, c) < Whole(n, c) && p == Base(Whole(p, c), c) + Rest(p, c)
  {
    hide Base, Whole, Rest;
    WholeRest(n, c);
    WholeRest(p, c);
    if Whole(p, c) > Whole(n, c) { BaseBefore(Whole(n, c), Whole(p, c), c); }
  }

  /** A buffer of whole words is determined by its words. */
  lemma WordsDetermine(a: seq<Byte>, b: seq<Byte>, c: nat)
    requires c >= 1 && |a| == |b| && Rest(|a|, c) == 0 && Words(a, c) == Words(b, c)
    ensures a == b
  {
    hide Base, Whole, Rest, Word;
    forall p | 0 <= p < |a| ensures a[p] == b[p] {
      ByteInside(|a|, c, p);
      var i, x := Whole(p, c), Rest(p, c);
      WordInside(|a|, c, i);
      assert Words(a, c)[i] == Words(b, c)[i];
      WordDetermines(a[Base(i, c)..Base(i, c) + c], b[Base(i, c)..Base(i, c) + c]);
      assert a[Base(i, c)..Base(i, c) + c][x] == b[Base(i, c)..Base(i, c) + c][x];
    }
  }

  // ----- from words back to bytes

  /** The byte with this value, bit by bit. */
  function ByteOf(v: nat): (b: Byte)
    requires v < 256
    ensures b as nat == v
  {
    if v == 0 then 0
    else
      var double := Twice(ByteOf(v / 2));
      if v % 2 == 0 then double else Next(double)
  }

  function Twice(b: Byte): (d: Byte)
    requires b as nat < 128
    ensures d as nat == 2 * (b as nat)
  {
    b + b
  }

  function Next(b: Byte): (d: Byte)
    requires b as nat % 2 == 0
    ensures d as nat == b as nat + 1
  {
    b + 1
  }

  /** The `c` bytes of a word. */
  function ToBytes(v: nat, c: nat): (bytes: seq<Byte>)
    ensures |bytes| == c
  {
    if c == 0 then [] else [ByteOf(v % 256)] + ToBytes(v / 256, c - 1)
  }

  lemma {:induction false} WordOfBytes(v: nat, c: nat)
    requires v < Pow2(8 * c)
    ensures Word(ToBytes(v, c)) == v
  {
    hide Pow2;
    if c == 0 {
      NoBits(v);
    } else {
      EightMore(c - 1);
      SmallerWord(v, Pow2(8 * (c - 1)));
      WordOfBytes(v / 256, c - 1);
      assert ToBytes(v, c)[1..] == ToBytes(v / 256, c - 1);
      FirstByte(ToBytes(v, c));
    }
  }

  lemma NoBits(v: nat)
    requires v < Pow2(0)
    ensures v == 0
  {
  }

  lemma SmallerWord(v: nat, p: nat)
    requires v < 256 * p
    ensures v / 256 < p
  {
  }

  // ----- whole buffers

  method LoadWords(buf: array<Byte>, n: nat, c: nat) returns (words: array<nat>)
    requires c >= 1 && n <= buf.Length
    ensures fresh(words) && words[..] == Words(buf[..n], c)
  {
    hide Base, Whole, Word;
    words := new nat[Whole(n, c)];
    var i: nat := 0;
    while i < words.Length
      invariant i <= words.Length && forall j: nat :: j < i ==> words[j] == Words(buf[..n], c)[j]
    {
      WordInside(n, c, i);
      var bytes := buf[Base(i, c)..Base(i, c) + c];
      assert bytes == buf[..n][Base(i, c)..Base(i, c) + c];
      words[i] := Word(bytes);
      i := i + 1;
    }
  }

  /** The first `i` words of `n` bytes are those in `words`. */
  ghost predicate StoredTo(bytes: seq<Byte>, words: seq<nat>, c: nat, i: nat) {
    && c >= 1 && |words| == Whole(|bytes|, c) && i <= |words|
    && forall j: nat :: j < i ==> Words(bytes, c)[j] == words[j]
  }

  /** One more word. */
  lemma StoreOne(bytes: seq<Byte>, next: seq<Byte>, words: seq<nat>, c: nat, i: nat)
    requires StoredTo(bytes, words, c, i) && i < |words| && |next| == |bytes|
    requires Base(i, c) + c <= |bytes| && next == bytes[..Base(i, c)] + ToBytes(words[i], c) + bytes[Base(i, c) + c..]
    requires words[i] < Pow2(8 * c)
    ensures StoredTo(next, words, c, i + 1)
  {
    hide Base, Whole, Word, ToBytes, Pow2;
    WordOfBytes(words[i], c);
    forall j: nat | j < i + 1 ensures Words(next, c)[j] == words[j] {
      WordInside(|next|, c, j);
      if j < i {
        BaseBefore(j, i, c);
        assert next[Base(j, c)..Base(j, c) + c] == bytes[Base(j, c)..Base(j, c) + c];
        assert Words(bytes, c)[j] == words[j];
      } else {
        assert next[Base(i, c)..Base(i, c) + c] == ToBytes(words[i], c);
      }
    }
  }

  method StoreWords(words: array<nat>, buf: array<Byte>, n: nat, c: nat)
    requires c >= 1 && n <= buf.Length && words.Length == Whole(n, c) && (words as object) != buf
    requires forall i :: 0 <= i < words.Length ==> words[i] < Pow2(8 * c)
    modifies buf
    ensures Words(buf[..n], c) == words[..] && words[..] == old(words[..])
  {
    hide Base, Whole, Word, Words, ToBytes, StoredTo, Pow2;
    ghost var content := words[..];
    StoredNone(buf[..n], content, c);
    var i: nat := 0;
    while i < words.Length
      invariant i <= words.Length && words[..] == content && StoredTo(buf[..n], content, c, i)
    {
      WordInside(n, c, i);
      ghost var before := buf[..n];
      PutBytes(buf, Base(i, c), ToBytes(words[i], c));
      assert buf[..n] == before[..Base(i, c)] + ToBytes(content[i], c) + before[Base(i, c) + c..];
      StoreOne(before, buf[..n], content, c, i);
      i := i + 1;
    }
    StoredAll(buf[..n], content, c);
  }

  lemma StoredNone(bytes: seq<Byte>, words: seq<nat>, c: nat)
    requires c >= 1 && |words| == Whole(|bytes|, c)
    ensures StoredTo(bytes, words, c, 0)
  {
  }

  lemma StoredAll(bytes: seq<Byte>, words: seq<nat>, c: nat)
    requires StoredTo(bytes, words, c, |words|)
    ensures Words(bytes, c) == words
  {
  }

  method PutBytes(buf: array<Byte>, at: nat, bytes: seq<Byte>)
    requires at + |bytes| <= buf.Length
    modifies buf
    ensures buf[..] == old(buf[..at]) + bytes + old(buf[at + |bytes|..])
  {
    var i: nat := 0;
    while i < |bytes|
      invariant i <= |bytes| && (forall j :: 0 <= j < i ==> buf[at + j] == bytes[j])
      invariant forall p :: 0 <= p < buf.Length && !(at <= p < at + i) ==> buf[p] == old(buf[p])
    {
      buf[at + i] := bytes[i];
      i := i + 1;
    }
  }
}

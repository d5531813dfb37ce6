/** From the bytes of the client to the symbols of the code and back: what the striping routine puts
    into the input buffers, once encoded, survives the loss of any m data blocks byte for byte. */
module StripeCoding {
  import opened Bytes
  import opened Galois
  import opened RowMajor
  import opened LinearAlgebra
  import opened Devices
  import opened Erasures
  import opened GcrsCreate
  import opened GrsDecoding
  import opened Striping
  import opened ByteWords
  import opened StripeWrite

  // ----- a round of worker buffers

  /** Data block `b`, padded with zeros to the coding size. */
  function PaddedBlock(data: seq<Byte>, k: nat, s: nat, b: nat): (block: seq<Byte>)
    requires k >= 1 && s >= 1 && b < k && Base(k, s) >= 1
    ensures |block| == CodingSize(|data|, k, s)
  {
    LaneLength(data, k, s, b);
    CodingCovers(|data|, k, s, b);
    Lane(data, k, s, b) + seq(CodingSize(|data|, k, s) - |Lane(data, k, s, b)|, _ => 0 as Byte)
  }

  /** The striping routine leaves the padded blocks in the input buffers. */
  lemma StripedIsPadded(data: seq<Byte>, k: nat, s: nat, bufs: seq<array<Byte>>, written: array<nat>, b: nat)
    requires k >= 1 && s >= 1 && |bufs| == k == written.Length && Base(k, s) >= 1 && Striped(data, k, s, bufs, written) && b < k
    ensures CodingSize(|data|, k, s) <= bufs[b].Length
    ensures bufs[b][..CodingSize(|data|, k, s)] == PaddedBlock(data, k, s, b)
  {
    hide Base, Lane, CodingSize;
    var n, lane, buf := CodingSize(|data|, k, s), Lane(data, k, s, b), bufs[b][..];
    assert Holds(buf, written[b], lane, n);
    forall i | 0 <= i < n ensures buf[..n][i] == PaddedBlock(data, k, s, b)[i] {
      if i < |lane| { assert buf[..|lane|][i] == lane[i]; }
    }
    assert bufs[b][..n] == buf[..n];
  }

  /** The devices of one round in words: the padded blocks and the parity computed from them. */
  ghost predicate Round(F: Field, C: seq<Row>, k: nat, m: nat, s: nat, c: nat, data: seq<Byte>, D: seq<Row>) {
    && k >= 1 && s >= 1 && c >= 1 && Base(k, s) >= 1 && F.w == 8 * c && Matrix(F, C, m, k)
    && Rest(CodingSize(|data|, k, s), c) == 0
    && Codeword(F, C, k, m, D, Whole(CodingSize(|data|, k, s), c)) && |D| == k + m
    && forall b: nat :: b < k ==> D[b] == Words(PaddedBlock(data, k, s, b), c)
  }

  /** Every lost block comes back: row `r` of the decoding matrix, applied to the surviving buffers,
      gives the words of a buffer exactly when that buffer is the padded block `mat_idx[r]`. */
  lemma LostBlockReturns(F: Field, C: seq<Row>, k: nat, m: nat, s: nat, c: nat, data: seq<Byte>, D: seq<Row>, erasures: seq<nat>,
      matIdx: seq<nat>, dmIds: seq<nat>, dec: seq<Row>, r: nat, out: seq<Byte>)
    requires Round(F, C, k, m, s, c, data, D)
    requires (forall i :: 0 <= i < |erasures| ==> erasures[i] < k) && Rebuilding(F, C, k, m, erasures, matIdx, dmIds, dec)
    requires r < |LostIds(Flags(erasures, k + m))| && |out| == CodingSize(|data|, k, s)
    ensures matIdx[r] < k && |dmIds| == k && r < |dec| && |dec[r]| == k && Sources(D, dmIds, Whole(CodingSize(|data|, k, s), c))
    ensures Words(out, c) == Combine(F, dec[r], D, dmIds, Whole(CodingSize(|data|, k, s), c)) <==> out == PaddedBlock(data, k, s, matIdx[r])
  {
    hide Base, Whole, Rest, Codeword, Matrix, Combine, PaddedBlock, CodingSize, Word, LostIds;
    RowRebuildsDevice(F, C, k, m, erasures, matIdx, dmIds, dec, D, Whole(CodingSize(|data|, k, s), c), r);
    if Words(out, c) == D[matIdx[r]] { WordsDetermine(out, PaddedBlock(data, k, s, matIdx[r]), c); }
  }
}

/** The bit matrix of such a code is as good as the code itself: its survivors are never singular and none
    of its rows is zero.  So decoding by schedule restores every loss of at most m devices. */
module CauchyBits {
  import opened Bits
  import opened Galois
  import opened GaloisMultiply
  import opened LinearAlgebra
  import opened RowMajor
  import opened Elimination
  import opened Survivors
  import opened Devices
  import opened Erasures
  import opened CauchyMDS
  import opened BitAlgebra
  import opened Bitmatrix
  import opened Schedule
  import opened BitInvert
  import opened BitDecoding
  import opened ScheduledIds
  import opened ScheduleDecode
  import opened GcrsVector

  // ----- the survivors' bits are the bits of the survivor matrix

  lemma UnitColumn(F: Field, x: nat, l: nat)
    requires F.w >= 1 && x < F.w && l < F.w
    ensures Bit(F.XPow(x, 1), l) == (x == l) && !Bit(F.XPow(x, 0), l)
  {
    MulPow2(F, x, 1);
    MulPow2(F, x, 0);
    Pow2Mono(x + 1, F.w);
    assert Pow2(x + 1) == 2 * Pow2(x);
    hide *;
    assert F.El(Pow2(x)) by { SmallPower(F, x); }
    MulOneRight(F, Pow2(x));
    MulZeroRight(F, Pow2(x));
    BitPow2(x, l);
    ZeroBits(l);
  }

  lemma SmallPower(F: Field, x: nat)
    requires x < F.w
    ensures F.El(Pow2(x))
  {
    Pow2Mono(x + 1, F.w);
  }

  lemma SurvivorCell(F: Field, C: seq<Row>, m: nat, k: nat, B: seq<BitRow>, ids: seq<nat>, i: nat, l: nat, j: nat, x: nat)
    requires F.w >= 1 && Matrix(F, C, m, k) && IsBitmatrix(F, C, m, k, B) && (forall i :: 0 <= i < |ids| ==> ids[i] < k + m)
    requires i < |ids| && l < F.w && j < k && x < F.w
    ensures Base(i, F.w) + l < Base(|ids|, F.w) && Base(j, F.w) + x < Base(k, F.w) && |DeviceRow(C, k, ids[i])| == k
    ensures SurvivorBits(B, k, m, F.w, ids)[Base(i, F.w) + l][Base(j, F.w) + x] == Bit(F.XPow(x, DeviceRow(C, k, ids[i])[j]), l)
  {
    hide Base, Field.XPow, Bit, SurvivorBits;
    SurvivorAt(B, k, m, F.w, ids, i, l);
    BaseBefore(i, |ids|, F.w);
    BaseBefore(j, k, F.w);
    var d := ids[i];
    if d < k {
      BaseBefore(d, k, F.w);
      if j != d { RowsApart(j, d, k, F.w); }
      UnitColumn(F, x, l);
    } else {
      assert Vec(F, C[d - k], k);
      BaseBefore(d - k, m, F.w);
      assert Cell(F, C, m, k, B, d - k, l, j, x);
    }
  }

  lemma SurvivorsAreBitmatrix(F: Field, C: seq<Row>, m: nat, k: nat, B: seq<BitRow>, ids: seq<nat>)
    requires F.w >= 1 && Matrix(F, C, m, k) && IsBitmatrix(F, C, m, k, B) && forall i :: 0 <= i < |ids| ==> ids[i] < k + m
    ensures |C| == m && Matrix(F, SurvivorMatrix(C, k, ids), |ids|, k)
    ensures IsBitmatrix(F, SurvivorMatrix(C, k, ids), |ids|, k, SurvivorBits(B, k, m, F.w, ids))
  {
    hide Base, Field.XPow, Bit, SurvivorBits;
    SurvivorMatrixElements(F, C, k, m, ids);
    var M, S := SurvivorMatrix(C, k, ids), SurvivorBits(B, k, m, F.w, ids);
    forall i: nat, l: nat, j: nat, x: nat | i < |ids| && j < k && l < F.w && x < F.w ensures Cell(F, M, |ids|, k, S, i, l, j, x) {
      SurvivorCell(F, C, m, k, B, ids, i, l, j, x);
    }
  }

  // ----- the symbols that one bit position of the packets spells

  function FromBits(bits: seq<bool>): (v: nat)
    ensures v < Pow2(|bits|) && forall x: nat :: x < |bits| ==> Bit(v, x) == bits[x]
  {
    if bits == [] then 0
    else
      var v := 2 * FromBits(bits[1..]) + if bits[0] then 1 else 0;
      assert forall x: nat :: x < |bits| ==> Bit(v, x) == bits[x] by {
        forall x: nat | x < |bits| ensures Bit(v, x) == bits[x] {
          if x > 0 { assert v / 2 == FromBits(bits[1..]) && Bit(FromBits(bits[1..]), x - 1) == bits[1..][x - 1]; }
        }
      }
      v
  }

  function Plane(P: Packets, at: nat, w: nat, b: nat): (bits: seq<bool>)
    requires at + w <= |P|
    ensures |bits| == w && forall x :: 0 <= x < w ==> bits[x] == Bit(P[at + x], b)
  {
    seq(w, x requires 0 <= x < w => Bit(P[at + x], b))
  }

  /** The symbol of device `j`. */
  function SymbolAt(F: Field, P: Packets, k: nat, b: nat, j: nat): (v: nat)
    requires |P| == Base(k, F.w) && j < k
    ensures F.El(v)
  {
    BaseBefore(j, k, F.w);
    FromBits(Plane(P, Base(j, F.w), F.w, b))
  }

  function Symbols(F: Field, P: Packets, k: nat, b: nat): (d: Row)
    requires |P| == Base(k, F.w)
    ensures |d| == k && forall j: nat :: j < k ==> d[j] == SymbolAt(F, P, k, b, j)
  {
    seq(k, j requires 0 <= j < k => SymbolAt(F, P, k, b, j))
  }

  lemma SymbolsSpelled(F: Field, P: Packets, k: nat, b: nat)
    requires |P| == Base(k, F.w)
    ensures Spells(F, P, k, b, Symbols(F, P, k, b))
  {
    hide Base, Bit, Symbols, Field.El;
    var d := Symbols(F, P, k, b);
    forall j: nat, x: nat | j < k && x < F.w ensures SpellsBit(F, P, k, b, d[j], j, x) {
      BaseBefore(j, k, F.w);
      assert Plane(P, Base(j, F.w), F.w, b)[x] == Bit(P[Base(j, F.w) + x], b);
    }
    forall j | 0 <= j < k ensures F.El(d[j]) { assert d[j] == SymbolAt(F, P, k, b, j); }
  }

  lemma HasBit(v: nat) returns (b: nat)
    requires v != 0
    ensures Bit(v, b)
  {
    if forall l: nat :: !Bit(v, l) {
      forall l: nat ensures Bit(v, l) == Bit(0, l) { ZeroBits(l); }
      SamePlanes(v, 0);
    }
    b :| Bit(v, b);
  }

  // ----- invertible

  lemma ZeroSpelled(F: Field, P: Packets, n: nat, b: nat, y: Row, i: nat)
    requires Spells(F, P, n, b, y) && (forall p :: 0 <= p < |P| ==> P[p] == 0) && i < n
    ensures y[i] == 0
  {
    hide Base, Bit;
    forall x: nat | x < F.w ensures Bit(y[i], x) == Bit(0, x) {
      assert SpellsBit(F, P, n, b, y[i], i, x);
      BaseBefore(i, n, F.w);
      ZeroBits(b);
      ZeroBits(x);
    }
    SameBits(y[i], 0, F.w);
  }

  /** Bits that send some packets to zero send the symbols they spell to zero. */
  lemma BitSingularMeansSingular(F: Field, M: seq<Row>, k: nat, S: seq<BitRow>)
    requires F.w >= 1 && Matrix(F, M, k, k) && IsBitmatrix(F, M, k, k, S) && BitSingular(S, Base(k, F.w))
    ensures Singular(F, M, k)
  {
    hide Base, Bit, Dot, Select, BitApply, Apply, Symbols;
    var n := Base(k, F.w);
    var P: Packets, p :| |P| == n && BitKills(S, P, n) && 0 <= p < n && P[p] != 0;
    var b := HasBit(P[p]);
    var d := Symbols(F, P, k, b);
    SymbolsSpelled(F, P, k, b);
    BitEncodingIsFieldEncoding(F, M, k, k, S, P, d, b);
    forall i | 0 <= i < k ensures Dot(F, M[i], d, k) == 0 {
      ZeroSpelled(F, BitApply(S, P), k, b, Apply(F, M, d), i);
    }
    NonzeroSymbol(F, P, k, b, d, p);
  }

  lemma NonzeroSymbol(F: Field, P: Packets, k: nat, b: nat, d: Row, p: nat)
    requires F.w >= 1 && Spells(F, P, k, b, d) && p < |P| && Bit(P[p], b)
    ensures p / F.w < k && d[p / F.w] != 0
  {
    hide Base, Bit;
    Slots(p, k, F.w);
    var j, x := p / F.w, p % F.w;
    assert SpellsBit(F, P, k, b, d[j], j, x);
    assert Base(j, F.w) + x == p;
    ZeroBits(x);
  }

  /** Any k devices determine the packets. */
  lemma SurvivorBitsInvertible(F: Field, C: seq<Row>, m: nat, k: nat, B: seq<BitRow>, ids: seq<nat>)
    requires F.w >= 1 && AnyKInvertible(F, C, m, k) && IsBitmatrix(F, C, m, k, B) && Selection(ids, k, m)
    ensures !BitSingular(SurvivorBits(B, k, m, F.w, ids), Base(k, F.w))
  {
    hide Base, Singular, BitSingular, SurvivorBits;
    SurvivorsAreBitmatrix(F, C, m, k, B, ids);
    if BitSingular(SurvivorBits(B, k, m, F.w, ids), Base(k, F.w)) {
      BitSingularMeansSingular(F, SurvivorMatrix(C, k, ids), k, SurvivorBits(B, k, m, F.w, ids));
    }
  }

  // ----- no zero row

  function OneBits(n: nat, at: nat, y: nat): (P: Packets)
    requires at <= n
    ensures |P| == n && forall p :: at <= p < n ==> P[p] == if Bit(y, p - at) then 1 else 0
  {
    seq(n, p requires 0 <= p < n => if p >= at && Bit(y, p - at) then 1 else 0)
  }

  /** A row of zeros in the block of `e` would mean that no product has that bit. */
  lemma BlockRowNonzero(F: Field, row: BitRow, at: nat, e: nat, l: nat)
    requires IsField(F) && at + F.w <= |row| && F.El(e) && e != 0 && l < F.w
    requires forall c: nat :: c < F.w ==> row[at + c] == Bit(F.XPow(c, e), l)
    ensures Weight(row, |row|) > 0
  {
    hide Bit, Field.XPow, Field.Mul, HasInverse, Pow2;
    if Weight(row, |row|) == 0 {
      SmallPower(F, l);
      var y := Div(F, Pow2(l), e);
      var P := OneBits(|row|, at, y);
      forall c: nat | c < F.w ensures Bit(P[at + c], 0) == Bit(y, c) { assert P[at + c] == if Bit(y, c) then 1 else 0; OneHasBit(); }
      BlockSelect(F, row, P, at, F.w, e, y, l, 0);
      ZeroRowSelects(row, P, at + F.w);
      ZeroRowSelects(row, P, at);
      ZeroBits(0);
      SmallMod(y, F.w);
      MulComm(F, e, y);
      BitPow2(l, l);
    }
  }

  lemma OneHasBit()
    ensures Bit(1, 0) && !Bit(0, 0)
  {
  }

  lemma ZeroRowSelects(row: BitRow, P: Packets, n: nat)
    requires n <= |row| == |P| && Weight(row, |row|) == 0
    ensures Select(row, P, n) == 0
  {
    WeightBound(row, |row|);
    SelectNone(row, P, n);
  }

  lemma CodingBitsNonzero(F: Field, C: seq<Row>, m: nat, k: nat, B: seq<BitRow>, i: nat)
    requires IsField(F) && Matrix(F, C, m, k) && IsBitmatrix(F, C, m, k, B) && i < m && HasNonzero(C[i])
    ensures NonzeroBits(B, k, m, F.w, k + i)
  {
    hide Base, Bit, Field.XPow, Weight, HasInverse;
    assert Vec(F, C[i], k);
    var j :| 0 <= j < |C[i]| && C[i][j] != 0;
    BaseBefore(i, m, F.w);
    BaseBefore(j, k, F.w);
    var d := k + i;
    forall l: nat | l < F.w ensures Weight(DeviceBits(B, k, m, F.w, d, l), Base(k, F.w)) > 0 {
      var row := B[Base(i, F.w) + l];
      forall c: nat | c < F.w ensures row[Base(j, F.w) + c] == Bit(F.XPow(c, C[i][j]), l) { assert Cell(F, C, m, k, B, i, l, j, c); }
      BlockRowNonzero(F, row, Base(j, F.w), C[i][j], l);
    }
  }

  // ----- decoding never fails

  /** What the schedules presuppose always holds for these codes: after any loss of at most m
      devices, a codeword counts as damaged and comes back. */
  lemma EveryLossDecodes(F: Field, C: seq<Row>, m: nat, k: nat, B: seq<BitRow>, e: seq<bool>, mem: Packets, orig: Packets)
    requires IsField(F) && AnyKInvertible(F, C, m, k) && |C| == m && forall i :: 0 <= i < m ==> HasNonzero(C[i])
    requires IsBitmatrix(F, C, m, k, B) && Recoverable(e, k, m)
    requires BitCodeword(B, k, m, F.w, orig) && Intact(mem, orig, e, k + m, F.w)
    ensures Damaged(mem, orig, B, k, m, F.w, e)
  {
    hide Base, Singular, BitSingular, SurvivorBits, BitCodeword, Intact, NonzeroBits, HasNonzero, HasInverse;
    FrontRange(e, k, m);
    FrontSelection(e, k, m);
    SurvivorBitsInvertible(F, C, m, k, B, Front(e, k, m));
    forall d: nat | d < k + m && e[d] ensures NonzeroBits(B, k, m, F.w, d) {
      if d < k { DataBitsNonzero(B, k, m, F.w, d); } else { CodingBitsNonzero(F, C, m, k, B, d - k); }
    }
  }

  lemma FrontSelection(e: seq<bool>, k: nat, m: nat)
    requires Recoverable(e, k, m)
    ensures Selection(Front(e, k, m), k, m)
  {
    FrontRange(e, k, m);
    forall i, j | 0 <= i < j < k ensures Front(e, k, m)[i] != Front(e, k, m)[j] { StandDistinct(e, k, m, i, j); }
  }

  /** The same for the recovery path, which takes the first k survivors. */
  lemma RecoveryNeverSingular(F: Field, C: seq<Row>, m: nat, k: nat, B: seq<BitRow>, e: seq<bool>)
    requires F.w >= 1 && AnyKInvertible(F, C, m, k) && IsBitmatrix(F, C, m, k, B) && Setting(B, k, m, F.w, e)
    ensures !BitSingular(FirstBits(B, k, m, F.w, e), Base(k, F.w))
  {
    hide Base, Singular, BitSingular, SurvivorBits, AnyKInvertible;
    assert Selection(FirstAlive(e, k), k, m);
    SurvivorBitsInvertible(F, C, m, k, B, FirstAlive(e, k));
  }
}

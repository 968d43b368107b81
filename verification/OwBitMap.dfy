/**
 * The page bitmap of owfile.c: one bit a page, set when the page is in use. Pages run from 0 to `maxP`.
 */
module OwBitMap {
  import opened BitMasks
  import opened Bytes
  import opened Results

  predicate Covers(bm: seq<bv8>, maxP: nat) { maxP < 8 * |bm| }

  /** Page `k` is in use. */
  predicate Bit(bm: seq<bv8>, k: nat)
    requires Covers(bm, k)
  {
    ByteBit(bm[k / 8], k % 8)
  }

  predicate LowBit(t: bv8) { t & 1 == 1 }

  function Halve(t: bv8): bv8 { t >> 1 }

  /** `x` after `i` steps of `x >>= 1`. */
  function Shifted(x: bv8, i: nat): bv8
    decreases i
  {
    if i == 0 then x else Halve(Shifted(x, i - 1))
  }

  lemma ShiftedBit(x: bv8, i: nat)
    requires i < 8
    ensures LowBit(Shifted(x, i)) <==> ByteBit(x, i)
  {
    var x1 := Halve(x);
    var x2 := Halve(x1);
    var x3 := Halve(x2);
    var x4 := Halve(x3);
    var x5 := Halve(x4);
    var x6 := Halve(x5);
    assert Shifted(x, 1) == x1;
    assert Shifted(x, 2) == x2;
    assert Shifted(x, 3) == x3;
    assert Shifted(x, 4) == x4;
    assert Shifted(x, 5) == x5;
    assert Shifted(x, 6) == x6;
    assert Shifted(x, 7) == Halve(x6);
  }

  /** The loops over the bits of a map: `t` holds the rest of the current byte, `bcnt` bytes have been fetched. */
  ghost predicate InStep(bm: seq<bv8>, i: nat, t: bv8, bcnt: nat) {
    bcnt == (i + 7) / 8 && (i % 8 != 0 && i / 8 < |bm| ==> t == Shifted(bm[i / 8], i % 8))
  }

  lemma StepStart(bm: seq<bv8>, t: bv8)
    ensures InStep(bm, 0, t, 0)
  {}

  /** Fetching the next byte when the last one is used up. */
  lemma StepFetch(bm: seq<bv8>, i: nat, t: bv8, bcnt: nat)
    requires InStep(bm, i, t, bcnt) && i / 8 < |bm|
    ensures i % 8 == 0 ==> bcnt == i / 8 && bm[bcnt] == Shifted(bm[i / 8], 0)
    ensures i % 8 != 0 ==> bcnt == i / 8 + 1 && t == Shifted(bm[i / 8], i % 8)
  {}

  lemma StepShift(bm: seq<bv8>, i: nat, t: bv8)
    requires i / 8 < |bm| && t == Shifted(bm[i / 8], i % 8)
    ensures InStep(bm, i + 1, Halve(t), i / 8 + 1)
  {
    hide Halve;
    assert (i + 1) % 8 != 0 ==> (i + 1) / 8 == i / 8 && (i + 1) % 8 == i % 8 + 1;
  }

  lemma CoveredByte(bm: seq<bv8>, i: nat, maxP: nat)
    requires Covers(bm, maxP) && i <= maxP
    ensures i / 8 < |bm| && Covers(bm, i)
  {}

  // ---------- the free pages ----------

  /** The free pages from `i` on, lowest first. */
  function FreeFrom(bm: seq<bv8>, i: nat, maxP: byte): seq<byte>
    requires Covers(bm, maxP)
    decreases maxP + 1 - i
  {
    if i > maxP then []
    else if Bit(bm, i) then FreeFrom(bm, i + 1, maxP)
    else [i] + FreeFrom(bm, i + 1, maxP)
  }

  function FreeList(bm: seq<bv8>, maxP: byte): seq<byte>
    requires Covers(bm, maxP)
  {
    FreeFrom(bm, 0, maxP)
  }

  ghost predicate Ascending(s: seq<byte>) {
    forall a, b :: 0 <= a < b < |s| ==> s[a] < s[b]
  }

  /** The free list holds exactly the free pages, in ascending order. */
  lemma {:induction false} FreeFromIs(bm: seq<bv8>, i: nat, maxP: byte)
    requires Covers(bm, maxP)
    ensures forall k: byte :: k in FreeFrom(bm, i, maxP) <==> i <= k <= maxP && !Bit(bm, k)
    ensures Ascending(FreeFrom(bm, i, maxP))
    decreases maxP + 1 - i
  {
    hide Bit;
    if i <= maxP {
      FreeFromIs(bm, i + 1, maxP);
      var fl, tail := FreeFrom(bm, i, maxP), FreeFrom(bm, i + 1, maxP);
      if !Bit(bm, i) {
        assert fl[0] == i && fl[1..] == tail;
        forall a, b | 0 <= a < b < |fl|
          ensures fl[a] < fl[b]
        {
          assert fl[b] == tail[b - 1] && tail[b - 1] in tail && i + 1 <= tail[b - 1];
          if a > 0 {
            assert fl[a] == tail[a - 1] && tail[a - 1] < tail[b - 1];
          }
        }
      }
    }
  }

  /** `bm'` is `bm` with exactly the bit of page `k` changed to `state`. */
  ghost predicate Changed(bm: seq<bv8>, bm': seq<bv8>, k: nat, state: bool)
    requires Covers(bm, k)
  {
    |bm'| == |bm| && forall j: nat :: j < 8 * |bm| ==> (Bit(bm', j) <==> if j == k then state else Bit(bm, j))
  }

  /** Marking a page takes it out of the free list. */
  lemma {:induction false} MarkFree(bm: seq<bv8>, bm': seq<bv8>, k: byte, i: nat, maxP: byte)
    requires Covers(bm, maxP) && Covers(bm, k) && Changed(bm, bm', k, true)
    ensures FreeFrom(bm', i, maxP) == Remove(FreeFrom(bm, i, maxP), k)
    decreases maxP + 1 - i
  {
    hide Bit;
    if i <= maxP {
      MarkFree(bm, bm', k, i + 1, maxP);
      assert Bit(bm', i) <==> i == k || Bit(bm, i);
      FreeFromIs(bm, i + 1, maxP);
      if i == k && !Bit(bm, i) {
        RemoveAbsent(FreeFrom(bm, i + 1, maxP), k);
      }
    }
  }

  /** The two byte updates of BitMapChange change exactly one bit of the map. */
  lemma ByteUpdate(bm: seq<bv8>, k: nat, state: bool)
    requires Covers(bm, k)
    ensures var x := bm[k / 8];
            Changed(bm, bm[k / 8 := if state then SetBit(x, k % 8) else ClearBit(x, k % 8)], k, state)
  {
    hide SetBit, ClearBit, ByteBit;
    var x := bm[k / 8];
    var bm' := bm[k / 8 := if state then SetBit(x, k % 8) else ClearBit(x, k % 8)];
    forall j: nat | j < 8 * |bm|
      ensures Bit(bm', j) <==> if j == k then state else Bit(bm, j)
    {
      if j / 8 == k / 8 {
        SetByteBit(x, k % 8, j % 8);
        ClearByteBit(x, k % 8, j % 8);
      }
    }
  }

  /** BitMapChange, on a part that can be rewritten. */
  method BitMapChange(bitNum: byte, state: bool, bm: array<bv8>, maxP: byte) returns (r: Result<()>)
    requires Covers(bm[..], maxP)
    modifies bm
    ensures bitNum > maxP ==> r == Err(TooLargeBitNum) && bm[..] == old(bm[..])
    ensures bitNum <= maxP ==> r == Ok(()) && Changed(old(bm[..]), bm[..], bitNum, state)
  {
    if bitNum > maxP {
      return Err(TooLargeBitNum);
    }
    var i, j := bitNum / 8, bitNum % 8;
    ByteUpdate(bm[..], bitNum, state);
    hide SetBit, ClearBit, Bit, Changed;
    if state {
      bm[i] := SetBit(bm[i], j);
    } else {
      bm[i] := ClearBit(bm[i], j);
    }
    assert bm[..] == old(bm[..])[i := bm[i]];
    return Ok(());
  }

  function At(s: seq<byte>, i: nat): byte { if i < |s| then s[i] else 0 }

  /** FindEmpties: the two lowest free pages, 0 standing for none. Its byte counter never passes a last page of 255. */
  method FindEmpties(bm: array<bv8>, maxP: byte) returns (avail: byte, next: byte)
    requires Covers(bm[..], maxP) && (maxP <= 254 || |FreeList(bm[..], maxP)| >= 2)
    ensures var fl := FreeList(bm[..], maxP); avail == At(fl, 0) && next == At(fl, 1)
  {
    hide LowBit, Halve, ByteBit, Shifted, InStep, Covers;
    var first, t: bv8, i: byte, bcnt := true, 0, 0, 0;
    avail, next := 0, 0;
    ghost var fl := FreeList(bm[..], maxP);
    StepStart(bm[..], t);
    while i <= maxP
      invariant i <= maxP + 1
      invariant InStep(bm[..], i, t, bcnt)
      invariant |fl| >= 2 || maxP <= 254
      invariant first ==> avail == 0 && fl == FreeFrom(bm[..], i, maxP)
      invariant !first ==> |fl| > 0 && avail == fl[0] && fl[1..] == FreeFrom(bm[..], i, maxP)
    {
      CoveredByte(bm[..], i, maxP);
      StepFetch(bm[..], i, t, bcnt);
      if i % 8 == 0 {
        t := bm[bcnt];
        bcnt := bcnt + 1;
      }
      ShiftedBit(bm[i / 8], i % 8);
      StepShift(bm[..], i, t);
      if !LowBit(t) {
        if first {
          avail := i;
          first := false;
        } else {
          next := i;
          return;
        }
      }
      t := Halve(t);
      assert i < 255;
      i := i + 1;
    }
  }

  /** The bytes available to a file whose first page is claimed already. */
  function MaxWrite(bm: seq<bv8>, maxP: byte): nat
    requires Covers(bm, maxP)
  {
    var cnt := |FreeList(bm, maxP)|;
    if cnt + 1 > maxP then cnt * 28 else (cnt + 1) * 28
  }

  /** Claimed pages bound the length of the free list. */
  lemma {:induction false} FreeCount(bm: seq<bv8>, i: nat, maxP: byte, a: byte, b: byte)
    requires Covers(bm, maxP) && a < b <= maxP && Bit(bm, a) && Bit(bm, b) && i <= maxP + 1
    ensures |FreeFrom(bm, i, maxP)| <= maxP + 1 - i - (if i <= a then 1 else 0) - (if i <= b then 1 else 0)
    decreases maxP + 1 - i
  {
    hide Bit;
    if i <= maxP {
      FreeCount(bm, i + 1, maxP, a, b);
    }
  }

  /** GetMaxWrite: bytes that can be written, counting 28 a page and one page already claimed. */
  method GetMaxWrite(bm: array<bv8>, maxP: byte) returns (ret: nat)
    requires Covers(bm[..], maxP)
    ensures ret == MaxWrite(bm[..], maxP)
    ensures var n := |FreeList(bm[..], maxP)|; ret == 28 * if n < maxP then n + 1 else n
  {
    hide LowBit, Halve, ByteBit, Shifted, InStep, Covers;
    var t: bv8, bcnt, cnt, i := 0, 0, 0, 0;
    StepStart(bm[..], t);
    while i <= maxP
      invariant i <= maxP + 1
      invariant InStep(bm[..], i, t, bcnt)
      invariant cnt + |FreeFrom(bm[..], i, maxP)| == |FreeList(bm[..], maxP)|
    {
      CoveredByte(bm[..], i, maxP);
      StepFetch(bm[..], i, t, bcnt);
      if i % 8 == 0 {
        t := bm[bcnt];
        bcnt := bcnt + 1;
      }
      ShiftedBit(bm[i / 8], i % 8);
      StepShift(bm[..], i, t);
      if !LowBit(t) {
        cnt := cnt + 1;
      }
      t := Halve(t);
      i := i + 1;
    }
    if (cnt + 1) * 28 > maxP * 28 {
      ret := cnt * 28;
    } else {
      ret := (cnt + 1) * 28;
    }
  }
}

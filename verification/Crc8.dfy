/** The CRC8 of crcutil.c: a 256-entry table, and the bit-by-bit reflected CRC (polynomial 0x8C) it stands for. */
module Crc8 {
  import opened Bytes

  // ---------- the reference CRC ----------

  /** One bit of the reflected CRC. */
  function BitStep(c: bv8): bv8 { if c & 1 == 1 then (c >> 1) ^ 0x8C else c >> 1 }

  function BitSteps(c: bv8, n: nat): bv8
    decreases n, c
  {
    if n == 0 then c else BitSteps(BitStep(c), n - 1)
  }

  /** The CRC with one more byte. */
  function ByteStep(c: bv8, d: bv8): bv8 { BitSteps(c ^ d, 8) }

  /** The bit-by-bit CRC of a byte string. */
  function Crc(seed: bv8, data: seq<bv8>): bv8 {
    if data == [] then seed else ByteStep(Crc(seed, data[..|data| - 1]), Last(data))
  }

  function EightSteps(c: bv8): bv8 {
    BitStep(BitStep(BitStep(BitStep(BitStep(BitStep(BitStep(BitStep(c))))))))
  }

  lemma UnrollBits(c: bv8)
    ensures BitSteps(c, 8) == EightSteps(c)
  {
    var c2 := BitStep(BitStep(c));
    var c4 := BitStep(BitStep(c2));
    var c6 := BitStep(BitStep(c4));
    assert BitSteps(c, 8) == BitSteps(BitStep(c), 7) == BitSteps(c2, 6);
    assert BitSteps(c2, 6) == BitSteps(BitStep(c2), 5) == BitSteps(c4, 4);
    assert BitSteps(c4, 4) == BitSteps(BitStep(c4), 3) == BitSteps(c6, 2);
    assert BitSteps(c6, 2) == BitSteps(BitStep(c6), 1) == BitStep(BitStep(c6));
  }

  // ---------- the table ----------

  const ROW_0: seq<bv8> := [0, 94, 188, 226, 97, 63, 221, 131, 194, 156, 126, 32, 163, 253, 31, 65]
  const ROW_1: seq<bv8> := [157, 195, 33, 127, 252, 162, 64, 30, 95, 1, 227, 189, 62, 96, 130, 220]
  const ROW_2: seq<bv8> := [35, 125, 159, 193, 66, 28, 254, 160, 225, 191, 93, 3, 128, 222, 60, 98]
  const ROW_3: seq<bv8> := [190, 224, 2, 92, 223, 129, 99, 61, 124, 34, 192, 158, 29, 67, 161, 255]
  const ROW_4: seq<bv8> := [70, 24, 250, 164, 39, 121, 155, 197, 132, 218, 56, 102, 229, 187, 89, 7]
  const ROW_5: seq<bv8> := [219, 133, 103, 57, 186, 228, 6, 88, 25, 71, 165, 251, 120, 38, 196, 154]
  const ROW_6: seq<bv8> := [101, 59, 217, 135, 4, 90, 184, 230, 167, 249, 27, 69, 198, 152, 122, 36]
  const ROW_7: seq<bv8> := [248, 166, 68, 26, 153, 199, 37, 123, 58, 100, 134, 216, 91, 5, 231, 185]
  const ROW_8: seq<bv8> := [140, 210, 48, 110, 237, 179, 81, 15, 78, 16, 242, 172, 47, 113, 147, 205]
  const ROW_9: seq<bv8> := [17, 79, 173, 243, 112, 46, 204, 146, 211, 141, 111, 49, 178, 236, 14, 80]
  const ROW_A: seq<bv8> := [175, 241, 19, 77, 206, 144, 114, 44, 109, 51, 209, 143, 12, 82, 176, 238]
  const ROW_B: seq<bv8> := [50, 108, 142, 208, 83, 13, 239, 177, 240, 174, 76, 18, 145, 207, 45, 115]
  const ROW_C: seq<bv8> := [202, 148, 118, 40, 171, 245, 23, 73, 8, 86, 180, 234, 105, 55, 213, 139]
  const ROW_D: seq<bv8> := [87, 9, 235, 181, 54, 104, 138, 212, 149, 203, 41, 119, 244, 170, 72, 22]
  const ROW_E: seq<bv8> := [233, 183, 85, 11, 136, 214, 52, 106, 43, 117, 151, 201, 74, 20, 246, 168]
  const ROW_F: seq<bv8> := [116, 42, 200, 150, 21, 75, 169, 247, 182, 232, 10, 84, 215, 137, 107, 53]

  /** The 16 rows of dscrc_table, in the order of the source. */
  const DSCRC_TABLE: seq<seq<bv8>> :=
    [ROW_0, ROW_1, ROW_2, ROW_3, ROW_4, ROW_5, ROW_6, ROW_7, ROW_8, ROW_9, ROW_A, ROW_B, ROW_C, ROW_D, ROW_E, ROW_F]

  lemma Row0(j: bv8)
    requires j < 16
    ensures ROW_0[j as int] == EightSteps(0x00 | j)
  {}

  lemma Row1(j: bv8)
    requires j < 16
    ensures ROW_1[j as int] == EightSteps(0x10 | j)
  {}

  lemma Row2(j: bv8)
    requires j < 16
    ensures ROW_2[j as int] == EightSteps(0x20 | j)
  {}

  lemma Row3(j: bv8)
    requires j < 16
    ensures ROW_3[j as int] == EightSteps(0x30 | j)
  {}

  lemma Row4(j: bv8)
    requires j < 16
    ensures ROW_4[j as int] == EightSteps(0x40 | j)
  {}

  lemma Row5(j: bv8)
    requires j < 16
    ensures ROW_5[j as int] == EightSteps(0x50 | j)
  {}

  lemma Row6(j: bv8)
    requires j < 16
    ensures ROW_6[j as int] == EightSteps(0x60 | j)
  {}

  lemma Row7(j: bv8)
    requires j < 16
    ensures ROW_7[j as int] == EightSteps(0x70 | j)
  {}

  lemma Row8(j: bv8)
    requires j < 16
    ensures ROW_8[j as int] == EightSteps(0x80 | j)
  {}

  lemma Row9(j: bv8)
    requires j < 16
    ensures ROW_9[j as int] == EightSteps(0x90 | j)
  {}

  lemma RowA(j: bv8)
    requires j < 16
    ensures ROW_A[j as int] == EightSteps(0xA0 | j)
  {}

  lemma RowB(j: bv8)
    requires j < 16
    ensures ROW_B[j as int] == EightSteps(0xB0 | j)
  {}

  lemma RowC(j: bv8)
    requires j < 16
    ensures ROW_C[j as int] == EightSteps(0xC0 | j)
  {}

  lemma RowD(j: bv8)
    requires j < 16
    ensures ROW_D[j as int] == EightSteps(0xD0 | j)
  {}

  lemma RowE(j: bv8)
    requires j < 16
    ensures ROW_E[j as int] == EightSteps(0xE0 | j)
  {}

  lemma RowF(j: bv8)
    requires j < 16
    ensures ROW_F[j as int] == EightSteps(0xF0 | j)
  {}

  function Entry(x: bv8): bv8 { DSCRC_TABLE[(x >> 4) as int][(x & 0xF) as int] }

  /** The row and column of an index. */
  lemma Split(x: bv8)
    ensures (x >> 4) < 16 && (x & 0xF) < 16 && ((x >> 4) << 4) | (x & 0xF) == x
  {}

  lemma RowOf(h: bv8, j: bv8)
    requires h < 16 && j < 16
    ensures DSCRC_TABLE[h as int][j as int] == EightSteps((h << 4) | j)
  {
    hide EightSteps;
    if h == 0 { Row0(j); } else if h == 1 { Row1(j); } else if h == 2 { Row2(j); } else if h == 3 { Row3(j); }
    else if h == 4 { Row4(j); } else if h == 5 { Row5(j); } else if h == 6 { Row6(j); } else if h == 7 { Row7(j); }
    else if h == 8 { Row8(j); } else if h == 9 { Row9(j); } else if h == 10 { RowA(j); } else if h == 11 { RowB(j); }
    else if h == 12 { RowC(j); } else if h == 13 { RowD(j); } else if h == 14 { RowE(j); } else { RowF(j); }
  }

  /** Every entry of the table is eight bit steps. */
  lemma TableIsByteStep(c: bv8, d: bv8)
    ensures Entry(c ^ d) == ByteStep(c, d)
  {
    hide EightSteps, BitSteps;
    Split(c ^ d);
    RowOf((c ^ d) >> 4, (c ^ d) & 0xF);
    UnrollBits(c ^ d);
  }

  // ---------- what the CRC tells apart ----------

  function UnBitStep(c: bv8): bv8 { if c >= 0x80 then ((c ^ 0x8C) << 1) | 1 else c << 1 }

  lemma BitStepForth(c: bv8)
    ensures UnBitStep(BitStep(c)) == c
  {}

  lemma {:induction false} BitStepsInjective(c: bv8, d: bv8, n: nat)
    requires BitSteps(c, n) == BitSteps(d, n)
    ensures c == d
    decreases n
  {
    if n > 0 {
      BitStepsInjective(BitStep(c), BitStep(d), n - 1);
      BitStepForth(c);
      BitStepForth(d);
    }
  }

  lemma XorCancel(a: bv8, c: bv8, d: bv8)
    requires a ^ c == a ^ d
    ensures c == d
  {}

  lemma XorCancelLeft(a: bv8, b: bv8, d: bv8)
    requires a ^ d == b ^ d
    ensures a == b
  {}

  lemma ByteStepSeed(a: bv8, b: bv8, d: bv8)
    requires ByteStep(a, d) == ByteStep(b, d)
    ensures a == b
  {
    hide BitSteps;
    BitStepsInjective(a ^ d, b ^ d, 8);
    XorCancelLeft(a, b, d);
  }

  lemma ByteStepData(c: bv8, d: bv8, e: bv8)
    requires ByteStep(c, d) == ByteStep(c, e)
    ensures d == e
  {
    hide BitSteps;
    BitStepsInjective(c ^ d, c ^ e, 8);
    XorCancel(c, d, e);
  }

  lemma ByteStepZero(c: bv8, d: bv8)
    ensures ByteStep(c, d) == 0 <==> d == c
  {
    hide BitSteps, EightSteps;
    XorSelf(c, d);
    UnrollBits(0);
    ZeroStays();
    if ByteStep(c, d) == 0 {
      BitStepsInjective(c ^ d, 0, 8);
    }
  }

  /** The update is injective in the seed. */
  lemma {:induction false} CrcInjective(s: bv8, s': bv8, data: seq<bv8>)
    requires Crc(s, data) == Crc(s', data)
    ensures s == s'
    decreases |data|
  {
    hide ByteStep;
    if data != [] {
      var init, d := data[..|data| - 1], Last(data);
      ByteStepSeed(Crc(s, init), Crc(s', init), d);
      CrcInjective(s, s', init);
    }
  }

  /** Changing exactly one byte always changes the CRC. */
  lemma {:induction false} OneByteChanges(seed: bv8, data: seq<bv8>, i: nat, b: bv8)
    requires i < |data| && data[i] != b
    ensures Crc(seed, data[i := b]) != Crc(seed, data)
    decreases |data|
  {
    hide ByteStep;
    var n := |data| - 1;
    var changed := data[i := b];
    if Crc(seed, changed) == Crc(seed, data) {
      if i == n {
        assert changed[..n] == data[..n];
        ByteStepData(Crc(seed, data[..n]), b, data[n]);
      } else {
        assert changed[..n] == data[..n][i := b];
        ByteStepSeed(Crc(seed, changed[..n]), Crc(seed, data[..n]), data[n]);
        OneByteChanges(seed, data[..n], i, b);
      }
    }
  }

  lemma XorSelf(c: bv8, d: bv8)
    ensures c ^ d == 0 <==> d == c
  {}

  lemma ZeroStays()
    ensures EightSteps(0) == 0
  {}

  /** A ROM code is accepted exactly if its last byte is the CRC of the others: the whole then has CRC 0. */
  lemma ZeroIff(seed: bv8, body: seq<bv8>, last: bv8)
    ensures Crc(seed, body + [last]) == 0 <==> last == Crc(seed, body)
  {
    hide ByteStep;
    assert (body + [last])[..|body|] == body;
    ByteStepZero(Crc(seed, body), last);
  }

  // ---------- the implementation ----------

  /** full_crc8. */
  method FullCrc8(data: seq<bv8>, seed: bv8) returns (crc: bv8)
    ensures crc == Crc(seed, data)
  {
    hide Entry, ByteStep;
    crc := seed;
    for i := 0 to |data|
      invariant crc == Crc(seed, data[..i])
    {
      TableIsByteStep(crc, data[i]);
      assert data[..i + 1][..i] == data[..i];
      crc := Entry(crc ^ data[i]);
    }
    assert data[..|data|] == data;
  }

  /** The client's running CRC, one per port. */
  class CrcUtil8 {
    const utilcrc8: array<bv8>

    constructor (ports: nat)
      ensures fresh(utilcrc8) && utilcrc8.Length == ports
    {
      utilcrc8 := new bv8[ports](_ => 0);
    }

    method SetCrc8(portnum: nat, reset: bv8)
      requires portnum % 256 < utilcrc8.Length
      modifies utilcrc8
      ensures utilcrc8[..] == old(utilcrc8[..])[portnum % 256 := reset]
    {
      utilcrc8[portnum % 256] := reset;
    }

    method DoCrc8(portnum: nat, x: bv8) returns (crc: bv8)
      requires portnum % 256 < utilcrc8.Length
      modifies utilcrc8
      ensures crc == ByteStep(old(utilcrc8[portnum % 256]), x)
      ensures utilcrc8[..] == old(utilcrc8[..])[portnum % 256 := crc]
    {
      hide Entry, ByteStep;
      var port := portnum % 256;
      TableIsByteStep(utilcrc8[port], x);
      utilcrc8[port] := Entry(utilcrc8[port] ^ x);
      return utilcrc8[port];
    }
  }
}

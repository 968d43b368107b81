/**
 * The CRC16 of crcutil.c: the parity-trick update that both ends of the link use, and the
 * bit-by-bit reflected CRC (polynomial 0xA001) it stands for.
 */
module Crc16 {
  import opened Bytes

  function Word(b: bv8): bv16 { b as bv16 }

  function LowByte(w: bv16): bv8 { (w & 0xFF) as bv8 }

  function HighByte(w: bv16): bv8 { (w >> 8) as bv8 }

  /** The two bytes a packet ends with: the complement of its CRC, low byte first. */
  function CheckLow(crc: bv16): bv8 { LowByte(!crc) }

  function CheckHigh(crc: bv16): bv8 { HighByte(!crc) }

  lemma WordInjective(x: bv8, y: bv8)
    requires Word(x) == Word(y)
    ensures x == y
  {}

  lemma WordRange(b: bv8)
    ensures Word(b) < 256 && Word(b) & 0xFF == Word(b)
  {}

  // ---------- the reference CRC ----------

  /** One bit of the reflected CRC. */
  function BitStep(c: bv16): bv16 { if c & 1 == 1 then (c >> 1) ^ 0xA001 else c >> 1 }

  function BitSteps(c: bv16, n: nat): bv16
    decreases n, c
  {
    if n == 0 then c else BitSteps(BitStep(c), n - 1)
  }

  /** The CRC with one more byte. */
  function ByteStep(c: bv16, d: bv16): bv16 { BitSteps(c ^ d, 8) }

  /** The bit-by-bit CRC of a byte string. */
  function Crc(seed: bv16, data: seq<bv8>): bv16 {
    if data == [] then seed else ByteStep(Crc(seed, data[..|data| - 1]), Word(Last(data)))
  }

  lemma {:induction false} CrcConcat(seed: bv16, a: seq<bv8>, b: seq<bv8>)
    ensures Crc(seed, a + b) == Crc(Crc(seed, a), b)
  {
    if b == [] {
      assert a + b == a;
    } else {
      var b' := b[..|b| - 1];
      assert (a + b)[..|a + b| - 1] == a + b';
      CrcConcat(seed, a, b');
    }
  }

  // ---------- running the CRC backwards ----------

  function UnBitStep(c: bv16): bv16 { if c >= 0x8000 then ((c ^ 0xA001) << 1) | 1 else c << 1 }

  function UnBitSteps(c: bv16, n: nat): bv16
    decreases n, c
  {
    if n == 0 then c else UnBitStep(UnBitSteps(c, n - 1))
  }

  function UnByteStep(c: bv16, d: bv16): bv16 { UnBitSteps(c, 8) ^ d }

  /** The seed from which `data` leads to `crc`. */
  function CrcBack(crc: bv16, data: seq<bv8>): bv16
    decreases |data|
  {
    if data == [] then crc else CrcBack(UnByteStep(crc, Word(Last(data))), data[..|data| - 1])
  }

  lemma BitStepForth(c: bv16)
    ensures UnBitStep(BitStep(c)) == c
  {}

  lemma BitStepOdd(c: bv16)
    requires c >= 0x8000
    ensures BitStep(((c ^ 0xA001) << 1) | 1) == c
  {}

  lemma BitStepEven(c: bv16)
    requires c < 0x8000
    ensures BitStep(c << 1) == c
  {}

  lemma BitStepBack(c: bv16)
    ensures BitStep(UnBitStep(c)) == c
  {
    if c >= 0x8000 { BitStepOdd(c); } else { BitStepEven(c); }
  }

  /** Any number of bit steps is a bijection on CRC values. */
  lemma {:induction false} BitStepsForth(c: bv16, n: nat)
    ensures UnBitSteps(BitSteps(c, n), n) == c
    decreases n
  {
    if n > 0 {
      BitStepsForth(BitStep(c), n - 1);
      BitStepForth(c);
    }
  }

  lemma {:induction false} BitStepsBack(c: bv16, n: nat)
    ensures BitSteps(UnBitSteps(c, n), n) == c
    decreases n
  {
    if n > 0 {
      BitStepBack(UnBitSteps(c, n - 1));
      BitStepsBack(c, n - 1);
    }
  }

  lemma ByteStepBijection(c: bv16, d: bv16)
    ensures UnByteStep(ByteStep(c, d), d) == c && ByteStep(UnByteStep(c, d), d) == c
  {
    BitStepsForth(c ^ d, 8);
    BitStepsBack(c, 8);
    XorTwice(c, d);
    XorTwice(UnBitSteps(c, 8), d);
  }

  lemma XorTwice(c: bv16, d: bv16)
    ensures (c ^ d) ^ d == c
  {}

  lemma XorCancel(c: bv16, d: bv16, e: bv16)
    requires c ^ d == c ^ e
    ensures d == e
  {}

  /** For every byte string the CRC update is a bijection in the seed. */
  lemma {:induction false} CrcBijection(s: bv16, data: seq<bv8>)
    ensures CrcBack(Crc(s, data), data) == s && Crc(CrcBack(s, data), data) == s
    decreases |data|
  {
    if data != [] {
      var data', d := data[..|data| - 1], Word(Last(data));
      CrcBijection(s, data');
      ByteStepBijection(Crc(s, data'), d);
      CrcBijection(UnByteStep(s, d), data');
      ByteStepBijection(s, d);
    }
  }

  lemma CrcInjective(s: bv16, s': bv16, data: seq<bv8>)
    requires Crc(s, data) == Crc(s', data)
    ensures s == s'
  {
    CrcBijection(s, data);
    CrcBijection(s', data);
  }

  /** From one CRC value, two different bytes lead to two different CRC values. */
  lemma ByteStepInjective(c: bv16, d: bv16, e: bv16)
    requires ByteStep(c, d) == ByteStep(c, e)
    ensures d == e
  {
    BitStepsForth(c ^ d, 8);
    BitStepsForth(c ^ e, 8);
    XorCancel(c, d, e);
  }

  function EightSteps(c: bv16): bv16 {
    BitStep(BitStep(BitStep(BitStep(BitStep(BitStep(BitStep(BitStep(c))))))))
  }

  lemma UnrollBits(c: bv16)
    ensures BitSteps(c, 8) == EightSteps(c)
  {
    var c1 := BitStep(c);
    var c2 := BitStep(c1);
    var c3 := BitStep(c2);
    var c4 := BitStep(c3);
    var c5 := BitStep(c4);
    var c6 := BitStep(c5);
    assert BitSteps(c, 8) == BitSteps(c1, 7) == BitSteps(c2, 6);
    assert BitSteps(c2, 6) == BitSteps(c3, 5) == BitSteps(c4, 4);
    assert BitSteps(c4, 4) == BitSteps(c5, 3) == BitSteps(c6, 2);
    assert BitSteps(c6, 2) == BitSteps(BitStep(c6), 1) == BitStep(BitStep(c6));
  }

  /** Only one value reaches 0xB001 in eight steps. */
  lemma LastByte(z: bv16)
    ensures BitSteps(z, 8) == 0xB001 <==> z == 0x40BF
  {
    UnrollBits(0x40BF);
    assert EightSteps(0x40BF) == 0xB001;
    if BitSteps(z, 8) == 0xB001 {
      BitStepsForth(z, 8);
      BitStepsForth(0x40BF, 8);
    }
  }

  lemma SplitLast(x: bv16, hi: bv8)
    ensures x ^ Word(hi) == 0x40BF <==> x >> 8 == 0x40 && x & 0xFF == Word(hi) ^ 0xBF
  {}

  lemma LastStep(x: bv16, hi: bv8)
    ensures ByteStep(x, Word(hi)) == 0xB001 <==> x >> 8 == 0x40 && x & 0xFF == Word(hi) ^ 0xBF
  {
    LastByte(x ^ Word(hi));
    SplitLast(x, hi);
  }

  lemma EightStepsHalves(z: bv16)
    ensures EightSteps(z) >> 8 == 0x40 <==> z & 0xFF == 0xFF
    ensures z & 0xFF == 0xFF ==> EightSteps(z) & 0xFF == (z >> 8) ^ 0x40
  {}

  lemma LowComplement(c: bv16, lo: bv8)
    ensures (c ^ Word(lo)) & 0xFF == 0xFF <==> lo == CheckLow(c)
    ensures (c ^ Word(lo)) >> 8 == c >> 8
  {}

  lemma FirstStep(c: bv16, lo: bv8)
    ensures ByteStep(c, Word(lo)) >> 8 == 0x40 <==> lo == CheckLow(c)
    ensures lo == CheckLow(c) ==> ByteStep(c, Word(lo)) & 0xFF == (c >> 8) ^ 0x40
  {
    UnrollBits(c ^ Word(lo));
    EightStepsHalves(c ^ Word(lo));
    LowComplement(c, lo);
  }

  lemma HighComplement(c: bv16, hi: bv8)
    ensures (c >> 8) ^ 0x40 == Word(hi) ^ 0xBF <==> hi == CheckHigh(c)
  {}

  /** Two bytes bring CRC `c` to 0xB001 exactly when they are its complement, low byte first. */
  lemma Residue(c: bv16, lo: bv8, hi: bv8)
    ensures ByteStep(ByteStep(c, Word(lo)), Word(hi)) == 0xB001 <==> lo == CheckLow(c) && hi == CheckHigh(c)
  {
    hide *;
    FirstStep(c, lo);
    LastStep(ByteStep(c, Word(lo)), hi);
    HighComplement(c, hi);
  }

  /** Changing exactly one byte always changes the CRC. */
  lemma {:induction false} OneByteChanges(seed: bv16, data: seq<bv8>, i: nat, b: bv8)
    requires i < |data| && data[i] != b
    ensures Crc(seed, data[i := b]) != Crc(seed, data)
  {
    var pre, post := data[..i], data[i + 1..];
    var c := Crc(seed, pre);
    assert data == (pre + [data[i]]) + post && data[i := b] == (pre + [b]) + post;
    CrcConcat(seed, pre + [data[i]], post);
    CrcConcat(seed, pre + [b], post);
    assert (pre + [data[i]])[..i] == pre && (pre + [b])[..i] == pre;
    if Crc(seed, data[i := b]) == Crc(seed, data) {
      CrcInjective(ByteStep(c, Word(b)), ByteStep(c, Word(data[i])), post);
      ByteStepInjective(c, Word(b), Word(data[i]));
      WordInjective(b, data[i]);
    }
  }

  // ---------- the implementation ----------

  const ODD_PARITY: seq<bv16> := [0, 1, 1, 0, 1, 0, 0, 1, 1, 0, 0, 1, 0, 1, 1, 0]

  /** crc16_iter: the table gives the parity of each nibble. */
  function Crc16Iter(seed: bv16, cdata: bv16): bv16 {
    var c := (cdata ^ (seed & 0xFF)) & 0xFF;
    Mix(seed >> 8, c, ODD_PARITY[(c & 0xF) as int] ^ ODD_PARITY[(c >> 4) as int])
  }

  /** The shifts and exclusive ors of crc16_iter, once the parity of `c` is known. */
  function Mix(s: bv16, c: bv16, odd: bv16): bv16 {
    (if odd != 0 then s ^ 0xC001 else s) ^ (c << 6) ^ (c << 7)
  }

  function Parity4(x: bv16): bv16 { (x ^ (x >> 1) ^ (x >> 2) ^ (x >> 3)) & 1 }

  lemma OddParity(x: bv16)
    requires x < 16
    ensures ODD_PARITY[x as int] == Parity4(x)
  {}

  lemma MixIsEightSteps(x: bv16)
    ensures Mix(x >> 8, x & 0xFF, Parity4(x & 0xF) ^ Parity4((x & 0xFF) >> 4)) == EightSteps(x)
  {}

  lemma SplitXor(seed: bv16, cdata: bv16)
    ensures var x := seed ^ (cdata & 0xFF); x >> 8 == seed >> 8 && x & 0xFF == (cdata ^ (seed & 0xFF)) & 0xFF
    ensures var x := seed ^ (cdata & 0xFF); x & 0xF == ((cdata ^ (seed & 0xFF)) & 0xFF) & 0xF
  {}

  /** The parity trick is the bit-by-bit CRC of the low byte of its argument. */
  lemma Crc16IterIsByteStep(seed: bv16, cdata: bv16)
    ensures Crc16Iter(seed, cdata) == ByteStep(seed, cdata & 0xFF)
  {
    var c := (cdata ^ (seed & 0xFF)) & 0xFF;
    OddParity(c & 0xF);
    OddParity(c >> 4);
    SplitXor(seed, cdata);
    MixIsEightSteps(seed ^ (cdata & 0xFF));
    UnrollBits(seed ^ (cdata & 0xFF));
  }

  /** full_crc16. */
  method FullCrc16(data: seq<bv8>, seed: bv16) returns (crc: bv16)
    ensures crc == Crc(seed, data)
  {
    crc := seed;
    for i := 0 to |data|
      invariant crc == Crc(seed, data[..i])
    {
      Crc16IterIsByteStep(crc, Word(data[i]));
      WordRange(data[i]);
      assert data[..i + 1][..i] == data[..i];
      crc := Crc16Iter(crc, Word(data[i]));
    }
    assert data[..|data|] == data;
  }

  /** The client's running CRC, one per port. */
  class CrcUtil {
    const utilcrc16: array<bv16>

    constructor (ports: nat)
      ensures fresh(utilcrc16) && utilcrc16.Length == ports
    {
      utilcrc16 := new bv16[ports](_ => 0);
    }

    method SetCrc16(portnum: nat, reset: bv16)
      requires portnum % 256 < utilcrc16.Length
      modifies utilcrc16
      ensures utilcrc16[..] == old(utilcrc16[..])[portnum % 256 := reset]
    {
      utilcrc16[portnum % 256] := reset;
    }

    method DoCrc16(portnum: nat, cdata: bv16) returns (crc: bv16)
      requires portnum % 256 < utilcrc16.Length
      modifies utilcrc16
      ensures crc == ByteStep(old(utilcrc16[portnum % 256]), cdata & 0xFF)
      ensures utilcrc16[..] == old(utilcrc16[..])[portnum % 256 := crc]
    {
      var port := portnum % 256;
      Crc16IterIsByteStep(utilcrc16[port], cdata);
      utilcrc16[port] := Crc16Iter(utilcrc16[port], cdata);
      return utilcrc16[port];
    }
  }
}

/**
 * ComputeSHAEE of ibsha33o.c: the SHA-1 rounds with an 80-word schedule in 64-bit `long`s that are
 * never masked, without the final addition of the initial constants.
 */
module ShaEE {
  import opened Sha1Spec

  /** The low 32 bits of a `long`. */
  function Low(x: bv64): bv32 { (x & 0xFFFF_FFFF) as bv32 }

  function Wide(w: bv32): bv64 { w as bv64 }

  // ---------- single operations on wide words ----------

  lemma LowWideBits(w: bv32)
    ensures ((w as bv64) & 0xFFFF_FFFF) as bv32 == w
  {}

  lemma LowWide(w: bv32)
    ensures Low(Wide(w)) == w
  {
    LowWideBits(w);
  }

  /** Rotation by one, by five and by thirty, as the code writes them. */
  function Rot1(x: bv64): bv64 { ((x << 1) & 0xfffffffe) | ((x >> 31) & 0x00000001) }

  function Rot5(x: bv64): bv64 { ((x << 5) & 0xffffffe0) | ((x >> 27) & 0x0000001f) }

  function Rot30(x: bv64): bv64 { ((x << 30) & 0xc0000000) | ((x >> 2) & 0x3fffffff) }

  lemma Rot1Bits(x: bv64)
    ensures var w := (x & 0xFFFF_FFFF) as bv32;
            ((x << 1) & 0xfffffffe) | ((x >> 31) & 0x00000001) == ((w << 1) | (w >> 31)) as bv64
  {}

  lemma Rot5Bits(x: bv64)
    ensures var w := (x & 0xFFFF_FFFF) as bv32;
            ((x << 5) & 0xffffffe0) | ((x >> 27) & 0x0000001f) == ((w << 5) | (w >> 27)) as bv64
  {}

  lemma Rot30Bits(x: bv64)
    ensures var w := (x & 0xFFFF_FFFF) as bv32;
            ((x << 30) & 0xc0000000) | ((x >> 2) & 0x3fffffff) == ((w << 30) | (w >> 2)) as bv64
  {}

  lemma Xor4Bits(a: bv32, b: bv32, c: bv32, d: bv32)
    ensures (((a as bv64) ^ (b as bv64) ^ (c as bv64) ^ (d as bv64)) & 0xFFFF_FFFF) as bv32 == a ^ b ^ c ^ d
  {}

  lemma ChLow(b: bv64, c: bv64, d: bv64)
    ensures (((b & c) | (!b & d)) & 0xFFFF_FFFF) as bv32
         == (((b & 0xFFFF_FFFF) as bv32) & ((c & 0xFFFF_FFFF) as bv32))
             ^ (!((b & 0xFFFF_FFFF) as bv32) & ((d & 0xFFFF_FFFF) as bv32))
  {}

  lemma ParityLow(b: bv64, c: bv64, d: bv64)
    ensures ((b ^ c ^ d) & 0xFFFF_FFFF) as bv32
            == ((b & 0xFFFF_FFFF) as bv32) ^ ((c & 0xFFFF_FFFF) as bv32) ^ ((d & 0xFFFF_FFFF) as bv32)
  {}

  lemma MajLow(b: bv64, c: bv64, d: bv64)
    ensures var x, y, z := (b & 0xFFFF_FFFF) as bv32, (c & 0xFFFF_FFFF) as bv32, (d & 0xFFFF_FFFF) as bv32;
            (((b & c) | (b & d) | (c & d)) & 0xFFFF_FFFF) as bv32 == (x & y) ^ (x & z) ^ (y & z)
  {}

  // ---------- the round in wide words ----------

  lemma LowIs(x: bv64)
    ensures Low(x) == (x & 0xFFFF_FFFF) as bv32
  {}

  lemma LowSumBits(f: bv64, e: bv64, k: bv64, m: bv64, r: bv64)
    ensures Low(f + e + k + m + r)
         == Sum5((r & 0xFFFF_FFFF) as bv32, (f & 0xFFFF_FFFF) as bv32, (e & 0xFFFF_FFFF) as bv32,
                 (k & 0xFFFF_FFFF) as bv32, (m & 0xFFFF_FFFF) as bv32)
  {}

  /** NLF + E + KTN + MTword + ShftTmp, in that order. */
  function SumL(f: bv64, e: bv64, k: bv64, m: bv64, r: bv64): bv64 { f + e + k + m + r }

  lemma LowSum(f: bv64, e: bv64, k: bv64, m: bv64, r: bv64)
    ensures Low(SumL(f, e, k, m, r)) == Sum5(Low(r), Low(f), Low(e), Low(k), Low(m))
  {
    hide Low, Sum5;
    LowIs(r);
    LowIs(f);
    LowIs(e);
    LowIs(k);
    LowIs(m);
    LowSumBits(f, e, k, m, r);
  }

  /** KTN. */
  function KTN(n: nat): bv64 {
    if n < 20 then 0x5a827999 else if n < 40 then 0x6ed9eba1 else if n < 60 then 0x8f1bbcdc else 0xca62c1d6
  }

  lemma LowKTN(n: nat)
    ensures Low(KTN(n)) == K(n)
  {}

  function ChL(b: bv64, c: bv64, d: bv64): bv64 { (b & c) | (!b & d) }

  function ParityL(b: bv64, c: bv64, d: bv64): bv64 { b ^ c ^ d }

  function MajL(b: bv64, c: bv64, d: bv64): bv64 { (b & c) | (b & d) | (c & d) }

  /** NLF. */
  function NLF(b: bv64, c: bv64, d: bv64, n: nat): bv64 {
    if n < 20 then ChL(b, c, d)
    else if n < 40 then ParityL(b, c, d)
    else if n < 60 then MajL(b, c, d)
    else ParityL(b, c, d)
  }

  lemma LowCh(b: bv64, c: bv64, d: bv64)
    ensures Low(ChL(b, c, d)) == Ch(Low(b), Low(c), Low(d))
  {
    ChLow(b, c, d);
  }

  lemma LowParity(b: bv64, c: bv64, d: bv64)
    ensures Low(ParityL(b, c, d)) == Parity(Low(b), Low(c), Low(d))
  {
    ParityLow(b, c, d);
  }

  lemma LowMaj(b: bv64, c: bv64, d: bv64)
    ensures Low(MajL(b, c, d)) == Maj(Low(b), Low(c), Low(d))
  {
    MajLow(b, c, d);
  }

  lemma LowNLF(b: bv64, c: bv64, d: bv64, n: nat)
    ensures Low(NLF(b, c, d, n)) == F(n, Low(b), Low(c), Low(d))
  {
    hide Low, Ch, Parity, Maj, ChL, ParityL, MajL;
    if n < 20 {
      LowCh(b, c, d);
    } else if n < 40 || n >= 60 {
      LowParity(b, c, d);
    } else {
      LowMaj(b, c, d);
    }
  }

  lemma RotlShapes(w: bv32)
    ensures Rotl(w, 1) == (w << 1) | (w >> 31) && Rotl(w, 5) == (w << 5) | (w >> 27)
    ensures Rotl(w, 30) == (w << 30) | (w >> 2)
  {}

  lemma Rot1Is(x: bv64)
    ensures Rot1(x) == Wide(Rotl(Low(x), 1))
  {
    RotlShapes(Low(x));
    Rot1Bits(x);
  }

  lemma Rot5Is(x: bv64)
    ensures Rot5(x) == Wide(Rotl(Low(x), 5))
  {
    RotlShapes(Low(x));
    Rot5Bits(x);
  }

  lemma Rot30Is(x: bv64)
    ensures Rot30(x) == Wide(Rotl(Low(x), 30))
  {
    RotlShapes(Low(x));
    Rot30Bits(x);
  }

  // ---------- the schedule and the rounds ----------

  function XorL(a: bv64, b: bv64, c: bv64, d: bv64): bv64 { a ^ b ^ c ^ d }

  lemma LowXor(a: bv32, b: bv32, c: bv32, d: bv32)
    ensures Low(XorL(Wide(a), Wide(b), Wide(c), Wide(d))) == Xor4(a, b, c, d)
  {
    Xor4Bits(a, b, c, d);
  }

  /** The first `n` words of the schedule, zero-extended. */
  ghost predicate Scheduled(words: seq<bv64>, block: Block, n: nat) {
    |words| == 80 && forall t :: 0 <= t < n <= 80 ==> words[t] == Wide(W(block, t))
  }

  /** The working variables seen through their low halves. */
  function LowVars(a: bv64, b: bv64, c: bv64, d: bv64, e: bv64): Vars {
    Vars(Low(a), Low(b), Low(c), Low(d), Low(e))
  }

  lemma ScheduleNext(words: seq<bv64>, block: Block, i: nat)
    requires 16 <= i < 80 && Scheduled(words, block, i)
    ensures Scheduled(words[i := Rot1(XorL(words[i - 3], words[i - 8], words[i - 14], words[i - 16]))], block, i + 1)
  {
    hide Low, Wide, XorL, Xor4, Rot1, Rotl;
    LowXor(W(block, i - 3), W(block, i - 8), W(block, i - 14), W(block, i - 16));
    Rot1Is(XorL(words[i - 3], words[i - 8], words[i - 14], words[i - 16]));
  }

  /** One round on wide words is one round of FIPS 180-2 on their low halves. */
  lemma WideRound(block: Block, i: nat, word: bv64, a: bv64, b: bv64, c: bv64, d: bv64, e: bv64)
    requires word == Wide(W(block, i))
    ensures LowVars(SumL(NLF(b, c, d, i), e, KTN(i), word, Rot5(a)), a, Rot30(b), c, d)
         == Round(block, i, LowVars(a, b, c, d, e))
  {
    hide Low, Wide, Rotl, Rot5, Rot30, SumL, Sum5, NLF, KTN, F, K, W;
    LowSum(NLF(b, c, d, i), e, KTN(i), word, Rot5(a));
    LowNLF(b, c, d, i);
    LowKTN(i);
    LowWide(W(block, i));
    Rot5Is(a);
    LowWide(Rotl(Low(a), 5));
    Rot30Is(b);
    LowWide(Rotl(Low(b), 30));
  }

  lemma InitialLow()
    ensures LowVars(0x67452301, 0xefcdab89, 0x98badcfe, 0x10325476, 0xc3d2e1f0) == INITIAL
  {}

  /** The 80-word schedule of a 64-byte block. */
  method Schedule(mt: seq<bv8>) returns (words: seq<bv64>)
    requires |mt| == 64
    ensures Scheduled(words, WordsOf(mt), 80)
  {
    hide Wide, W, WordOf, XorL, Rot1;
    ghost var block := WordsOf(mt);
    var mtWord := new bv64[80](_ => 0);
    for i := 0 to 16
      invariant Scheduled(mtWord[..], block, i)
    {
      FirstWords(block, i);
      mtWord[i] := Wide(WordOf(mt[i * 4], mt[i * 4 + 1], mt[i * 4 + 2], mt[i * 4 + 3]));
    }
    for i := 16 to 80
      invariant Scheduled(mtWord[..], block, i)
    {
      ghost var before := mtWord[..];
      ScheduleNext(before, block, i);
      mtWord[i] := Rot1(XorL(mtWord[i - 3], mtWord[i - 8], mtWord[i - 14], mtWord[i - 16]));
      assert mtWord[..] == before[i := mtWord[i]];
    }
    words := mtWord[..];
  }

  lemma FirstWords(block: Block, i: nat)
    requires i < 16
    ensures W(block, i) == block[i]
  {}

  lemma RoundsStart(block: Block, v: Vars)
    ensures Rounds(block, 0, v) == v
  {}

  lemma RoundsNext(block: Block, i: nat, v: Vars)
    ensures Rounds(block, i + 1, v) == Round(block, i, Rounds(block, i, v))
  {}

  /** ComputeSHAEE: the low halves of its results are the working variables after the 80 rounds. */
  method ComputeSHAEE(mt: seq<bv8>) returns (a: bv64, b: bv64, c: bv64, d: bv64, e: bv64)
    requires |mt| == 64
    ensures LowVars(a, b, c, d, e) == Rounds(WordsOf(mt), 80, INITIAL)
    ensures AddVars(INITIAL, LowVars(a, b, c, d, e)) == HashBlocks(mt)
  {
    hide Low, Wide, W, Rounds, Round, LowVars, NLF, KTN, SumL, Rot5, Rot30, WordsOf, Add;
    ghost var block := WordsOf(mt);
    var mtWord := Schedule(mt);
    a, b, c, d, e := 0x67452301, 0xefcdab89, 0x98badcfe, 0x10325476, 0xc3d2e1f0;
    InitialLow();
    RoundsStart(block, INITIAL);
    for i := 0 to 80
      invariant LowVars(a, b, c, d, e) == Rounds(block, i, INITIAL)
    {
      WideRound(block, i, mtWord[i], a, b, c, d, e);
      RoundsNext(block, i, INITIAL);
      var shftTmp := Rot5(a);
      var temp := SumL(NLF(b, c, d, i), e, KTN(i), mtWord[i], shftTmp);
      e := d;
      d := c;
      c := Rot30(b);
      b := a;
      a := temp;
    }
    OneBlock(mt);
  }

  lemma OneBlock(mt: seq<bv8>)
    requires |mt| == 64
    ensures HashBlocks(mt) == AddVars(INITIAL, Rounds(WordsOf(mt), 80, INITIAL))
  {
    hide Rounds, WordsOf, Add;
    assert mt[..|mt| - 64] == [] && mt[|mt| - 64..] == mt;
  }
}

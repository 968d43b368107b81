/** The byte-streaming SHA-1 and HMAC of sha1.c, on a little-endian machine. */
module Sha1 {
  import opened Bits
  import opened Sha1Spec

  // ---------- the rewritten round functions ----------

  function ChCode(b: bv32, c: bv32, d: bv32): bv32 { d ^ (b & (c ^ d)) }

  function MajCode(b: bv32, c: bv32, d: bv32): bv32 { (b & c) | (d & (b | c)) }

  lemma ChBits(b: bv32, c: bv32, d: bv32)
    ensures d ^ (b & (c ^ d)) == (b & c) ^ (!b & d)
  {}

  lemma MajBits(b: bv32, c: bv32, d: bv32)
    ensures (b & c) | (d & (b | c)) == (b & c) ^ (b & d) ^ (c & d)
  {}

  lemma ChForm(b: bv32, c: bv32, d: bv32)
    ensures ChCode(b, c, d) == Ch(b, c, d)
  {
    ChBits(b, c, d);
  }

  lemma MajForm(b: bv32, c: bv32, d: bv32)
    ensures MajCode(b, c, d) == Maj(b, c, d)
  {
    MajBits(b, c, d);
  }

  /** The sum in the order the code adds it up. */
  function SumCode(f: bv32, k: bv32, r: bv32, e: bv32, w: bv32): bv32 { (f + k) + ((r + e) + w) }

  lemma SumForm(f: bv32, k: bv32, r: bv32, e: bv32, w: bv32)
    ensures SumCode(f, k, r, e, w) == Sum5(r, f, e, k, w)
  {}

  /** `t` after the round function and the constant, then the rest of the sum. */
  function RoundSum(i: nat, a: bv32, b: bv32, c: bv32, d: bv32, e: bv32, w: bv32): bv32 {
    var r := Rotl(a, 5);
    if i < 20 then SumCode(ChCode(b, c, d), 0x5a827999, r, e, w)
    else if i < 40 then SumCode(Parity(b, c, d), 0x6ed9eba1, r, e, w)
    else if i < 60 then SumCode(MajCode(b, c, d), 0x8f1bbcdc, r, e, w)
    else SumCode(Parity(b, c, d), 0xca62c1d6, r, e, w)
  }

  lemma RoundSumIs(i: nat, v: Vars, w: bv32)
    ensures RoundSum(i, v.a, v.b, v.c, v.d, v.e, w) == Sum5(Rotl(v.a, 5), F(i, v.b, v.c, v.d), v.e, K(i), w)
  {
    hide SumCode, Sum5, Rotl, ChCode, MajCode, Ch, Maj, Parity;
    ChForm(v.b, v.c, v.d);
    MajForm(v.b, v.c, v.d);
    SumForm(F(i, v.b, v.c, v.d), K(i), Rotl(v.a, 5), v.e, w);
  }

  /** The 16 words of the circular buffer are the latest 16 words of the schedule. */
  ghost predicate Window(buffer: seq<bv32>, block: Block, i: nat)
    requires |buffer| == 16
  {
    forall t {:trigger W(block, t)} :: (if i < 16 then 0 else i - 16) <= t < (if i < 16 then 16 else i) ==>
      buffer[t % 16] == W(block, t)
  }

  lemma WindowStep(buffer: seq<bv32>, block: Block, i: nat)
    requires |buffer| == 16 && 16 <= i && Window(buffer, block, i)
    ensures Rotl(Xor4(buffer[(i + 13) % 16], buffer[(i + 8) % 16], buffer[(i + 2) % 16], buffer[i % 16]), 1)
            == W(block, i)
    ensures Window(buffer[i % 16 := W(block, i)], block, i + 1)
  {
    hide Rotl, Xor4, W;
    SixteenApart(i);
    assert W(block, i - 3) == buffer[(i + 13) % 16];
    assert W(block, i - 8) == buffer[(i + 8) % 16];
    assert W(block, i - 14) == buffer[(i + 2) % 16];
    assert W(block, i - 16) == buffer[i % 16];
    ScheduleAt(block, i);
    var buffer' := buffer[i % 16 := W(block, i)];
    forall t | i - 15 <= t < i + 1
      ensures buffer'[t % 16] == W(block, t)
    {
      if t < i {
        DifferentPlace(t, i);
      }
    }
  }

  lemma ScheduleAt(block: Block, t: nat)
    requires 16 <= t
    ensures W(block, t) == Rotl(Xor4(W(block, t - 3), W(block, t - 8), W(block, t - 14), W(block, t - 16)), 1)
  {
    hide Rotl, Xor4;
  }

  lemma SixteenApart(i: nat)
    requires 16 <= i
    ensures (i - 3) % 16 == (i + 13) % 16 && (i - 8) % 16 == (i + 8) % 16
    ensures (i - 14) % 16 == (i + 2) % 16 && (i - 16) % 16 == i % 16
  {
    OnceAround(i - 3);
    OnceAround(i - 8);
    OnceAround(i - 14);
    OnceAround(i - 16);
  }

  lemma OnceAround(a: nat)
    ensures (a + 16) % 16 == a % 16
  {}

  lemma DifferentPlace(t: nat, i: nat)
    requires i < t + 16 && t < i
    ensures t % 16 != i % 16
  {}

  // ---------- words as bytes in little-endian memory ----------

  /** The word after its memory byte `lane` (bits 8 * lane and up) has been set. */
  function SetLane(w: bv32, lane: nat, x: bv8): bv32
    requires lane < 4
  {
    if lane == 0 then (w & 0xFFFFFF00) | (x as bv32)
    else if lane == 1 then (w & 0xFFFF00FF) | ((x as bv32) << 8)
    else if lane == 2 then (w & 0xFF00FFFF) | ((x as bv32) << 16)
    else (w & 0x00FFFFFF) | ((x as bv32) << 24)
  }

  /** Memory byte `lane` of a word. */
  function GetLane(w: bv32, lane: nat): bv8
    requires lane < 4
  {
    GetByte(w, 3 - lane)
  }

  lemma Lane0(w: bv32, x: bv8)
    ensures var v := (w & 0xFFFFFF00) | (x as bv32);
            && (v & 0xFF) as bv8 == x && ((v >> 8) & 0xFF) as bv8 == ((w >> 8) & 0xFF) as bv8
            && ((v >> 16) & 0xFF) as bv8 == ((w >> 16) & 0xFF) as bv8 && (v >> 24) as bv8 == (w >> 24) as bv8
  {}

  lemma Lane1(w: bv32, x: bv8)
    ensures var v := (w & 0xFFFF00FF) | ((x as bv32) << 8);
            && (v & 0xFF) as bv8 == (w & 0xFF) as bv8 && ((v >> 8) & 0xFF) as bv8 == x
            && ((v >> 16) & 0xFF) as bv8 == ((w >> 16) & 0xFF) as bv8 && (v >> 24) as bv8 == (w >> 24) as bv8
  {}

  lemma Lane2(w: bv32, x: bv8)
    ensures var v := (w & 0xFF00FFFF) | ((x as bv32) << 16);
            && (v & 0xFF) as bv8 == (w & 0xFF) as bv8 && ((v >> 8) & 0xFF) as bv8 == ((w >> 8) & 0xFF) as bv8
            && ((v >> 16) & 0xFF) as bv8 == x && (v >> 24) as bv8 == (w >> 24) as bv8
  {}

  lemma Lane3(w: bv32, x: bv8)
    ensures var v := (w & 0x00FFFFFF) | ((x as bv32) << 24);
            && (v & 0xFF) as bv8 == (w & 0xFF) as bv8 && ((v >> 8) & 0xFF) as bv8 == ((w >> 8) & 0xFF) as bv8
            && ((v >> 16) & 0xFF) as bv8 == ((w >> 16) & 0xFF) as bv8 && (v >> 24) as bv8 == x
  {}

  lemma SetGet0(w: bv32, x: bv8, j: nat)
    requires j < 4
    ensures GetByte(SetLane(w, 0, x), j) == if j == 3 then x else GetByte(w, j)
  {
    Lane0(w, x);
    if j == 0 {} else if j == 1 {} else if j == 2 {} else {}
  }

  lemma SetGet1(w: bv32, x: bv8, j: nat)
    requires j < 4
    ensures GetByte(SetLane(w, 1, x), j) == if j == 2 then x else GetByte(w, j)
  {
    Lane1(w, x);
    if j == 0 {} else if j == 1 {} else if j == 2 {} else {}
  }

  lemma SetGet2(w: bv32, x: bv8, j: nat)
    requires j < 4
    ensures GetByte(SetLane(w, 2, x), j) == if j == 1 then x else GetByte(w, j)
  {
    Lane2(w, x);
    if j == 0 {} else if j == 1 {} else if j == 2 {} else {}
  }

  lemma SetGet3(w: bv32, x: bv8, j: nat)
    requires j < 4
    ensures GetByte(SetLane(w, 3, x), j) == if j == 0 then x else GetByte(w, j)
  {
    Lane3(w, x);
    if j == 0 {} else if j == 1 {} else if j == 2 {} else {}
  }

  lemma SetGet(w: bv32, lane: nat, x: bv8, j: nat)
    requires lane < 4 && j < 4
    ensures GetByte(SetLane(w, lane, x), j) == if j == 3 - lane then x else GetByte(w, j)
  {
    hide GetByte, SetLane;
    SetGet0(w, x, j);
    SetGet1(w, x, j);
    SetGet2(w, x, j);
    SetGet3(w, x, j);
  }

  /** The buffer holds `bytes`, the most significant byte of each word first. */
  ghost predicate Holds(buffer: seq<bv32>, bytes: seq<bv8>) {
    && |buffer| == 16 && |bytes| <= 64
    && forall j :: 0 <= j < |bytes| ==> GetByte(buffer[j / 4], j % 4) == bytes[j]
  }

  /** Storing a byte at memory index `offset ^ 3` appends it to what the buffer holds. */
  lemma StoreAppends(buffer: seq<bv32>, bytes: seq<bv8>, x: bv8)
    requires Holds(buffer, bytes) && |bytes| < 64
    ensures var at := XorThree(|bytes|);
            Holds(buffer[at / 4 := SetLane(buffer[at / 4], at % 4, x)], bytes + [x])
  {
    hide GetByte, SetLane;
    var n := |bytes|;
    var at := XorThree(n);
    var buffer' := buffer[at / 4 := SetLane(buffer[at / 4], at % 4, x)];
    forall j | 0 <= j < n + 1
      ensures GetByte(buffer'[j / 4], j % 4) == (bytes + [x])[j]
    {
      if j / 4 == n / 4 {
        SetGet(buffer[n / 4], at % 4, x, j % 4);
      }
    }
  }

  /** `offset ^ 3`. */
  function XorThree(offset: nat): (at: nat)
    ensures at / 4 == offset / 4 && at % 4 == 3 - offset % 4
  {
    offset / 4 * 4 + (3 - offset % 4)
  }

  lemma FullBuffer(buffer: seq<bv32>, bytes: seq<bv8>)
    requires Holds(buffer, bytes) && |bytes| == 64
    ensures buffer == WordsOf(bytes)
  {
    hide GetByte, WordOf, Holds;
    assert |buffer| == 16 by { HeldSize(buffer, bytes); }
    forall i | 0 <= i < 16
      ensures buffer[i] == WordOf(bytes[4 * i], bytes[4 * i + 1], bytes[4 * i + 2], bytes[4 * i + 3])
    {
      WordOfBytes(buffer[i]);
      HeldByte(buffer, bytes, i, 0);
      HeldByte(buffer, bytes, i, 1);
      HeldByte(buffer, bytes, i, 2);
      HeldByte(buffer, bytes, i, 3);
    }
  }

  lemma HeldSize(buffer: seq<bv32>, bytes: seq<bv8>)
    requires Holds(buffer, bytes)
    ensures |buffer| == 16
  {}

  lemma HeldByte(buffer: seq<bv32>, bytes: seq<bv8>, i: nat, j: nat)
    requires Holds(buffer, bytes) && i < 16 && j < 4 && 4 * i + j < |bytes|
    ensures GetByte(buffer[i], j) == bytes[4 * i + j]
  {
    hide GetByte;
    assert (4 * i + j) / 4 == i && (4 * i + j) % 4 == j;
  }

  /** sha1_result's byte swap of a state word. */
  function Swap(w: bv32): bv32 {
    ((w << 24) & 0xff000000) | ((w << 8) & 0x00ff0000) | ((w >> 8) & 0x0000ff00) | ((w >> 24) & 0x000000ff)
  }

  lemma SwapBits(w: bv32)
    ensures var v :=
            ((w << 24) & 0xff000000) | ((w << 8) & 0x00ff0000) | ((w >> 8) & 0x0000ff00) | ((w >> 24) & 0x000000ff);
            && (v & 0xFF) as bv8 == (w >> 24) as bv8 && ((v >> 8) & 0xFF) as bv8 == ((w >> 16) & 0xFF) as bv8
            && ((v >> 16) & 0xFF) as bv8 == ((w >> 8) & 0xFF) as bv8 && (v >> 24) as bv8 == (w & 0xFF) as bv8
  {}

  function MemoryBytes(w: bv32): (s: seq<bv8>)
    ensures |s| == 4
  {
    [GetLane(w, 0), GetLane(w, 1), GetLane(w, 2), GetLane(w, 3)]
  }

  /** A swapped word lies in memory the way the digest wants it. */
  lemma SwappedMemory(w: bv32)
    ensures MemoryBytes(Swap(w)) == BytesOfWord(w)
  {
    SwapBits(w);
  }

  // ---------- the hash object ----------

  const BLOCK_LENGTH: nat := 64
  const HASH_LENGTH: nat := 20

  /** The bytes of `fed` that make up whole blocks. */
  function Whole(fed: seq<bv8>): (s: seq<bv8>)
    ensures |s| % 64 == 0
  {
    fed[..|fed| - |fed| % 64]
  }

  function Rest(fed: seq<bv8>): (s: seq<bv8>)
    ensures |s| == |fed| % 64
  {
    fed[|fed| - |fed| % 64..]
  }

  lemma FeedInside(fed: seq<bv8>, x: bv8)
    requires |fed| % 64 != 63
    ensures Whole(fed + [x]) == Whole(fed) && Rest(fed + [x]) == Rest(fed) + [x]
  {
    var k := |fed| - |fed| % 64;
    assert |fed + [x]| - |fed + [x]| % 64 == k;
    assert (fed + [x])[..k] == fed[..k] && (fed + [x])[k..] == fed[k..] + [x];
  }

  lemma FeedComplete(fed: seq<bv8>, x: bv8)
    requires |fed| % 64 == 63
    ensures |Rest(fed) + [x]| == 64
    ensures Whole(fed + [x]) == fed + [x] && Rest(fed + [x]) == []
    ensures HashBlocks(fed + [x]) == Compress(HashBlocks(Whole(fed)), WordsOf(Rest(fed) + [x]))
  {
    hide Compress, WordsOf;
    var all := fed + [x];
    assert all[..|all| - 64] == Whole(fed) && all[|all| - 64..] == Rest(fed) + [x];
  }

  /** What the object's fields say once the bytes `fed` have gone in. */
  ghost predicate Absorbed(fed: seq<bv8>, buffer: seq<bv32>, state: Vars, offset: nat) {
    && offset == |fed| % 64
    && Holds(buffer, Rest(fed))
    && state == HashBlocks(Whole(fed))
  }

  lemma AbsorbedNothing(buffer: seq<bv32>)
    requires |buffer| == 16
    ensures Absorbed([], buffer, INITIAL, 0)
  {}

  /** The digest with the length cut to 32 bits: SHA-1 for messages under 2^32 bytes. */
  function Counted(msg: seq<bv8>): (d: seq<bv8>)
    ensures |d| == HASH_LENGTH
  {
    Digest(HashBlocks(PadAs(msg, 8 * (|msg| % 0x1_0000_0000))))
  }

  lemma CountedIsSha1(msg: seq<bv8>)
    requires |msg| < 0x1_0000_0000
    ensures Counted(msg) == Sha1(msg)
  {
    hide HashBlocks, PadAs, Digest;
  }

  /** HMAC over the cut digest. */
  function HmacCounted(key: seq<bv8>, msg: seq<bv8>): (d: seq<bv8>)
    ensures |d| == HASH_LENGTH
  {
    Counted(XorWith(KeyBlock(key), 0x5c) + Counted(XorWith(KeyBlock(key), 0x36) + msg))
  }

  lemma HmacCountedIsHmac(key: seq<bv8>, msg: seq<bv8>)
    requires |msg| + BLOCK_LENGTH < 0x1_0000_0000
    ensures HmacCounted(key, msg) == Hmac(key, msg)
  {
    hide Counted, KeyBlock, XorWith;
    CountedIsSha1(XorWith(KeyBlock(key), 0x36) + msg);
    CountedIsSha1(XorWith(KeyBlock(key), 0x5c) + Sha1(XorWith(KeyBlock(key), 0x36) + msg));
  }

  lemma HmacCountedIs(key: seq<bv8>, msg: seq<bv8>, inner: seq<bv8>)
    requires inner == Counted(XorWith(KeyBlock(key), 0x36) + msg)
    ensures Counted(XorWith(KeyBlock(key), 0x5c) + inner) == HmacCounted(key, msg)
    ensures |msg| + BLOCK_LENGTH < 0x1_0000_0000 ==> HmacCounted(key, msg) == Hmac(key, msg)
  {
    hide Counted, KeyBlock, XorWith, Hmac;
    if |msg| + BLOCK_LENGTH < 0x1_0000_0000 {
      HmacCountedIsHmac(key, msg);
    }
  }

  class Sha1Info {
    const buffer: array<bv32>
    const state: array<bv32>
    /** A uint32_t: the number of counted bytes modulo 2^32. */
    var byteCount: nat
    var bufferOffset: nat
    const keyBuffer: array<bv8>
    const innerHash: array<bv8>
    /** Every byte that went in since sha1_init. */
    ghost var fed: seq<bv8>

    ghost predicate Shape()
      reads this
    {
      && buffer.Length == 16 && state.Length == 5 && buffer != state
      && keyBuffer.Length == BLOCK_LENGTH && innerHash.Length == HASH_LENGTH && keyBuffer != innerHash
    }

    function StateVars(): Vars
      requires Shape()
      reads this, state
    {
      Vars(state[0], state[1], state[2], state[3], state[4])
    }

    ghost predicate Valid()
      reads this, buffer, state
    {
      Shape() && byteCount < 0x1_0000_0000 && Absorbed(fed, buffer[..], StateVars(), bufferOffset)
    }

    constructor ()
      ensures Shape() && fresh(buffer) && fresh(state) && fresh(keyBuffer) && fresh(innerHash)
    {
      buffer := new bv32[16](_ => 0);
      state := new bv32[5](_ => 0);
      keyBuffer := new bv8[BLOCK_LENGTH](_ => 0);
      innerHash := new bv8[HASH_LENGTH](_ => 0);
    }

    /** sha1_init. */
    method Init()
      requires Shape()
      modifies this`byteCount, this`bufferOffset, this`fed, state
      ensures Valid() && fed == [] && byteCount == 0
    {
      state[0] := 0x67452301;
      state[1] := 0xefcdab89;
      state[2] := 0x98badcfe;
      state[3] := 0x10325476;
      state[4] := 0xc3d2e1f0;
      byteCount := 0;
      bufferOffset := 0;
      fed := [];
      AbsorbedNothing(buffer[..]);
      hide Absorbed;
    }

    /** sha1_hashBlock: the 80 rounds over a circular 16-word schedule. */
    method HashBlock()
      requires Shape()
      modifies buffer, state
      ensures StateVars() == Compress(old(StateVars()), old(buffer[..]))
    {
      hide W, Rounds, Add, Rotl, Xor4, F, K, Sum5, SumCode, Parity, ChCode, MajCode, Window, RoundSum;
      var a, b, c, d, e := state[0], state[1], state[2], state[3], state[4];
      ghost var block: Block, v0 := buffer[..], StateVars();
      WindowStart(block);
      NoRounds(block, v0);
      for i := 0 to 80
        invariant unchanged(state)
        invariant Window(buffer[..], block, i)
        invariant Vars(a, b, c, d, e) == Rounds(block, i, v0)
      {
        ghost var words := buffer[..];
        if i >= 16 {
          WindowStep(words, block, i);
          var t := Xor4(buffer[(i + 13) % 16], buffer[(i + 8) % 16], buffer[(i + 2) % 16], buffer[i % 16]);
          buffer[i % 16] := Rotl(t, 1);
          assert buffer[..] == words[i % 16 := W(block, i)];
        } else {
          WindowEarly(words, block, i);
        }
        RoundSumIs(i, Vars(a, b, c, d, e), W(block, i));
        RoundMore(block, i, v0, Vars(a, b, c, d, e));
        var t := RoundSum(i, a, b, c, d, e, buffer[i % 16]);
        e := d;
        d := c;
        c := Rotl(b, 30);
        b := a;
        a := t;
      }
      state[0] := Add(state[0], a);
      state[1] := Add(state[1], b);
      state[2] := Add(state[2], c);
      state[3] := Add(state[3], d);
      state[4] := Add(state[4], e);
    }

    /** sha1_addUncounted: one byte into the buffer; a full buffer is hashed. */
    method AddUncounted(data: bv8)
      requires Valid()
      modifies this`bufferOffset, this`fed, buffer, state
      ensures Valid() && fed == old(fed) + [data] && byteCount == old(byteCount)
    {
      hide Holds, HashBlocks, Compress, WordsOf, SetLane;
      ghost var rest, words := Rest(fed), buffer[..];
      StoreAppends(words, rest, data);
      var at := XorThree(bufferOffset);
      buffer[at / 4] := SetLane(buffer[at / 4], at % 4, data);
      assert buffer[..] == words[at / 4 := SetLane(words[at / 4], at % 4, data)];
      bufferOffset := bufferOffset + 1;
      if bufferOffset == BLOCK_LENGTH {
        FeedComplete(fed, data);
        FullBuffer(buffer[..], rest + [data]);
        HashBlock();
        bufferOffset := 0;
        HoldsNothing(buffer[..]);
      } else {
        FeedInside(fed, data);
      }
      fed := fed + [data];
    }

    /** sha1_writebyte. */
    method WriteByte(data: bv8)
      requires Valid()
      modifies this`byteCount, this`bufferOffset, this`fed, buffer, state
      ensures Valid() && fed == old(fed) + [data] && byteCount == (old(byteCount) + 1) % 0x1_0000_0000
    {
      hide Absorbed;
      byteCount := (byteCount + 1) % 0x1_0000_0000;
      AddUncounted(data);
    }

    /** sha1_write. */
    method Write(data: seq<bv8>)
      requires Valid()
      modifies this`byteCount, this`bufferOffset, this`fed, buffer, state
      ensures Valid() && fed == old(fed) + data && byteCount == (old(byteCount) + |data|) % 0x1_0000_0000
    {
      hide Absorbed;
      for i := 0 to |data|
        invariant Valid() && fed == old(fed) + data[..i] && byteCount == (old(byteCount) + i) % 0x1_0000_0000
      {
        OneMoreByte(old(byteCount), i);
        WriteByte(data[i]);
      }
    }

    /** A run of sha1_addUncounted calls. */
    method AddAll(data: seq<bv8>)
      requires Valid()
      modifies this`bufferOffset, this`fed, buffer, state
      ensures Valid() && fed == old(fed) + data && byteCount == old(byteCount)
    {
      hide Absorbed;
      for i := 0 to |data|
        invariant Valid() && fed == old(fed) + data[..i] && byteCount == old(byteCount)
      {
        AddUncounted(data[i]);
      }
    }

    /** sha1_pad's filling: 0x80, then zeros up to the last eight bytes of a block. */
    method Fill()
      requires Valid()
      modifies this`bufferOffset, this`fed, buffer, state
      ensures Valid() && byteCount == old(byteCount)
      ensures fed == old(fed) + [0x80] + Zeros(ZeroCount(|old(fed)|))
    {
      hide Absorbed;
      ghost var msg := fed;
      AddUncounted(0x80);
      OffsetOf(this);
      ghost var zeros := 0;
      while bufferOffset != 56
        invariant Valid() && byteCount == old(byteCount)
        invariant fed == msg + [0x80] + Zeros(zeros) && zeros <= ZeroCount(|msg|)
        invariant bufferOffset == (|msg| + 1 + zeros) % 64
        decreases ZeroCount(|msg|) - zeros
      {
        ZerosLeft(|msg|, zeros);
        AddUncounted(0x00);
        OffsetOf(this);
        zeros := zeros + 1;
      }
      ZerosDone(|msg|, zeros);
    }

    /** sha1_pad. */
    method Pad()
      requires Valid()
      modifies this`bufferOffset, this`fed, buffer, state
      ensures Valid() && fed == PadAs(old(fed), 8 * byteCount) && byteCount == old(byteCount)
    {
      hide Absorbed, LengthField, LengthByte, ByteOf, ZeroCount;
      Fill();
      ghost var padded := fed;
      AddAll([0, 0, 0, ByteOf(byteCount / 0x2000_0000), ByteOf(byteCount / 0x20_0000),
              ByteOf(byteCount / 0x2000), ByteOf(byteCount / 0x20), ByteOf(byteCount * 8)]);
      LengthBytes(byteCount);
      assert fed == padded + LengthField(8 * byteCount);
    }

    /** sha1_result: pads, swaps the state words and hands out their memory. */
    method Result() returns (d: seq<bv8>)
      requires Valid()
      modifies this`bufferOffset, this`fed, buffer, state
      ensures d == Digest(HashBlocks(PadAs(old(fed), 8 * byteCount)))
      ensures old(byteCount) == |old(fed)| % 0x1_0000_0000 ==> d == Counted(old(fed))
    {
      hide HashBlocks, PadAs, GetByte, Swap, Holds;
      Pad();
      WholeAll(fed);
      ghost var v := StateVars();
      label AfterPad:
      for i := 0 to 5
        invariant forall k :: 0 <= k < 5 ==>
                    state[k] == if k < i then Swap(old@AfterPad(state[k])) else old@AfterPad(state[k])
      {
        state[i] := Swap(state[i]);
      }
      SwappedMemory(v.a);
      SwappedMemory(v.b);
      SwappedMemory(v.c);
      SwappedMemory(v.d);
      SwappedMemory(v.e);
      d := MemoryBytes(state[0]) + MemoryBytes(state[1]) + MemoryBytes(state[2]) + MemoryBytes(state[3])
        + MemoryBytes(state[4]);
    }

    /** Streaming: the message may be split into sha1_write calls in any way. */
    method HashParts(parts: seq<seq<bv8>>) returns (d: seq<bv8>)
      requires Shape()
      modifies this`byteCount, this`bufferOffset, this`fed, buffer, state
      ensures |Concat(parts)| < 0x1_0000_0000 ==> d == Sha1(Concat(parts))
      ensures d == Counted(Concat(parts))
    {
      hide Absorbed, HashBlocks, PadAs, Digest, Counted;
      if |Concat(parts)| < 0x1_0000_0000 { CountedIsSha1(Concat(parts)); }
      Init();
      for i := 0 to |parts|
        invariant Valid() && fed == Concat(parts[..i]) && byteCount == |fed| % 0x1_0000_0000
      {
        assert parts[..i + 1][..i] == parts[..i];
        CountTwice(|fed|, |parts[i]|);
        Write(parts[i]);
      }
      assert parts[..|parts|] == parts;
      d := Result();
    }

    /** sha1_initHmac: keys longer than a block are hashed, then the inner hash is started. */
    method InitHmac(key: seq<bv8>)
      requires Shape() && |key| < 0x8000_0000
      modifies this`byteCount, this`bufferOffset, this`fed, buffer, state, keyBuffer
      ensures Valid() && keyBuffer[..] == KeyBlock(key)
      ensures fed == XorWith(KeyBlock(key), 0x36) && byteCount == 64
    {
      hide Absorbed, HashBlocks, PadAs, Digest, Zeros, XorWith;
      SetKey(Zeros(BLOCK_LENGTH));
      if |key| <= BLOCK_LENGTH { ZeroTail(BLOCK_LENGTH, |key|); }
      ZeroTail(BLOCK_LENGTH, HASH_LENGTH);
      if |key| > BLOCK_LENGTH {
        Init();
        Write(key);
        assert fed == key && byteCount == |key|;
        var digest := Result();
        assert digest == Sha1(key) && keyBuffer[HASH_LENGTH..] == keyBuffer[..][HASH_LENGTH..];
        SetKey(digest + keyBuffer[HASH_LENGTH..]);
      } else {
        assert keyBuffer[|key|..] == keyBuffer[..][|key|..];
        SetKey(key + keyBuffer[|key|..]);
      }
      assert keyBuffer[..] == KeyBlock(key);
      Init();
      WriteKey(0x36);
    }

    /** memcpy into keyBuffer. */
    method SetKey(bytes: seq<bv8>)
      requires Shape() && |bytes| == BLOCK_LENGTH
      modifies keyBuffer
      ensures keyBuffer[..] == bytes
    {
      for i := 0 to BLOCK_LENGTH
        invariant keyBuffer[..i] == bytes[..i]
      {
        keyBuffer[i] := bytes[i];
      }
    }

    /** The 64 key bytes, each combined with a pad byte. */
    method WriteKey(pad: bv8)
      requires Valid() && fed == [] && byteCount == 0
      modifies this`byteCount, this`bufferOffset, this`fed, buffer, state
      ensures Valid() && fed == XorWith(keyBuffer[..], pad) && byteCount == 64
    {
      hide Absorbed, XorWith, XorByte;
      XorNone(pad);
      for i := 0 to BLOCK_LENGTH
        invariant Valid() && fed == XorWith(keyBuffer[..][..i], pad) && byteCount == i
      {
        XorMore(keyBuffer[..], i, pad);
        WriteByte(XorByte(keyBuffer[i], pad));
      }
      assert keyBuffer[..][..BLOCK_LENGTH] == keyBuffer[..];
    }

    /** The outer hash, over the inner one. */
    method OuterHash() returns (d: seq<bv8>)
      requires Shape()
      modifies this`byteCount, this`bufferOffset, this`fed, buffer, state
      ensures d == Counted(XorWith(keyBuffer[..], 0x5c) + innerHash[..])
    {
      hide Absorbed, HashBlocks, PadAs, Digest, XorWith, Counted;
      Init();
      WriteKey(0x5c);
      Write(innerHash[..]);
      assert byteCount == |fed| == 84;
      d := Result();
    }

    /** memcpy into innerHash. */
    method SetInner(bytes: seq<bv8>)
      requires Shape() && |bytes| == HASH_LENGTH
      modifies innerHash
      ensures innerHash[..] == bytes
    {
      for i := 0 to HASH_LENGTH
        invariant innerHash[..i] == bytes[..i]
      {
        innerHash[i] := bytes[i];
      }
    }

    /** sha1_resultHmac: the outer hash over the inner one. */
    method ResultHmac(ghost key: seq<bv8>, ghost msg: seq<bv8>) returns (d: seq<bv8>)
      requires Valid() && keyBuffer[..] == KeyBlock(key)
      requires fed == XorWith(KeyBlock(key), 0x36) + msg && byteCount == |fed| % 0x1_0000_0000
      modifies this`byteCount, this`bufferOffset, this`fed, buffer, state, innerHash
      ensures d == HmacCounted(key, msg)
      ensures |msg| + BLOCK_LENGTH < 0x1_0000_0000 ==> d == Hmac(key, msg)
    {
      hide Absorbed, HashBlocks, PadAs, Digest, KeyBlock, XorWith, Hmac, HmacCounted, Counted;
      var inner := Result();
      SetInner(inner);
      d := OuterHash();
      HmacCountedIs(key, msg, inner);
    }

    /** HMAC of a message split in any way. */
    method HmacParts(key: seq<bv8>, parts: seq<seq<bv8>>) returns (d: seq<bv8>)
      requires Shape() && |key| < 0x8000_0000
      modifies this`byteCount, this`bufferOffset, this`fed, buffer, state, keyBuffer, innerHash
      ensures d == HmacCounted(key, Concat(parts))
      ensures |Concat(parts)| + BLOCK_LENGTH < 0x1_0000_0000 ==> d == Hmac(key, Concat(parts))
    {
      hide Absorbed, Hmac, HmacCounted, KeyBlock;
      InitHmac(key);
      ghost var ipad := XorWith(KeyBlock(key), 0x36);
      assert ipad == ipad + Concat(parts[..0]);
      for i := 0 to |parts|
        invariant Valid() && fed == ipad + Concat(parts[..i]) && byteCount == |fed| % 0x1_0000_0000
        invariant keyBuffer[..] == KeyBlock(key)
      {
        assert parts[..i + 1][..i] == parts[..i];
        CountTwice(|fed|, |parts[i]|);
        Write(parts[i]);
      }
      assert parts[..|parts|] == parts;
      d := ResultHmac(key, Concat(parts));
    }
  }

  lemma XorNone(pad: bv8)
    ensures XorWith([], pad) == []
  {}

  lemma XorMore(key: seq<bv8>, i: nat, pad: bv8)
    requires i < |key|
    ensures XorWith(key[..i + 1], pad) == XorWith(key[..i], pad) + [XorByte(key[i], pad)]
  {
    hide XorByte;
  }

  lemma ZeroTail(n: nat, k: nat)
    requires k <= n
    ensures Zeros(n)[k..] == Zeros(n - k)
  {}

  function Concat(parts: seq<seq<bv8>>): seq<bv8> {
    if parts == [] then [] else Concat(parts[..|parts| - 1]) + parts[|parts| - 1]
  }

  lemma CountTwice(n: nat, m: nat)
    ensures (n % 0x1_0000_0000 + m) % 0x1_0000_0000 == (n + m) % 0x1_0000_0000
  {}

  lemma WholeAll(fed: seq<bv8>)
    requires |fed| % 64 == 0
    ensures Whole(fed) == fed
  {}

  lemma OneMoreByte(count: nat, i: nat)
    ensures ((count + i) % 0x1_0000_0000 + 1) % 0x1_0000_0000 == (count + (i + 1)) % 0x1_0000_0000
  {}

  lemma ZerosLeft(len: nat, zeros: nat)
    requires zeros <= ZeroCount(len) && (len + 1 + zeros) % 64 != 56
    ensures zeros < ZeroCount(len)
  {}

  lemma ZerosDone(len: nat, zeros: nat)
    requires zeros <= ZeroCount(len) && (len + 1 + zeros) % 64 == 56
    ensures zeros == ZeroCount(len)
  {}

  lemma OffsetOf(s: Sha1Info)
    requires s.Valid()
    ensures s.bufferOffset == |s.fed| % 64
  {}

  lemma HoldsNothing(buffer: seq<bv32>)
    requires |buffer| == 16
    ensures Holds(buffer, [])
  {}

  lemma LengthShifts(n: nat)
    requires n < 0x1_0000_0000
    ensures (8 * n) / 0x100_0000_0000_0000 == (8 * n) / 0x1_0000_0000_0000 == (8 * n) / 0x100_0000_0000 == 0
    ensures (8 * n) / 0x1_0000_0000 == n / 0x2000_0000 && (8 * n) / 0x100_0000 == n / 0x20_0000
    ensures (8 * n) / 0x1_0000 == n / 0x2000 && (8 * n) / 0x100 == n / 0x20
  {}

  /** The eight length bytes the code appends, for a byte count of 32 bits. */
  lemma LengthBytes(n: nat)
    requires n < 0x1_0000_0000
    ensures LengthField(8 * n) ==
      [0, 0, 0, ByteOf(n / 0x2000_0000), ByteOf(n / 0x20_0000), ByteOf(n / 0x2000), ByteOf(n / 0x20), ByteOf(n * 8)]
  {
    assert ByteOf(0) == 0;
    hide ByteOf;
    LengthShifts(n);
  }

  lemma NoRounds(block: Block, v0: Vars)
    ensures Rounds(block, 0, v0) == v0
  {}

  lemma RoundMore(block: Block, i: nat, v0: Vars, v: Vars)
    requires v == Rounds(block, i, v0)
    ensures Rounds(block, i + 1, v0) == Round(block, i, v)
  {}

  lemma WindowStart(block: Block)
    ensures Window(block, block, 0)
  {}

  lemma WindowEarly(buffer: seq<bv32>, block: Block, i: nat)
    requires |buffer| == 16 && i < 16 && Window(buffer, block, i)
    ensures buffer[i % 16] == W(block, i) && Window(buffer, block, i + 1)
  {}

  // ---------- the 32-bit byte count ----------

  lemma SameByte(m: nat, n: nat)
    requires ByteOf(m) == ByteOf(n)
    ensures m % 256 == n % 256
  {
    NumberOfBits(m % 256);
    NumberOfBits(n % 256);
  }

  /** The upper halves of two 64-bit lengths with equal length fields are equal. */
  lemma SameField(l: nat, m: nat)
    requires l < 0x1_0000_0000_0000_0000 && m < 0x1_0000_0000_0000_0000
    requires LengthField(l) == LengthField(m)
    ensures l / 0x1_0000_0000 == m / 0x1_0000_0000
  {
    hide ByteOf;
    var x, y := l / 0x1_0000_0000, m / 0x1_0000_0000;
    UpperBytes(l);
    UpperBytes(m);
    assert LengthField(l)[0] == LengthField(m)[0] && LengthField(l)[1] == LengthField(m)[1];
    assert LengthField(l)[2] == LengthField(m)[2] && LengthField(l)[3] == LengthField(m)[3];
    SameByte(x / 0x100_0000, y / 0x100_0000);
    SameByte(x / 0x1_0000, y / 0x1_0000);
    SameByte(x / 0x100, y / 0x100);
    SameByte(x, y);
    Digits(x);
    Digits(y);
  }

  lemma UpperBytes(l: nat)
    requires l < 0x1_0000_0000_0000_0000
    ensures var x := l / 0x1_0000_0000;
            && x < 0x1_0000_0000
            && LengthByte(l, 0) == ByteOf(x / 0x100_0000) && LengthByte(l, 1) == ByteOf(x / 0x1_0000)
            && LengthByte(l, 2) == ByteOf(x / 0x100) && LengthByte(l, 3) == ByteOf(x)
  {
    hide ByteOf;
  }

  lemma Digits(x: nat)
    requires x < 0x1_0000_0000
    ensures x == (x / 0x100_0000 % 256) * 0x100_0000 + (x / 0x1_0000 % 256) * 0x1_0000 + (x / 0x100 % 256) * 0x100
              + x % 256
  {
    TwoDivisions(x, 0x100);
    TwoDivisions(x, 0x1_0000);
  }

  lemma TwoDivisions(x: nat, n: nat)
    requires n == 0x100 || n == 0x1_0000
    ensures x / n == x / (n * 256) * 256 + x / n % 256
  {}

  /** The length sha1_pad appends is that of FIPS 180-2 exactly for messages under 2^32 bytes. */
  lemma CountedLength(msg: seq<bv8>)
    requires |msg| < 0x2000_0000_0000_0000
    ensures PadAs(msg, 8 * (|msg| % 0x1_0000_0000)) == PadAs(msg, 8 * |msg|) <==> |msg| < 0x1_0000_0000
  {
    hide LengthByte, ByteOf;
    var l, m := 8 * (|msg| % 0x1_0000_0000), 8 * |msg|;
    if PadAs(msg, l) == PadAs(msg, m) {
      var body := msg + [0x80] + Zeros(ZeroCount(|msg|));
      assert PadAs(msg, l)[|body|..] == LengthField(l) && PadAs(msg, m)[|body|..] == LengthField(m);
      SameField(l, m);
    }
  }
}

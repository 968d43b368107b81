/** SHA-1 as FIPS 180-2 defines it (sections 5.1.1, 5.2.1 and 6.1.2) and HMAC as RFC 2104 section 2 does. */
module Sha1Spec {

  // ---------- words and bytes ----------

  /** ROTL (section 3.2). */
  function Rotl(x: bv32, n: nat): bv32
    requires 0 < n < 32
  {
    (x << n) | (x >> (32 - n))
  }

  function Add(x: bv32, y: bv32): bv32 { x + y }

  function Sum5(v: bv32, w: bv32, x: bv32, y: bv32, z: bv32): bv32 { v + w + x + y + z }

  /** Byte `j` of a word, the most significant one first. */
  function GetByte(w: bv32, j: nat): bv8
    requires j < 4
  {
    if j == 0 then (w >> 24) as bv8
    else if j == 1 then ((w >> 16) & 0xFF) as bv8
    else if j == 2 then ((w >> 8) & 0xFF) as bv8
    else (w & 0xFF) as bv8
  }

  /** The word whose bytes are these, the most significant one first. */
  function WordOf(b0: bv8, b1: bv8, b2: bv8, b3: bv8): bv32 {
    ((b0 as bv32) << 24) | ((b1 as bv32) << 16) | ((b2 as bv32) << 8) | (b3 as bv32)
  }

  lemma WordOfBytes(w: bv32)
    ensures WordOf(GetByte(w, 0), GetByte(w, 1), GetByte(w, 2), GetByte(w, 3)) == w
  {}

  type Block = s: seq<bv32> | |s| == 16 witness seq(16, _ => 0)

  /** The sixteen words of a 64-byte block. */
  function WordsOf(bytes: seq<bv8>): (b: Block)
    requires |bytes| == 64
  {
    seq(16, i requires 0 <= i < 16 => WordOf(bytes[4 * i], bytes[4 * i + 1], bytes[4 * i + 2], bytes[4 * i + 3]))
  }

  function BytesOfWord(w: bv32): (s: seq<bv8>)
    ensures |s| == 4
  {
    [GetByte(w, 0), GetByte(w, 1), GetByte(w, 2), GetByte(w, 3)]
  }

  // ---------- the functions and constants of section 4 ----------

  function Ch(x: bv32, y: bv32, z: bv32): bv32 { (x & y) ^ (!x & z) }

  function Parity(x: bv32, y: bv32, z: bv32): bv32 { x ^ y ^ z }

  function Maj(x: bv32, y: bv32, z: bv32): bv32 { (x & y) ^ (x & z) ^ (y & z) }

  function F(t: nat, x: bv32, y: bv32, z: bv32): bv32 {
    if t < 20 then Ch(x, y, z) else if t < 40 then Parity(x, y, z) else if t < 60 then Maj(x, y, z) else Parity(x, y, z)
  }

  function K(t: nat): bv32 {
    if t < 20 then 0x5a827999 else if t < 40 then 0x6ed9eba1 else if t < 60 then 0x8f1bbcdc else 0xca62c1d6
  }

  // ---------- the hash computation of section 6.1.2 ----------

  function Xor4(a: bv32, b: bv32, c: bv32, d: bv32): bv32 { a ^ b ^ c ^ d }

  /** The message schedule. */
  function W(block: Block, t: nat): bv32
    decreases t
  {
    if t < 16 then block[t]
    else Rotl(Xor4(W(block, t - 3), W(block, t - 8), W(block, t - 14), W(block, t - 16)), 1)
  }

  datatype Vars = Vars(a: bv32, b: bv32, c: bv32, d: bv32, e: bv32)

  function Round(block: Block, t: nat, v: Vars): Vars {
    var T := Sum5(Rotl(v.a, 5), F(t, v.b, v.c, v.d), v.e, K(t), W(block, t));
    Vars(T, v.a, Rotl(v.b, 30), v.c, v.d)
  }

  /** The working variables after `n` rounds. */
  function Rounds(block: Block, n: nat, v: Vars): Vars
    decreases n
  {
    if n == 0 then v else Round(block, n - 1, Rounds(block, n - 1, v))
  }

  function AddVars(x: Vars, y: Vars): Vars {
    Vars(Add(x.a, y.a), Add(x.b, y.b), Add(x.c, y.c), Add(x.d, y.d), Add(x.e, y.e))
  }

  function Compress(h: Vars, block: Block): Vars { AddVars(h, Rounds(block, 80, h)) }

  const INITIAL: Vars := Vars(0x67452301, 0xefcdab89, 0x98badcfe, 0x10325476, 0xc3d2e1f0)

  /** The hash value after a whole number of blocks. */
  function HashBlocks(bytes: seq<bv8>): Vars
    requires |bytes| % 64 == 0
  {
    if bytes == [] then INITIAL
    else Compress(HashBlocks(bytes[..|bytes| - 64]), WordsOf(bytes[|bytes| - 64..]))
  }

  // ---------- padding, section 5.1.1 ----------

  /** A number cut to its low byte. */
  function ByteOf(n: nat): bv8 { (n % 256) as bv8 }

  /** Byte `k` of the 64-bit big-endian number `l`. */
  function LengthByte(l: nat, k: nat): bv8
    requires k < 8
  {
    var shifted := if k == 0 then l / 0x100_0000_0000_0000 else if k == 1 then l / 0x1_0000_0000_0000
                   else if k == 2 then l / 0x100_0000_0000 else if k == 3 then l / 0x1_0000_0000
                   else if k == 4 then l / 0x100_0000 else if k == 5 then l / 0x1_0000
                   else if k == 6 then l / 0x100 else l;
    ByteOf(shifted)
  }

  function LengthField(l: nat): (s: seq<bv8>)
    ensures |s| == 8
  {
    [LengthByte(l, 0), LengthByte(l, 1), LengthByte(l, 2), LengthByte(l, 3),
     LengthByte(l, 4), LengthByte(l, 5), LengthByte(l, 6), LengthByte(l, 7)]
  }

  /** The number of zero bytes after the byte 0x80. */
  function ZeroCount(len: nat): nat { (119 - len % 64) % 64 }

  function Zeros(n: nat): (s: seq<bv8>)
    ensures |s| == n
  {
    seq(n, _ => 0)
  }

  /** `msg` padded as a message of `bits` bits. */
  function PadAs(msg: seq<bv8>, bits: nat): (s: seq<bv8>)
    ensures |s| % 64 == 0
  {
    msg + [0x80] + Zeros(ZeroCount(|msg|)) + LengthField(bits)
  }

  function Digest(v: Vars): (s: seq<bv8>)
    ensures |s| == 20
  {
    BytesOfWord(v.a) + BytesOfWord(v.b) + BytesOfWord(v.c) + BytesOfWord(v.d) + BytesOfWord(v.e)
  }

  function Sha1(msg: seq<bv8>): (s: seq<bv8>)
    ensures |s| == 20
  {
    Digest(HashBlocks(PadAs(msg, 8 * |msg|)))
  }

  // ---------- HMAC ----------

  function XorByte(x: bv8, y: bv8): bv8 { x ^ y }

  function XorWith(key: seq<bv8>, pad: bv8): (s: seq<bv8>)
    ensures |s| == |key|
  {
    seq(|key|, i requires 0 <= i < |key| => XorByte(key[i], pad))
  }

  /** The key as a 64-byte block: hashed if longer, then filled with zeros. */
  function KeyBlock(key: seq<bv8>): (s: seq<bv8>)
    ensures |s| == 64
  {
    var k := if |key| > 64 then Sha1(key) else key;
    k + Zeros(64 - |k|)
  }

  function Hmac(key: seq<bv8>, msg: seq<bv8>): (s: seq<bv8>)
    ensures |s| == 20
  {
    Sha1(XorWith(KeyBlock(key), 0x5c) + Sha1(XorWith(KeyBlock(key), 0x36) + msg))
  }

  /** On the bytes: the key, filled with zeros, is xored with 36 for the inner hash and with 5C for the outer one. */
  lemma HmacBytes(key: seq<bv8>, msg: seq<bv8>, inner: seq<bv8>, outer: seq<bv8>)
    requires |key| <= 64 && |inner| == |outer| == 64
    requires forall i :: 0 <= i < 64 ==> inner[i] == if i < |key| then key[i] ^ 0x36 else 0x36
    requires forall i :: 0 <= i < 64 ==> outer[i] == if i < |key| then key[i] ^ 0x5c else 0x5c
    ensures Hmac(key, msg) == Sha1(outer + Sha1(inner + msg))
  {
    hide Sha1;
    assert XorWith(KeyBlock(key), 0x36) == inner;
    assert XorWith(KeyBlock(key), 0x5c) == outer;
  }

  /** A key that is longer than a block stands for its hash. */
  lemma HmacOfLongKey(key: seq<bv8>, msg: seq<bv8>)
    requires |key| > 64
    ensures Hmac(key, msg) == Hmac(Sha1(key), msg)
  {
    hide Sha1;
  }
}

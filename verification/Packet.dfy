/**
 * The Universal Data Packet of mbnv.c: a length byte, the data, and the complement of their CRC16,
 * low byte first; the CRC is seeded with the page number.
 */
module Packet {
  import opened Bits
  import opened Bytes
  import opened Crc16
  import opened Results

  const PAGE_LENGTH: nat := 32
  const MAX_PACKET_DATA: nat := 29

  function LengthByte(n: nat): bv8
    requires n < 256
  {
    n as bv8
  }

  function Length(b: bv8): (n: byte) { b as int }

  lemma LengthOfByte(n: nat)
    requires n < 256
    ensures Length(LengthByte(n)) == n
  {
    NumberOfBits(n);
  }

  lemma ByteOfLength(b: bv8)
    ensures LengthByte(Length(b)) == b
  {
    BitsOfNumber(b);
  }

  /** `body` and the complement of its CRC. */
  function Sealed(seed: bv16, body: seq<bv8>): (raw: seq<bv8>)
    ensures |raw| == |body| + 2 && body <= raw
  {
    var crc := Crc(seed, body);
    body + [CheckLow(crc), CheckHigh(crc)]
  }

  /** What writePagePacketNV sends for `data`. */
  function PacketOf(seed: bv16, data: seq<bv8>): (raw: seq<bv8>)
    requires |data| <= MAX_PACKET_DATA
    ensures |raw| == |data| + 3 && raw[0] == LengthByte(|data|) && raw[1..1 + |data|] == data
  {
    Sealed(seed, [LengthByte(|data|)] + data)
  }

  /** What readPagePacketNV makes of a 32-byte page. */
  function Unpack(seed: bv16, raw: seq<bv8>): Result<seq<bv8>>
    requires |raw| == PAGE_LENGTH
  {
    var n := Length(raw[0]);
    if n > MAX_PACKET_DATA || n <= 0 then Err(InvalidPacketLength)
    else if Crc(seed, raw[..n + 3]) == 0xB001 then Ok(raw[1..1 + n])
    else Err(CrcFailed)
  }

  /** The residue check accepts two trailing bytes exactly when they are the complement of the CRC. */
  lemma ResidueIff(seed: bv16, body: seq<bv8>, lo: bv8, hi: bv8)
    ensures Crc(seed, body + [lo, hi]) == 0xB001
       <==> lo == CheckLow(Crc(seed, body)) && hi == CheckHigh(Crc(seed, body))
  {
    var c := Crc(seed, body);
    var raw := body + [lo, hi];
    assert raw[..|raw| - 1] == body + [lo] && (body + [lo])[..|body|] == body;
    Residue(c, lo, hi);
  }

  /** `raw` starts with `body` and two more bytes. */
  lemma StartsWith(raw: seq<bv8>, body: seq<bv8>, lo: bv8, hi: bv8)
    requires |body| + 2 <= |raw| && body == raw[..|body|]
    ensures body + [lo, hi] <= raw <==> lo == raw[|body|] && hi == raw[|body| + 1]
  {
    var p := body + [lo, hi];
    if lo == raw[|body|] && hi == raw[|body| + 1] {
      assert p == raw[..|body| + 2];
    }
    if p <= raw {
      assert p[|body|] == lo && p[|body| + 1] == hi;
    }
  }

  lemma CheckBody(seed: bv16, raw: seq<bv8>, body: seq<bv8>)
    requires |raw| == PAGE_LENGTH && |body| + 2 <= |raw| && body == raw[..|body|]
    ensures Crc(seed, raw[..|body| + 2]) == 0xB001 <==> Sealed(seed, body) <= raw
  {
    hide Crc, CheckLow, CheckHigh;
    var crc, lo, hi := Crc(seed, body), raw[|body|], raw[|body| + 1];
    assert raw[..|body| + 2] == body + [lo, hi];
    ResidueIff(seed, body, lo, hi);
    StartsWith(raw, body, CheckLow(crc), CheckHigh(crc));
  }

  /** The CRC check of a page with length byte `n` passes exactly when the page starts with a packet. */
  lemma CheckIff(seed: bv16, raw: seq<bv8>, n: nat)
    requires |raw| == PAGE_LENGTH && 1 <= n <= MAX_PACKET_DATA && Length(raw[0]) == n
    ensures Crc(seed, raw[..n + 3]) == 0xB001 <==> PacketOf(seed, raw[1..1 + n]) <= raw
  {
    hide Crc, Sealed, LengthByte, Length;
    ByteOfLength(raw[0]);
    var body := raw[..n + 1];
    assert body == [LengthByte(n)] + raw[1..1 + n] && |body| + 2 == n + 3;
    CheckBody(seed, raw, body);
  }

  /** A page that starts with a packet shows its length and its data. */
  lemma PacketShows(seed: bv16, raw: seq<bv8>, data: seq<bv8>)
    requires 1 <= |data| <= MAX_PACKET_DATA && PacketOf(seed, data) <= raw
    ensures Length(raw[0]) == |data| && |raw| >= |data| + 3 && raw[1..1 + |data|] == data
  {
    hide Crc, Sealed, LengthByte, Length;
    var packet := PacketOf(seed, data);
    assert raw[0] == packet[0] && raw[1..1 + |data|] == packet[1..1 + |data|];
    LengthOfByte(|data|);
  }

  /** A page is accepted exactly when it starts with a packet for its data, and then yields that data. */
  lemma UnpackIff(seed: bv16, raw: seq<bv8>, data: seq<bv8>)
    requires |raw| == PAGE_LENGTH
    ensures Unpack(seed, raw) == Ok(data)
       <==> 1 <= |data| <= MAX_PACKET_DATA && PacketOf(seed, data) <= raw
  {
    hide Crc, PacketOf, Length;
    var n := Length(raw[0]);
    if 1 <= n <= MAX_PACKET_DATA {
      CheckIff(seed, raw, n);
    }
    if 1 <= |data| <= MAX_PACKET_DATA && PacketOf(seed, data) <= raw {
      PacketShows(seed, raw, data);
    }
  }

  /** A page that is accepted is rejected after any change to one of its data or CRC bytes. */
  lemma OneByteRejected(seed: bv16, raw: seq<bv8>, i: nat, b: bv8)
    requires |raw| == PAGE_LENGTH && Unpack(seed, raw).Ok?
    requires 1 <= i < Length(raw[0]) + 3 && raw[i] != b
    ensures Unpack(seed, raw[i := b]) == Err(CrcFailed)
  {
    var n := Length(raw[0]) + 3;
    OneByteChanges(seed, raw[..n], i, b);
    assert raw[i := b][..n] == raw[..n][i := b];
  }

  /** A page that is accepted under one page number is rejected under every other. */
  lemma OtherSeedRejected(seed: bv16, seed': bv16, raw: seq<bv8>)
    requires |raw| == PAGE_LENGTH && Unpack(seed, raw).Ok? && seed' != seed
    ensures Unpack(seed', raw) == Err(CrcFailed)
  {
    if Unpack(seed', raw).Ok? {
      CrcInjective(seed, seed', raw[..Length(raw[0]) + 3]);
    }
  }
}

/** The two hashes of the DS1963S simulator: SHA-1 of the messages it puts together (ds1963s.c:37-125). */
module Ds1963sHashes {
  import opened Bytes
  import opened Ds1963s
  import opened Ds1963sCommands
  import opened Sha1Spec

  /** The nine bytes at the end of both messages. */
  const TRAILING: seq<bv8> := [0x80, 0x00, 0x00, 0x00, 0x00, 0x00, 0x00, 0x01, 0xB8]

  /** They are the padding of a message of 55 bytes, which SHA-1 then pads once more. */
  lemma TrailingIsPadding(m: seq<bv8>)
    requires |m| == 55
    ensures m + TRAILING == PadAs(m, 8 * |m|)
  {
    LengthOf55();
    assert Zeros(0) == [];
  }

  lemma LengthOf55()
    ensures LengthField(440) == [0x00, 0x00, 0x00, 0x00, 0x00, 0x00, 0x01, 0xB8]
  {}

  /** The page number as a byte. */
  function PageByte(page: nat): bv8
    requires page < 256
  {
    page as bv8
  }

  lemma PageByteIs(page: nat)
    requires page < 16
    ensures PageByte(page) as int == page
  {}

  /** What is hashed for an authenticated read of pages 8 to 15. */
  function AuthMessage(rom: seq<bv8>, d: Device): (m: seq<bv8>)
    requires d.Ok() && |rom| == 8 && 256 <= d.Addr() <= 480
    ensures |m| == 60
  {
    var page := d.Addr() / 32;
    d.secrets[4 * page - 8..4 * page - 4] + d.nvram[d.Addr()..d.Addr() + 32] + Le32(d.nvramCounter[page - 8])
    + [PageByte(page)] + rom[..7] + d.scratchpad[20..23] + TRAILING
  }

  /** What is hashed to sign pages 0 and 8. */
  function SignMessage(d: Device): (m: seq<bv8>)
    requires d.Ok() && (d.Addr() < 32 || 256 <= d.Addr() < 288)
    ensures |m| == 64
  {
    var secret := if d.Addr() < 32 then 0 else 32;
    d.secrets[secret..secret + 4] + d.nvram[d.Addr()..d.Addr() + 32] + d.scratchpad[8..12]
    + [d.scratchpad[12] & 0x1F] + d.scratchpad[13..20] + d.secrets[secret + 1..secret + 5] + d.scratchpad[20..23]
    + TRAILING
  }

  /** The hashes of the part with this ROM; where the part computes none, they do not matter. */
  function HashesOf(rom: seq<bv8>): Hashes
    requires |rom| == 8
  {
    Hashes(
      (d: Device) => if d.Ok() && (d.Addr() < 32 || 256 <= d.Addr() < 288) then Sha1(SignMessage(d)) else Zeros(20),
      (d: Device) => if d.Ok() && 256 <= d.Addr() <= 480 then Sha1(AuthMessage(rom, d)) else Zeros(20))
  }

  /** An authenticated read leaves the hash of secret, page, counter, page number, ROM and challenge. */
  lemma AuthIsSha1(rom: seq<bv8>, d: Device, c: seq<bv8>, p: nat)
    requires |rom| == 8 && d.Ok() && WholeMemory(c) && c[0] == 0xA5 && 8 <= p < 16
    requires c[1] as int + 256 * (c[2] as int) == 32 * p
    requires InRange(d, c)
    ensures Memory(HashesOf(rom), d, c).0.scratchpad[8..28]
         == Sha1(d.secrets[4 * p - 8..4 * p - 4] + d.nvram[32 * p..32 * p + 32] + Le32(d.nvramCounter[p - 8])
                 + [PageByte(p)] + rom[..7] + d.scratchpad[20..23] + TRAILING)
  {
    hide Memory, WholeMemory, InRange, Sha1, HashesOf, PageByte, Le32;
    HasAddress(c);
    AuthLeavesHash(HashesOf(rom), d, c);
    AuthHash(rom, d.(ta1 := c[1], ta2 := c[2]), p);
    HashPlace(d.scratchpad, HashesOf(rom).auth(d.(ta1 := c[1], ta2 := c[2])));
  }

  lemma HasAddress(c: seq<bv8>)
    requires WholeMemory(c) && (c[0] == 0xA5 || c[0] == 0x33)
    ensures |c| >= 3
  {}

  lemma AuthHash(rom: seq<bv8>, d: Device, p: nat)
    requires |rom| == 8 && d.Ok() && 8 <= p < 16 && d.Addr() == 32 * p
    ensures HashesOf(rom).auth(d)
         == Sha1(d.secrets[4 * p - 8..4 * p - 4] + d.nvram[32 * p..32 * p + 32] + Le32(d.nvramCounter[p - 8])
                 + [PageByte(p)] + rom[..7] + d.scratchpad[20..23] + TRAILING)
  {
    hide Sha1, Le32, AuthMessage, Address, PageByte;
    AuthMessageIs(rom, d, p);
  }

  lemma AuthMessageIs(rom: seq<bv8>, d: Device, p: nat)
    requires |rom| == 8 && d.Ok() && 8 <= p < 16 && d.Addr() == 32 * p
    ensures AuthMessage(rom, d)
         == d.secrets[4 * p - 8..4 * p - 4] + d.nvram[32 * p..32 * p + 32] + Le32(d.nvramCounter[p - 8])
            + [PageByte(p)] + rom[..7] + d.scratchpad[20..23] + TRAILING
  {
    hide Le32, Address, PageByte;
    assert d.Addr() / 32 == p;
  }

  lemma SignHash(rom: seq<bv8>, d: Device, p: nat)
    requires |rom| == 8 && d.Ok() && (p == 0 || p == 8) && d.Addr() == 32 * p
    ensures HashesOf(rom).sign(d)
         == Sha1(d.secrets[4 * p..4 * p + 4] + d.nvram[32 * p..32 * p + 32] + d.scratchpad[8..12]
                 + [d.scratchpad[12] & 0x1F] + d.scratchpad[13..20] + d.secrets[4 * p + 1..4 * p + 5]
                 + d.scratchpad[20..23] + TRAILING)
  {
    hide Sha1, Address;
  }

  /** Signing page 0 or 8 leaves the hash of secret, page, scratchpad fields and challenge. */
  lemma SignIsSha1(rom: seq<bv8>, d: Device, c: seq<bv8>, p: nat)
    requires |rom| == 8 && d.Ok() && WholeMemory(c) && c[0] == 0x33 && (p == 0 || p == 8)
    requires c[1] as int + 256 * (c[2] as int) == 32 * p
    requires InRange(d, c)
    ensures Memory(HashesOf(rom), d, c).0.scratchpad[8..28]
         == Sha1(d.secrets[4 * p..4 * p + 4] + d.nvram[32 * p..32 * p + 32] + d.scratchpad[8..12]
                 + [d.scratchpad[12] & 0x1F] + d.scratchpad[13..20] + d.secrets[4 * p + 1..4 * p + 5]
                 + d.scratchpad[20..23] + TRAILING)
  {
    hide Memory, WholeMemory, InRange, Sha1, HashesOf;
    HasAddress(c);
    SignLeavesHash(HashesOf(rom), d, c);
    SignHash(rom, d.(ta1 := c[1], ta2 := c[2]), p);
    HashPlace(d.scratchpad, HashesOf(rom).sign(d.(ta1 := c[1], ta2 := c[2])));
  }

  lemma HashPlace(pad: seq<bv8>, hash: seq<bv8>)
    requires |pad| == 32 && |hash| == 20
    ensures (pad[..8] + hash + pad[28..])[8..28] == hash
  {}
}

/** What each memory command of the DS1963S does to the part and answers, byte by byte. */
module Ds1963sCommands {
  import opened Bytes
  import opened Crc16
  import opened Ds1963s
  import opened Packet

  // ---------- the registers and the command bytes ----------

  /** Address registers, offset in the scratchpad, and the fields of the end register. */
  lemma Registers(x: bv8, y: bv8)
    ensures Address(x, y) == x as int + 256 * (y as int)
    ensures Offset(x) == (x & 0x1F) as int && EndCount(x) == (x & 0x1F) as int
    ensures EndBits(x) == x & 0x1F && EndAll(x) == x | 0x1F && Accept(x) == x | 0x80
  {}

  /** Which commands there are, and how many bytes each of them needs. */
  lemma WholeIff(c: seq<bv8>)
    requires |c| >= 3
    ensures WholeMemory(c) <==>
      || (c[0] == 0x33 && |c| >= 6 && c[3] == 0xC3)
      || (c[0] == 0xAA && |c| >= 38)
      || (c[0] == 0x0F && (Address(c[1], c[2]) < 512 ==> |c| >= 37))
      || c[0] == 0xC3
      || (c[0] == 0x55 && |c| >= 4)
      || (c[0] == 0xA5 && |c| >= 45)
      || c[0] !in {0x33, 0xAA, 0x0F, 0xC3, 0x55, 0xA5}
  {
    hide Address;
  }

  lemma CommandOf(x: bv8)
    ensures x == 0x33 <==> MemoryCommandOf(x) == ComputeSha
    ensures x == 0xAA <==> MemoryCommandOf(x) == ReadScratchpad
    ensures x == 0x0F <==> MemoryCommandOf(x) == WriteScratchpad
    ensures x == 0xC3 <==> MemoryCommandOf(x) == EraseScratchpad
    ensures x == 0x55 <==> MemoryCommandOf(x) == CopyScratchpad
    ensures x == 0xA5 <==> MemoryCommandOf(x) == ReadAuthPage
  {}

  // ---------- the commands ----------

  /** `body`, its CRC, and `rest`. */
  predicate Answers(reply: seq<bv8>, body: seq<bv8>, rest: seq<bv8>) {
    && |reply| == |body| + 2 + |rest| && reply[..|body|] == body && reply[|body| + 2..] == rest
    && Crc(0, reply[..|body| + 2]) == 0xB001
  }

  lemma SealedPrefix(body: seq<bv8>, rest: seq<bv8>)
    ensures Crc(0, (Sealed(0, body) + rest)[..|body| + 2]) == 0xB001
  {
    hide Crc, CheckLow, CheckHigh;
    ResidueIff(0, body, CheckLow(Crc(0, body)), CheckHigh(Crc(0, body)));
    assert (Sealed(0, body) + rest)[..|body| + 2] == Sealed(0, body);
  }

  lemma SealedAnswers(body: seq<bv8>, rest: seq<bv8>)
    ensures Answers(Sealed(0, body) + rest, body, rest)
  {
    hide Crc, CheckLow, CheckHigh;
    SealedPrefix(body, rest);
  }

  /** Write scratchpad: inside the data memory, the bytes up to the end of the scratchpad are stored and echoed. */
  lemma WriteBytes(h: Hashes, d: Device, c: seq<bv8>)
    requires d.Ok() && WholeMemory(c) && InRange(d, c) && c[0] == 0x0F
    ensures |c| >= 3
    ensures var (now, reply) := Memory(h, d, c);
            var off := Offset(c[1]);
            if Address(c[1], c[2]) < 512 then
              && |c| >= 37
              && now == d.(ta1 := c[1], ta2 := c[2], latchES := EndBits(d.latchES), cmdState := CMD_ROM,
                           scratchpad := d.scratchpad[..off] + c[3..35 - off])
              && Answers(reply, c[..35], c[37..])
            else now == d.(ta1 := c[1], ta2 := c[2], cmdState := CMD_ROM) && reply == c
  {
    hide MemoryCommandOf, Address, Offset, EndBits, Sealed, Answers, InRange;
    CommandOf(c[0]);
    if Address(c[1], c[2]) < 512 {
      SealedAnswers(c[..35], c[37..]);
      var off := Offset(c[1]);
      assert Overwrite(d.scratchpad, off, c[3..35 - off]) == d.scratchpad[..off] + c[3..35 - off];
    }
  }

  /** Read scratchpad: address registers, end register and scratchpad from the offset on; nothing while hidden. */
  lemma ReadBytes(h: Hashes, d: Device, c: seq<bv8>)
    requires d.Ok() && WholeMemory(c) && InRange(d, c) && c[0] == 0xAA
    ensures |c| >= 38
    ensures var (now, reply) := Memory(h, d, c);
            var off := Offset(d.ta1);
            if d.hidden then
              now == d.(cmdState := CMD_ROM) && reply == [0xAA, d.ta1, d.ta2, c[3]] + Repeat(0xFF, |c| - 4)
            else
              && now == d.(latchES := EndAll(d.latchES), cmdState := CMD_ROM)
              && Answers(reply, [0xAA, d.ta1, d.ta2, EndAll(d.latchES)] + d.scratchpad[off..] + c[36 - off..36],
                         Repeat(0x55, |c| - 38))
  {
    hide MemoryCommandOf, Address, Offset, EndAll, Sealed, Answers, InRange;
    CommandOf(c[0]);
    var off := Offset(d.ta1);
    SealedAnswers([c[0], d.ta1, d.ta2, EndAll(d.latchES)] + d.scratchpad[off..] + c[36 - off..36],
                  Repeat(0x55, |c| - 38));
  }

  /** Copy scratchpad, to the data memory or, while they are selected, to the secrets. */
  lemma CopyBytes(h: Hashes, d: Device, c: seq<bv8>)
    requires d.Ok() && WholeMemory(c) && InRange(d, c) && c[0] == 0x55
    ensures |c| >= 4
    ensures var (now, reply) := Memory(h, d, c);
            var a, n := d.Addr(), EndCount(Accept(d.latchES));
            var told := c[1] == d.ta1 && c[2] == d.ta2 && c[3] == d.latchES;
            if told && !d.hidden && a < 512 then
              && a + n <= 512 && reply == c[..4] + Repeat(0x55, |c| - 4)
              && now == d.(latchES := Accept(d.latchES), cmdState := CMD_ROM,
                           nvram := d.nvram[..a] + d.scratchpad[..n] + d.nvram[a + n..])
            else if told && d.hidden && 512 <= a < 575 then
              && a + n <= 576 && reply == c[..4] + Repeat(0x55, |c| - 4)
              && now == d.(latchES := Accept(d.latchES), cmdState := CMD_ROM,
                           secrets := d.secrets[..a - 512] + d.scratchpad[..n] + d.secrets[a - 512 + n..])
            else now == d.(cmdState := CMD_ROM) && reply == c[..4] + Repeat(0xFF, |c| - 4)
  {
    hide MemoryCommandOf, Address, Accept, EndCount;
    CommandOf(c[0]);
  }

  /** An erased scratchpad is all FF, and the secrets are deselected. */
  lemma EraseLeavesOnes(h: Hashes, d: Device, c: seq<bv8>)
    requires d.Ok() && WholeMemory(c) && InRange(d, c) && c[0] == 0xC3
    ensures var now := Memory(h, d, c).0;
            && now == d.(ta1 := c[1], ta2 := c[2], hidden := false, cmdState := CMD_ROM, scratchpad := now.scratchpad)
            && (forall k :: 0 <= k < 32 ==> now.scratchpad[k] == 0xFF)
            && Memory(h, d, c).1 == c[..3] + seq(|c| - 3, _ => 0x55)
  {
    assert Repeat(0x55, |c| - 3) == seq(|c| - 3, _ => 0x55);
  }

  /** Read authenticated page: page and counters, as far as there are any, and cleared address registers. */
  lemma AuthBytes(h: Hashes, d: Device, c: seq<bv8>)
    requires d.Ok() && WholeMemory(c) && InRange(d, c) && c[0] == 0xA5
    ensures |c| >= 45
    ensures var reply, a := Memory(h, d, c).1, Address(c[1], c[2]);
            if a > 480 then Answers(reply, c[..43], Repeat(0x55, |c| - 45))
            else if a < 256 then
              Answers(reply, c[..3] + d.nvram[a..a + 32] + c[35..43], Repeat(0x55, |c| - 45))
            else
              Answers(reply, c[..3] + d.nvram[a..a + 32] + Le32(d.nvramCounter[a / 32 - 8])
                             + Le32(d.secretCounter[a / 32 - 8]), Repeat(0x55, |c| - 45))
  {
    hide MemoryCommandOf, Address, Sealed, Answers, InRange, Le32;
    CommandOf(c[0]);
    hide PageAndCounters;
    AuthBody(d, c);
    SealedAnswers(c[..3] + PageAndCounters(AtAddress(d, c), c[3..43]), Repeat(0x55, |c| - 45));
  }

  lemma AuthBody(d: Device, c: seq<bv8>)
    requires d.Ok() && |c| >= 45
    ensures var a, body := Address(c[1], c[2]), c[..3] + PageAndCounters(AtAddress(d, c), c[3..43]);
            body == if a > 480 then c[..43]
                    else if a < 256 then c[..3] + d.nvram[a..a + 32] + c[35..43]
                    else c[..3] + d.nvram[a..a + 32] + Le32(d.nvramCounter[a / 32 - 8])
                         + Le32(d.secretCounter[a / 32 - 8])
  {
    hide Address, Le32;
    AuthPages(Address(c[1], c[2]));
  }

  /** Sign data page: the command, its CRC and filling; what it leaves is the subject of SignLeavesHash. */
  lemma SignBytes(h: Hashes, d: Device, c: seq<bv8>)
    requires d.Ok() && WholeMemory(c) && InRange(d, c) && c[0] == 0x33
    ensures |c| >= 6 && Answers(Memory(h, d, c).1, c[..4], Repeat(0x55, |c| - 6))
  {
    hide MemoryCommandOf, Address, Sealed, Answers, InRange;
    CommandOf(c[0]);
    SealedAnswers(c[..4], Repeat(0x55, |c| - 6));
  }

  /** Reading a page with authentication leaves its hash at byte 8 of the scratchpad, for pages 8 to 15 alone. */
  lemma AuthLeavesHash(h: Hashes, d: Device, c: seq<bv8>)
    requires d.Ok() && WholeMemory(c) && InRange(d, c) && c[0] == 0xA5
    ensures var a := c[1] as int + 256 * (c[2] as int);
            var now := Memory(h, d, c).0;
            && now == d.(ta1 := 0x00, ta2 := 0x00, cmdState := CMD_ROM, scratchpad := now.scratchpad)
            && now.scratchpad == if 256 <= a <= 480
                                 then d.scratchpad[..8] + h.auth(d.(ta1 := c[1], ta2 := c[2])) + d.scratchpad[28..]
                                 else d.scratchpad
  {
    hide Sealed, PageAndCounters, Crc;
    AuthPages(c[1] as int + 256 * (c[2] as int));
  }

  lemma AuthPages(a: nat)
    ensures 256 <= a <= 480 <==> a + 32 <= 512 && 8 <= a / 32 < 16
  {}

  /** Signing a data page leaves its hash in the same place, for pages 0 and 8 alone. */
  lemma SignLeavesHash(h: Hashes, d: Device, c: seq<bv8>)
    requires d.Ok() && WholeMemory(c) && InRange(d, c) && c[0] == 0x33
    ensures var a, d1 := c[1] as int + 256 * (c[2] as int), d.(ta1 := c[1], ta2 := c[2]);
            var now := Memory(h, d, c).0;
            && now == d1.(cmdState := CMD_ROM, scratchpad := now.scratchpad)
            && now.scratchpad == if a < 32 || 256 <= a < 288
                                 then d.scratchpad[..8] + h.sign(d1) + d.scratchpad[28..] else d.scratchpad
  {
    hide Sealed, Crc, MemoryCommandOf, WholeMemory, InRange, Repeat, Address, Overwrite;
    SignCommand(c);
    AddressIs(c[1], c[2]);
    SignPages(Address(c[1], c[2]));
    HashInside(d.scratchpad, h.sign(d.(ta1 := c[1], ta2 := c[2])));
  }

  lemma AddressIs(x: bv8, y: bv8)
    ensures Address(x, y) == x as int + 256 * (y as int)
  {}

  lemma HashInside(pad: seq<bv8>, hash: Digest)
    requires |pad| == 32
    ensures Overwrite(pad, 8, hash) == pad[..8] + hash + pad[28..]
  {}

  lemma SignCommand(c: seq<bv8>)
    requires WholeMemory(c) && c[0] == 0x33
    ensures MemoryCommandOf(c[0]) == ComputeSha && |c| >= 6
  {}

  lemma SignPages(a: nat)
    ensures a < 32 || 256 <= a < 288 <==> a / 32 == 0 || a / 32 == 8
  {}

  /** Any other byte is ignored, and the part expects a ROM command again. */
  lemma OtherBytes(h: Hashes, d: Device, c: seq<bv8>)
    requires d.Ok() && WholeMemory(c) && InRange(d, c) && c[0] !in {0x33, 0xAA, 0x0F, 0xC3, 0x55, 0xA5}
    ensures Memory(h, d, c) == (d.(cmdState := CMD_ROM), [])
  {
    hide MemoryCommandOf, InRange;
    CommandOf(c[0]);
  }
}

/** What the DS1963S simulator guarantees to a host: over runs, and from one command to the next. */
module Ds1963sLaws {
  import opened BitMasks
  import opened Bytes
  import opened Crc16
  import opened Ds1963s
  import opened Ds1963sCommands
  import opened Packet

  // ---------- runs ----------

  datatype Event = Reset | ResetPulse | Data(bytes: seq<bv8>, beyond: seq<bv8>)

  function Step(h: Hashes, rom: seq<bv8>, d: Device, e: Event): (d': Device)
    requires d.Ok() && |rom| == 8 && (e.Data? ==> Whole(d, rom, e.bytes, e.beyond))
    ensures d'.Ok()
  {
    match e
    case Reset => Initial()
    case ResetPulse => d.(cmdState := CMD_ROM)
    case Data(bytes, beyond) => Exchange(h, rom, d, bytes, beyond).0
  }

  /** Every run of data bytes is whole when it arrives. */
  ghost predicate Possible(h: Hashes, rom: seq<bv8>, d: Device, events: seq<Event>)
    requires d.Ok() && |rom| == 8
    decreases |events|
  {
    events == []
    || ((events[0].Data? ==> Whole(d, rom, events[0].bytes, events[0].beyond))
        && Possible(h, rom, Step(h, rom, d, events[0]), events[1..]))
  }

  function Run(h: Hashes, rom: seq<bv8>, d: Device, events: seq<Event>): (d': Device)
    requires d.Ok() && |rom| == 8 && Possible(h, rom, d, events)
    ensures d'.Ok()
    decreases |events|
  {
    if events == [] then d else Run(h, rom, Step(h, rom, d, events[0]), events[1..])
  }

  /** The secrets are not selected, and neither they nor the write-cycle counters have ever changed. */
  ghost predicate Untouched(d: Device) {
    && d.Ok() && !d.hidden && d.secrets == Repeat(0, 64)
    && d.nvramCounter == seq(8, _ => 0) && d.secretCounter == seq(8, _ => 0)
  }

  lemma MemoryUntouched(h: Hashes, d: Device, c: seq<bv8>)
    requires Untouched(d) && WholeMemory(c) && InRange(d, c)
    ensures Untouched(Memory(h, d, c).0)
  {
    hide MemoryCommandOf, Address, Offset, EndBits, EndAll, Accept, EndCount, Sealed, PageAndCounters, Overwrite,
         SignsPage;
  }

  /** Whatever whole commands, resets and reset pulses come. */
  lemma {:induction false} AlwaysUntouched(h: Hashes, rom: seq<bv8>, d: Device, events: seq<Event>)
    requires Untouched(d) && |rom| == 8 && Possible(h, rom, d, events)
    ensures Untouched(Run(h, rom, d, events))
    decreases |events|
  {
    hide Memory, WholeMemory, WholeRom, InRange, RomReply;
    if events != [] {
      var e := events[0];
      if e.Data? {
        ExchangeUntouched(h, rom, d, e.bytes, e.beyond);
      }
      AlwaysUntouched(h, rom, Step(h, rom, d, e), events[1..]);
    }
  }

  lemma ExchangeUntouched(h: Hashes, rom: seq<bv8>, d: Device, c: seq<bv8>, beyond: seq<bv8>)
    requires Untouched(d) && |rom| == 8 && Whole(d, rom, c, beyond)
    ensures Untouched(Exchange(h, rom, d, c, beyond).0)
  {
    hide Memory, WholeMemory, WholeRom, InRange, RomReply;
    if c != [] {
      if d.cmdState == CMD_MEMORY {
        MemoryUntouched(h, d, c);
      } else if |RomReply(rom, c)| < |c| {
        var n := |RomReply(rom, c)|;
        InRangeAlways(d, c[n..] + beyond[..n]);
        MemoryUntouched(h, d.(cmdState := CMD_MEMORY), c[n..] + beyond[..n]);
      }
    }
  }

  /** From ds1963s_init on, HIDE stays 0, and secrets and counters stay as they were. */
  lemma ReachableUntouched(h: Hashes, rom: seq<bv8>, events: seq<Event>)
    requires |rom| == 8 && Possible(h, rom, Initial(), events)
    ensures Untouched(Run(h, rom, Initial(), events))
  {
    AlwaysUntouched(h, rom, Initial(), events);
  }

  /** The data memory changes only through a copy that repeats the address and end registers. */
  lemma NvramGuard(h: Hashes, d: Device, c: seq<bv8>)
    requires d.Ok() && WholeMemory(c) && InRange(d, c)
    ensures Memory(h, d, c).0.nvram ==
      if MemoryCommandOf(c[0]) == CopyScratchpad && CopyAccepted(d, c) && !d.hidden
      then Overwrite(d.nvram, d.Addr(), d.scratchpad[..EndCount(Accept(d.latchES))]) else d.nvram
  {
    hide MemoryCommandOf, Address, Offset, EndBits, EndAll, Accept, EndCount, Sealed, PageAndCounters, Overwrite,
         SignsPage;
  }

  // ---------- CRCs ----------

  /** How many reply bytes the CRC covers, the CRC included; 0 if the reply has none. */
  function CrcRegion(d: Device, c: seq<bv8>): (n: nat)
    requires WholeMemory(c)
    ensures n <= |c|
  {
    match MemoryCommandOf(c[0])
    case ComputeSha => 6
    case ReadScratchpad => if d.hidden then 0 else 38
    case WriteScratchpad => if Address(c[1], c[2]) < NVRAM_SIZE then 37 else 0
    case ReadAuthPage => 45
    case _ => 0
  }

  /** Every reply with a CRC passes the host's residue check. */
  lemma RepliesPass(h: Hashes, d: Device, c: seq<bv8>)
    requires d.Ok() && WholeMemory(c) && InRange(d, c) && CrcRegion(d, c) > 0
    ensures |Memory(h, d, c).1| == |c| && Crc(0, Memory(h, d, c).1[..CrcRegion(d, c)]) == 0xB001
  {
    hide Memory, MemoryCommandOf, Address, InRange, Crc;
    CommandOf(c[0]);
    match MemoryCommandOf(c[0]) {
      case ComputeSha => SignBytes(h, d, c);
      case ReadScratchpad => ReadBytes(h, d, c);
      case WriteScratchpad => WriteBytes(h, d, c);
      case ReadAuthPage => AuthBytes(h, d, c);
      case _ => assert false;
    }
  }

  // ---------- write, read, copy, read back ----------

  lemma EndRegister(es: bv8)
    ensures EndAll(EndBits(es)) == 0x1F
  {}

  lemma EndCountOfAll()
    ensures EndCount(Accept(0x1F)) == 31
  {}

  /** The state between two commands differs only in what the part expects next. */
  predicate SameMemory(d: Device, d': Device) { d' == d.(cmdState := d'.cmdState) }

  /** A write scratchpad inside the data memory. */
  predicate WritesScratchpad(c: seq<bv8>) {
    WholeMemory(c) && MemoryCommandOf(c[0]) == WriteScratchpad && |c| >= 37 && Address(c[1], c[2]) < NVRAM_SIZE
  }

  predicate ReadsScratchpad(c: seq<bv8>) { WholeMemory(c) && MemoryCommandOf(c[0]) == ReadScratchpad && |c| >= 38 }

  /** The state after a write scratchpad. */
  lemma AfterWrite(h: Hashes, d: Device, w: seq<bv8>)
    requires d.Ok() && WritesScratchpad(w) && InRange(d, w)
    ensures Memory(h, d, w).0 == d.(ta1 := w[1], ta2 := w[2], latchES := EndBits(d.latchES), cmdState := CMD_ROM,
                                    scratchpad := Overwrite(d.scratchpad, Offset(w[1]), w[3..35 - Offset(w[1])]))
  {
    hide MemoryCommandOf, Address, EndBits, WholeMemory, Sealed, Overwrite, Offset, InRange;
  }

  /** The reply to a read scratchpad, up to its CRC. */
  lemma ReadReplies(h: Hashes, d: Device, r: seq<bv8>)
    requires d.Ok() && !d.hidden && ReadsScratchpad(r) && InRange(d, r)
    ensures Memory(h, d, r).0 == d.(latchES := EndAll(d.latchES), cmdState := CMD_ROM)
    ensures [r[0], d.ta1, d.ta2, EndAll(d.latchES)] + d.scratchpad[Offset(d.ta1)..] <= Memory(h, d, r).1
    ensures |Memory(h, d, r).1| == |r| && Crc(0, Memory(h, d, r).1[..38]) == 0xB001
  {
    hide Crc, MemoryCommandOf, WholeMemory, Sealed, InRange, EndAll, Offset;
    RepliesPass(h, d, r);
    var off := Offset(d.ta1);
    var body := [r[0], d.ta1, d.ta2, EndAll(d.latchES)] + d.scratchpad[off..];
    assert body + r[36 - off..36] <= Sealed(0, body + r[36 - off..36]);
  }

  /** What was written to the scratchpad is read back, with its address, and the end register at its last value. */
  lemma WriteThenRead(h: Hashes, d: Device, w: seq<bv8>, d1: Device, r: seq<bv8>)
    requires d.Ok() && !d.hidden && WritesScratchpad(w) && InRange(d, w)
    requires SameMemory(Memory(h, d, w).0, d1) && ReadsScratchpad(r) && InRange(d1, r)
    ensures var off, reply := Offset(w[1]), Memory(h, d1, r).1;
            && |reply| == |r|
            && reply[1..4] == [w[1], w[2], 0x1F]
            && reply[4..36 - off] == w[3..35 - off]
            && Crc(0, reply[..38]) == 0xB001
  {
    hide Crc, MemoryCommandOf, EndBits, EndAll, WholeMemory, Memory, Offset, InRange;
    AfterWrite(h, d, w);
    ReadReplies(h, d1, r);
    EndRegister(d.latchES);
    var off, reply := Offset(w[1]), Memory(h, d1, r).1;
    assert d1.scratchpad[off..] == w[3..35 - off];
    var body := [r[0], w[1], w[2], 0x1F] + w[3..35 - off];
    SliceOfPrefix(reply, body, 1, 4);
    SliceOfPrefix(reply, body, 4, 36 - off);
    assert body[1..4] == [w[1], w[2], 0x1F] && body[4..36 - off] == w[3..35 - off];
  }

  lemma SliceOfPrefix(s: seq<bv8>, p: seq<bv8>, i: nat, j: nat)
    requires p <= s && i <= j <= |p|
    ensures s[i..j] == p[i..j]
  {}

  /** A copy scratchpad that repeats the address and end registers it was told. */
  predicate CopiesScratchpad(c: seq<bv8>, address: seq<bv8>) {
    |c| >= 4 && |address| == 3 && MemoryCommandOf(c[0]) == CopyScratchpad && c[1..4] == address
  }

  /**
   * Write, read and copy: the documentation promises the whole scratchpad, the code copies as many bytes
   * as the end register says, which after a read is 31. The data goes to the address itself, from the
   * start of the scratchpad.
   */
  lemma WriteReadCopy(h: Hashes, d: Device, w: seq<bv8>, d1: Device, r: seq<bv8>, d2: Device, c: seq<bv8>)
    requires d.Ok() && !d.hidden && WritesScratchpad(w) && InRange(d, w)
    requires SameMemory(Memory(h, d, w).0, d1) && ReadsScratchpad(r) && InRange(d1, r)
    requires SameMemory(Memory(h, d1, r).0, d2) && |Memory(h, d1, r).1| >= 4
    requires CopiesScratchpad(c, Memory(h, d1, r).1[1..4]) && WholeMemory(c) && InRange(d2, c)
    ensures Address(w[1], w[2]) + 31 <= NVRAM_SIZE
    ensures Memory(h, d2, c).0.nvram == Overwrite(d.nvram, Address(w[1], w[2]), d1.scratchpad[..31])
    ensures Memory(h, d2, c).1 == c[..4] + Repeat(0x55, |c| - 4)
  {
    hide Crc, MemoryCommandOf, EndBits, EndAll, Memory, Offset, WholeMemory, Address, Overwrite, Accept, EndCount;
    AfterWrite(h, d, w);
    ReadReplies(h, d1, r);
    WriteThenRead(h, d, w, d1, r);
    EndRegister(d.latchES);
    EndCountOfAll();
    assert c[1..4] == [w[1], w[2], 0x1F];
    assert c[1] == c[1..4][0] && c[2] == c[1..4][1] && c[3] == c[1..4][2];
    assert CopyAccepted(d2, c);
    NvramGuard(h, d2, c);
    CommandOf(c[0]);
    CopyBytes(h, d2, c);
  }

  lemma OverwrittenPage(nvram: seq<bv8>, pad: seq<bv8>, addr: nat)
    requires |nvram| == NVRAM_SIZE && |pad| == SCRATCHPAD_SIZE && addr + 32 <= NVRAM_SIZE
    ensures Overwrite(nvram, addr, pad[..31])[addr..addr + 32] == pad <==> nvram[addr + 31] == pad[31]
    ensures Overwrite(nvram, addr, pad[..31])[addr..addr + 31] == pad[..31]
  {
    var page := Overwrite(nvram, addr, pad[..31])[addr..addr + 32];
    assert page == pad[..31] + [nvram[addr + 31]];
    assert pad == pad[..31] + [pad[31]];
    assert page[31] == nvram[addr + 31];
  }

  /** A page-aligned write, read and copy stores the page exactly if its last byte was already there. */
  lemma PageStoredIff(h: Hashes, d: Device, w: seq<bv8>, d1: Device, r: seq<bv8>, d2: Device, c: seq<bv8>)
    requires d.Ok() && !d.hidden && WritesScratchpad(w) && InRange(d, w) && Offset(w[1]) == 0
    requires SameMemory(Memory(h, d, w).0, d1) && ReadsScratchpad(r) && InRange(d1, r)
    requires SameMemory(Memory(h, d1, r).0, d2) && |Memory(h, d1, r).1| >= 4
    requires CopiesScratchpad(c, Memory(h, d1, r).1[1..4]) && WholeMemory(c) && InRange(d2, c)
    requires Address(w[1], w[2]) + 32 <= NVRAM_SIZE
    ensures var addr, nvram := Address(w[1], w[2]), Memory(h, d2, c).0.nvram;
            && (nvram[addr..addr + 32] == w[3..35] <==> d.nvram[addr + 31] == w[34])
            && nvram[addr..addr + 31] == w[3..34]
            && nvram == Overwrite(d.nvram, addr, w[3..34])
  {
    hide MemoryCommandOf, EndBits, EndAll, Memory, Offset, WholeMemory, Address, Accept, EndCount;
    AfterWrite(h, d, w);
    WriteReadCopy(h, d, w, d1, r, d2, c);
    assert d1.scratchpad == w[3..35];
    OverwrittenPage(d.nvram, w[3..35], Address(w[1], w[2]));
  }

  // A host's three commands for page 0: 32 bytes 0xFF, read back, copied with the registers it was told.

  function WriteOnes(): (c: seq<bv8>) { [0x0F, 0x00, 0x00] + Repeat(0xFF, 34) }

  function ReadBack(): (c: seq<bv8>) { [0xAA] + Repeat(0xFF, 37) }

  function CopyPage(): (c: seq<bv8>) { [0x55, 0x00, 0x00, 0x1F] }

  lemma WholeCommands()
    ensures WritesScratchpad(WriteOnes()) && ReadsScratchpad(ReadBack())
    ensures WholeMemory(CopyPage()) && MemoryCommandOf(CopyPage()[0]) == CopyScratchpad
    ensures Address(0x00, 0x00) == 0 && Offset(0x00) == 0
  {}

  lemma NoCopyInRange(d: Device, c: seq<bv8>)
    requires WritesScratchpad(c) || ReadsScratchpad(c)
    ensures InRange(d, c)
  {
    hide MemoryCommandOf, WholeMemory, Address, CopyAccepted;
  }

  /** The state of a new part after the write and the read. */
  lemma OnesReadBack(h: Hashes, d1: Device, d2: Device)
    requires WritesScratchpad(WriteOnes()) && InRange(Initial(), WriteOnes())
    requires d1 == Memory(h, Initial(), WriteOnes()).0
    requires ReadsScratchpad(ReadBack()) && InRange(d1, ReadBack()) && d2 == Memory(h, d1, ReadBack()).0
    ensures d2 == Initial().(latchES := 0x1F, scratchpad := Repeat(0xFF, 32))
  {
    WholeCommands();
    hide MemoryCommandOf, Address, Offset, EndBits, EndAll, WholeMemory, Memory, InRange;
    AfterWrite(h, Initial(), WriteOnes());
    ReadReplies(h, d1, ReadBack());
    EndRegister(Initial().latchES);
    assert WriteOnes()[3..35] == Repeat(0xFF, 32);
    assert Overwrite(Initial().scratchpad, 0, Repeat(0xFF, 32)) == Repeat(0xFF, 32);
  }

  lemma PageCopied(d: Device)
    requires d == Initial().(latchES := 0x1F, scratchpad := Repeat(0xFF, 32))
    ensures WholeMemory(CopyPage()) && CopyAccepted(d, CopyPage()) && InRange(d, CopyPage()) && d.Addr() == 0
  {
    WholeCommands();
    EndCountOfAll();
    hide EndCount, Accept, MemoryCommandOf;
  }

  /** The failing run: on a new part, 31 of the 32 bytes arrive, and the last byte of the page stays 0. */
  lemma LastByteLost(h: Hashes)
    ensures WholeMemory(WriteOnes()) && InRange(Initial(), WriteOnes())
    ensures var d1 := Memory(h, Initial(), WriteOnes()).0;
            && WholeMemory(ReadBack()) && InRange(d1, ReadBack())
            && var d2 := Memory(h, d1, ReadBack()).0;
               && WholeMemory(CopyPage()) && InRange(d2, CopyPage())
               && Memory(h, d2, CopyPage()).0.nvram == Repeat(0xFF, 31) + Repeat(0x00, 481)
  {
    WholeCommands();
    hide MemoryCommandOf, Address, Offset, WholeMemory, Memory, InRange, EndCount, Accept, WriteOnes, ReadBack,
         CopyPage, CopyAccepted;
    NoCopyInRange(Initial(), WriteOnes());
    var d1 := Memory(h, Initial(), WriteOnes()).0;
    NoCopyInRange(d1, ReadBack());
    var d2 := Memory(h, d1, ReadBack()).0;
    OnesReadBack(h, d1, d2);
    PageCopied(d2);
    NvramGuard(h, d2, CopyPage());
    EndCountOfAll();
    assert Repeat(0xFF, 32)[..31] == Repeat(0xFF, 31);
  }

  // ---------- the hashes a host reads back ----------

  /** The scratchpad, read from its start: the reply shows it from byte 4 on. */
  lemma ScratchpadShown(h: Hashes, d: Device, r: seq<bv8>)
    requires d.Ok() && !d.hidden && WholeMemory(r) && InRange(d, r) && r[0] == 0xAA && d.ta1 == 0x00
    ensures |Memory(h, d, r).1| == |r| >= 38 && Memory(h, d, r).1[4..36] == d.scratchpad
  {
    StartOfScratchpad();
    hide Crc, MemoryCommandOf, WholeMemory, Sealed, InRange, EndAll, Offset, Memory;
    ReadCommand(r);
    ReadReplies(h, d, r);
    SliceOfPrefix(Memory(h, d, r).1, [r[0], d.ta1, d.ta2, EndAll(d.latchES)] + d.scratchpad[0..], 4, 36);
    assert d.scratchpad[0..] == d.scratchpad;
  }

  lemma StartOfScratchpad()
    ensures Offset(0x00) == 0
  {}

  lemma ReadCommand(r: seq<bv8>)
    requires WholeMemory(r) && r[0] == 0xAA
    ensures ReadsScratchpad(r)
  {}

  /** The host that reads the scratchpad next finds the hash in bytes 12 to 31 of the reply. */
  lemma AuthThenRead(h: Hashes, d: Device, c: seq<bv8>, d1: Device, r: seq<bv8>)
    requires d.Ok() && !d.hidden && WholeMemory(c) && InRange(d, c) && c[0] == 0xA5
    requires 256 <= c[1] as int + 256 * (c[2] as int) <= 480
    requires SameMemory(Memory(h, d, c).0, d1) && WholeMemory(r) && InRange(d1, r) && r[0] == 0xAA
    ensures |Memory(h, d1, r).1| == |r| && Memory(h, d1, r).1[12..32] == h.auth(d.(ta1 := c[1], ta2 := c[2]))
  {
    hide WholeMemory, InRange, Memory;
    AuthLeavesHash(h, d, c);
    ScratchpadShown(h, d1, r);
    SliceOfSlice(Memory(h, d1, r).1, 4, 36, 8, 28);
  }

  lemma SliceOfSlice(s: seq<bv8>, i: nat, j: nat, k: nat, l: nat)
    requires i <= j <= |s| && k <= l <= j - i
    ensures s[i + k..i + l] == s[i..j][k..l]
  {
    forall m | 0 <= m < l - k
      ensures s[i + k..i + l][m] == s[i..j][k..l][m]
    {
      assert s[i..j][k..l][m] == s[i..j][k + m] == s[i + (k + m)];
    }
  }

  // ---------- ROM commands ----------

  /** What each ROM command answers: the ROM, the search triples, or the command itself. */
  lemma RomReplies(rom: seq<bv8>, c: seq<bv8>)
    requires |rom| == 8 && WholeRom(c)
    ensures c[0] == 0x33 || c[0] == 0x55 ==> |c| >= 9 && RomReply(rom, c) == rom + [c[8]]
    ensures c[0] == 0xF0 ==> |c| >= 25 && RomReply(rom, c) == [c[0]] + SearchTriples(rom, 64) + c[25..]
    ensures c[0] == 0xCC || c[0] == 0xA5 ==> RomReply(rom, c) == [c[0]]
    ensures c[0] !in {0x33, 0x55, 0xF0, 0xCC, 0xA5} ==> RomReply(rom, c) == c
  {
    hide SearchTriples;
  }

  /**
   * Skip ROM and a memory command in one run of data bytes: the memory command is taken to be one byte longer than
   * it is, by what lies behind the buffer.
   */
  lemma SkipAndMemory(h: Hashes, rom: seq<bv8>, d: Device, m: seq<bv8>, beyond: seq<bv8>)
    requires d.Ok() && |rom| == 8 && d.cmdState == CMD_ROM && m != [] && |beyond| == 1
    requires WholeMemory(m + beyond) && InRange(d, m + beyond)
    ensures var d1 := d.(cmdState := CMD_MEMORY);
            InRange(d1, m + beyond) && Whole(d, rom, [0xCC] + m, beyond)
            && Exchange(h, rom, d, [0xCC] + m, beyond)
               == (Memory(h, d1, m + beyond).0, [0xCC] + Memory(h, d1, m + beyond).1)
  {
    hide Memory, WholeMemory, InRange;
    InRangeAlways(d, m + beyond);
    var c := [0xCC] + m;
    assert c[1..] == m && beyond[..1] == beyond;
    assert c[0] == 0xCC && WholeRom(c) && RomReply(rom, c) == [c[0]];
  }

  /** Read authenticated page shows the data memory, with counters that are still zero. */
  lemma ReadAuthShows(h: Hashes, rom: seq<bv8>, d: Device, c: seq<bv8>)
    requires Untouched(d) && WholeMemory(c) && InRange(d, c) && MemoryCommandOf(c[0]) == ReadAuthPage && |c| >= 45
    requires Address(c[1], c[2]) + 32 <= NVRAM_SIZE
    ensures var addr, reply := Address(c[1], c[2]), Memory(h, d, c).1;
            && |reply| == |c| && reply[3..35] == d.nvram[addr..addr + 32]
            && (8 <= addr / 32 < 16 ==> reply[35..43] == Repeat(0, 8))
  {
    hide Crc, MemoryCommandOf, WholeMemory, Sealed, InRange, Address, Overwrite, Le32;
    LeZero();
    var d1 := AtAddress(d, c);
    var body := c[..3] + PageAndCounters(d1, c[3..43]);
    var reply := Memory(h, d, c).1;
    assert body <= Sealed(0, body);
    assert reply == Sealed(0, body) + Repeat(0x55, |c| - 45);
    SliceOfPrefix(reply, body, 3, 35);
    SliceOfPrefix(reply, body, 35, 43);
    assert body[3..35] == PageAndCounters(d1, c[3..43])[..32];
    assert body[35..43] == PageAndCounters(d1, c[3..43])[32..];
  }

  lemma LeZero()
    ensures Le32(0) == [0, 0, 0, 0]
  {}

  /** The counters are sent lowest byte first. */
  lemma LittleEndian(w: bv32)
    ensures var s := Le32(w);
            (s[0] as bv32) | ((s[1] as bv32) << 8) | ((s[2] as bv32) << 16) | ((s[3] as bv32) << 24) == w
  {}

  // ---------- search ROM ----------

  /** Bit `j` of the search reply. */
  predicate ReplyBit(out: seq<bv8>, j: nat)
    requires |out| == 24 && j < 192
  {
    ByteBit(out[j / 8], j % 8)
  }

  lemma {:induction false} TripleBit(rom: seq<bv8>, n: nat, j: nat)
    requires |rom| == 8 && n <= 64 && j < 192
    ensures ReplyBit(SearchTriples(rom, n), j) <==> j / 3 < n && j == TriplePosition(rom, j / 3)
    decreases n
  {
    hide ByteBit, SetBit;
    if n > 0 {
      TripleBit(rom, n - 1, j);
      var out, pos := SearchTriples(rom, n - 1), TriplePosition(rom, n - 1);
      if pos / 8 == j / 8 {
        SetByteBit(out[pos / 8], pos % 8, j % 8);
      }
      SearchStep(rom, n - 1);
    } else {
      NoBits(j % 8);
      SearchStart(rom);
    }
  }

  /** Every triple is the ROM bit, its complement, and no direction. */
  lemma SearchShowsRom(rom: seq<bv8>, i: nat)
    requires |rom| == 8 && i < 64
    ensures var out := SearchTriples(rom, 64);
            && (ReplyBit(out, 3 * i) <==> ByteBit(rom[i / 8], i % 8))
            && (ReplyBit(out, 3 * i + 1) <==> !ByteBit(rom[i / 8], i % 8))
            && !ReplyBit(out, 3 * i + 2)
  {
    hide ByteBit, SearchTriples, ReplyBit;
    TripleBit(rom, 64, 3 * i);
    TripleBit(rom, 64, 3 * i + 1);
    TripleBit(rom, 64, 3 * i + 2);
  }

  lemma SameBits(x: bv8, y: bv8)
    requires forall i: nat :: i < 8 ==> (ByteBit(x, i) <==> ByteBit(y, i))
    ensures x == y
  {
    assert ByteBit(x, 0) <==> ByteBit(y, 0);
    assert ByteBit(x, 1) <==> ByteBit(y, 1);
    assert ByteBit(x, 2) <==> ByteBit(y, 2);
    assert ByteBit(x, 3) <==> ByteBit(y, 3);
    assert ByteBit(x, 4) <==> ByteBit(y, 4);
    assert ByteBit(x, 5) <==> ByteBit(y, 5);
    assert ByteBit(x, 6) <==> ByteBit(y, 6);
    assert ByteBit(x, 7) <==> ByteBit(y, 7);
  }

  /** The search reply identifies the part. */
  lemma SearchIdentifies(rom: seq<bv8>, rom': seq<bv8>)
    requires |rom| == |rom'| == 8 && SearchTriples(rom, 64) == SearchTriples(rom', 64)
    ensures rom == rom'
  {
    hide ByteBit, SearchTriples, ReplyBit;
    forall k | 0 <= k < 8
      ensures rom[k] == rom'[k]
    {
      forall i: nat | i < 8
        ensures ByteBit(rom[k], i) <==> ByteBit(rom'[k], i)
      {
        SearchShowsRom(rom, 8 * k + i);
        SearchShowsRom(rom', 8 * k + i);
      }
      SameBits(rom[k], rom'[k]);
    }
  }
}

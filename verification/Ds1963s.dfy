/**
 * The DS1963S simulator (ds1963s.c): a part with 512 bytes of NVRAM behind a 32-byte scratchpad,
 * driven by a ROM command and then a memory command, each arriving whole in one buffer.
 */
module Ds1963s {
  import opened BitMasks
  import opened Bytes
  import opened Crc16
  import opened Packet

  const NVRAM_SIZE: nat := 512
  const SCRATCHPAD_SIZE: nat := 32

  type Digest = s: seq<bv8> | |s| == 20 witness seq(20, _ => 0)

  datatype CmdState = CMD_ROM | CMD_MEMORY

  /** ds1963s_data without AUTH, CHLG, RC, MATCH and SEC, which no reply or NVRAM byte depends on. */
  datatype Device = Device(
    nvram: seq<bv8>, secrets: seq<bv8>, scratchpad: seq<bv8>, nvramCounter: seq<bv32>, secretCounter: seq<bv32>,
    ta1: bv8, ta2: bv8, latchES: bv8, hidden: bool, cmdState: CmdState)
  {
    predicate Ok() {
      && |nvram| == NVRAM_SIZE && |secrets| == 64 && |scratchpad| == SCRATCHPAD_SIZE
      && |nvramCounter| == 8 && |secretCounter| == 8
    }

    function Addr(): nat { Address(ta1, ta2) }
  }

  /** The two SHA-1 computations over the state, which this module does not look into. */
  datatype Hashes = Hashes(sign: Device -> Digest, auth: Device -> Digest)

  // ---------- registers ----------

  function Address(ta1: bv8, ta2: bv8): (a: nat) { ta1 as int + 256 * (ta2 as int) }

  /** `TA1 & 0x1F`. */
  function Offset(ta1: bv8): (k: nat)
    ensures k < SCRATCHPAD_SIZE
  {
    (ta1 & 0x1F) as int
  }

  function EndBits(es: bv8): bv8 { es & 0x1F }

  function EndAll(es: bv8): bv8 { es | 0x1F }

  function Accept(es: bv8): bv8 { es | 0x80 }

  function EndCount(es: bv8): (n: nat)
    ensures n < 32
  {
    (es & 0x1F) as int
  }

  function Le32(w: bv32): (s: seq<bv8>)
    ensures |s| == 4
  {
    [(w & 0xFF) as bv8, ((w >> 8) & 0xFF) as bv8, ((w >> 16) & 0xFF) as bv8, (w >> 24) as bv8]
  }

  datatype MemoryCommand = ComputeSha | ReadScratchpad | WriteScratchpad | EraseScratchpad | CopyScratchpad
                         | ReadAuthPage | NoMemoryCommand

  function MemoryCommandOf(b: bv8): MemoryCommand {
    if b == 0x33 then ComputeSha else if b == 0xAA then ReadScratchpad else if b == 0x0F then WriteScratchpad
    else if b == 0xC3 then EraseScratchpad else if b == 0x55 then CopyScratchpad else if b == 0xA5 then ReadAuthPage
    else NoMemoryCommand
  }

  datatype RomCommand = ReadRom | SearchRom | SkipRom | NoRomCommand

  /** Match ROM (0x55) is answered like read ROM (0x33), resume (0xA5) like skip ROM (0xCC). */
  function RomCommandOf(b: bv8): RomCommand {
    if b == 0x33 || b == 0x55 then ReadRom else if b == 0xF0 then SearchRom
    else if b == 0xCC || b == 0xA5 then SkipRom else NoRomCommand
  }

  predicate SignsPage(b: bv8) { b == 0xC3 }

  // ---------- what a whole command is ----------

  /** A memory command with all its bytes, those of the reply included. */
  predicate WholeMemory(c: seq<bv8>) {
    && c != []
    && match MemoryCommandOf(c[0])
       case ComputeSha => |c| >= 6 && SignsPage(c[3])
       case ReadScratchpad => |c| >= 38
       case WriteScratchpad => |c| >= (if |c| < 3 || Address(c[1], c[2]) < NVRAM_SIZE then 37 else 3)
       case EraseScratchpad => |c| >= 3
       case CopyScratchpad => |c| >= 4
       case ReadAuthPage => |c| >= 45
       case NoMemoryCommand => true
  }

  predicate WholeRom(c: seq<bv8>) {
    && c != []
    && match RomCommandOf(c[0])
       case ReadRom => |c| >= 9
       case SearchRom => |c| >= 25
       case SkipRom => true
       case NoRomCommand => true
  }

  /** The part of copy scratchpad's checks that depends on the registers. */
  predicate CopyAccepted(d: Device, c: seq<bv8>)
    requires |c| >= 4
  {
    && (if d.hidden then NVRAM_SIZE <= d.Addr() < 0x23F else d.Addr() < NVRAM_SIZE)
    && c[1] == d.ta1 && c[2] == d.ta2 && c[3] == d.latchES
  }

  /** An accepted copy stays inside the memory it addresses. */
  predicate InRange(d: Device, c: seq<bv8>) {
    |c| >= 4 && MemoryCommandOf(c[0]) == CopyScratchpad && CopyAccepted(d, c) ==>
      (d.Addr() + EndCount(Accept(d.latchES)) <= if d.hidden then NVRAM_SIZE + 64 else NVRAM_SIZE)
  }

  // ---------- the commands, on values ----------

  function Repeat(x: bv8, n: nat): (s: seq<bv8>)
    ensures |s| == n && forall i :: 0 <= i < n ==> s[i] == x
  {
    seq(n, _ => x)
  }

  function AtAddress(d: Device, c: seq<bv8>): Device
    requires |c| >= 3
  {
    d.(ta1 := c[1], ta2 := c[2])
  }

  function DoComputeSha(h: Hashes, d: Device, c: seq<bv8>): (r: (Device, seq<bv8>))
    requires d.Ok() && |c| >= 6
    ensures r.0.Ok() && |r.1| == |c|
  {
    var d1 := AtAddress(d, c);
    var page := d1.Addr() / 32;
    (if page == 0 || page == 8 then d1.(scratchpad := Overwrite(d1.scratchpad, 8, h.sign(d1))) else d1,
     Sealed(0, c[..4]) + Repeat(0x55, |c| - 6))
  }

  function DoReadScratchpad(d: Device, c: seq<bv8>): (r: (Device, seq<bv8>))
    requires d.Ok() && |c| >= 38
    ensures r.0.Ok() && |r.1| == |c|
  {
    if d.hidden then (d, [c[0], d.ta1, d.ta2, c[3]] + Repeat(0xFF, |c| - 4))
    else
      var off, es := Offset(d.ta1), EndAll(d.latchES);
      (d.(latchES := es),
       Sealed(0, [c[0], d.ta1, d.ta2, es] + d.scratchpad[off..] + c[36 - off..36]) + Repeat(0x55, |c| - 38))
  }

  function DoWriteScratchpad(d: Device, c: seq<bv8>): (r: (Device, seq<bv8>))
    requires d.Ok() && |c| >= 3 && (Address(c[1], c[2]) < NVRAM_SIZE ==> |c| >= 37)
    ensures r.0.Ok() && |r.1| == |c|
  {
    var d1 := AtAddress(d, c);
    if d1.Addr() < NVRAM_SIZE then
      var off := Offset(c[1]);
      (d1.(latchES := EndBits(d.latchES), scratchpad := Overwrite(d.scratchpad, off, c[3..35 - off])),
       Sealed(0, c[..35]) + c[37..])
    else (d1, c)
  }

  function DoEraseScratchpad(d: Device, c: seq<bv8>): (r: (Device, seq<bv8>))
    requires d.Ok() && |c| >= 3
    ensures r.0.Ok() && |r.1| == |c|
  {
    (AtAddress(d, c).(scratchpad := Repeat(0xFF, SCRATCHPAD_SIZE), hidden := false), c[..3] + Repeat(0x55, |c| - 3))
  }

  /** As many scratchpad bytes as the end register says, copied to the address registers' address. */
  function Copied(d: Device): (d': Device)
    requires d.Ok() && (if d.hidden then NVRAM_SIZE <= d.Addr() else d.Addr() < NVRAM_SIZE)
    requires d.Addr() + EndCount(Accept(d.latchES)) <= if d.hidden then NVRAM_SIZE + 64 else NVRAM_SIZE
    ensures d'.Ok()
  {
    var d1 := d.(latchES := Accept(d.latchES));
    var data := d.scratchpad[..EndCount(d1.latchES)];
    if d.hidden then d1.(secrets := Overwrite(d.secrets, d.Addr() - NVRAM_SIZE, data))
    else d1.(nvram := Overwrite(d.nvram, d.Addr(), data))
  }

  function DoCopyScratchpad(d: Device, c: seq<bv8>): (r: (Device, seq<bv8>))
    requires d.Ok() && |c| >= 4 && MemoryCommandOf(c[0]) == CopyScratchpad && InRange(d, c)
    ensures r.0.Ok() && |r.1| == |c|
  {
    if CopyAccepted(d, c) then (Copied(d), c[..4] + Repeat(0x55, |c| - 4)) else (d, c[..4] + Repeat(0xFF, |c| - 4))
  }

  /** The page, and for pages 8 to 15 their two write-cycle counters. */
  function PageAndCounters(d: Device, rest: seq<bv8>): (s: seq<bv8>)
    requires d.Ok() && |rest| == 40
    ensures |s| == 40
  {
    if d.Addr() + 32 > NVRAM_SIZE then rest
    else
      var page := d.Addr() / 32;
      d.nvram[d.Addr()..d.Addr() + 32]
      + if 8 <= page < 16 then Le32(d.nvramCounter[page - 8]) + Le32(d.secretCounter[page - 8]) else rest[32..]
  }

  /** Reading one of pages 8 to 15 leaves its hash in the scratchpad. */
  function Hashed(h: Hashes, d: Device): (d': Device)
    requires d.Ok()
    ensures d'.Ok()
  {
    if d.Addr() + 32 <= NVRAM_SIZE && 8 <= d.Addr() / 32 < 16 then
      d.(scratchpad := Overwrite(d.scratchpad, 8, h.auth(d)))
    else d
  }

  function DoReadAuthPage(h: Hashes, d: Device, c: seq<bv8>): (r: (Device, seq<bv8>))
    requires d.Ok() && |c| >= 45
    ensures r.0.Ok() && |r.1| == |c|
  {
    var d1 := AtAddress(d, c);
    (Hashed(h, d1).(ta1 := 0, ta2 := 0),
     Sealed(0, c[..3] + PageAndCounters(d1, c[3..43])) + Repeat(0x55, |c| - 45))
  }

  function Implemented(h: Hashes, d: Device, c: seq<bv8>): (r: (Device, seq<bv8>))
    requires d.Ok() && WholeMemory(c) && InRange(d, c) && MemoryCommandOf(c[0]) != NoMemoryCommand
    ensures r.0.Ok() && |r.1| == |c|
  {
    match MemoryCommandOf(c[0])
    case ComputeSha => DoComputeSha(h, d, c)
    case ReadScratchpad => DoReadScratchpad(d, c)
    case WriteScratchpad => DoWriteScratchpad(d, c)
    case EraseScratchpad => DoEraseScratchpad(d, c)
    case CopyScratchpad => DoCopyScratchpad(d, c)
    case ReadAuthPage => DoReadAuthPage(h, d, c)
  }

  /** A memory command; one that is not implemented is not answered. */
  function Memory(h: Hashes, d: Device, c: seq<bv8>): (r: (Device, seq<bv8>))
    requires d.Ok() && WholeMemory(c) && InRange(d, c)
    ensures r.0.Ok() && r.0.cmdState == CMD_ROM && |r.1| <= |c|
  {
    var r := if MemoryCommandOf(c[0]) == NoMemoryCommand then (d, []) else Implemented(h, d, c);
    (r.0.(cmdState := CMD_ROM), r.1)
  }

  /** The reply to search ROM after `n` of the 64 bits: three bits on the line for each. */
  function SearchTriples(rom: seq<bv8>, n: nat): (out: seq<bv8>)
    requires |rom| == 8 && n <= 64
    ensures |out| == 24
  {
    if n == 0 then seq(24, _ => 0)
    else
      var out, pos := SearchTriples(rom, n - 1), TriplePosition(rom, n - 1);
      out[pos / 8 := SetBit(out[pos / 8], pos % 8)]
  }

  /** Where bit `i` of the ROM leaves its mark. */
  function TriplePosition(rom: seq<bv8>, i: nat): (pos: nat)
    requires |rom| == 8 && i < 64
    ensures pos < 192
  {
    if ByteBit(rom[i / 8], i % 8) then i * 3 else i * 3 + 1
  }

  /** A ROM command: how many bytes it takes, and its reply of as many bytes. */
  function RomReply(rom: seq<bv8>, c: seq<bv8>): (r: seq<bv8>)
    requires |rom| == 8 && WholeRom(c)
    ensures 0 < |r| <= |c|
  {
    match RomCommandOf(c[0])
    case ReadRom => rom + [c[8]]
    case SearchRom => [c[0]] + SearchTriples(rom, 64) + c[25..]
    case SkipRom => [c[0]]
    case NoRomCommand => c
  }

  /** One run of data bytes; `beyond` is what memory holds behind it. */
  predicate Whole(d: Device, rom: seq<bv8>, c: seq<bv8>, beyond: seq<bv8>)
    requires |rom| == 8
  {
    if c == [] then true
    else if d.cmdState == CMD_MEMORY then WholeMemory(c) && InRange(d, c)
    else
      && WholeRom(c)
      && var n := |RomReply(rom, c)|;
         n < |c| ==> n <= |beyond| && WholeMemory(c[n..] + beyond[..n]) && InRange(d, c[n..] + beyond[..n])
  }

  /** ds1963s_process: a memory command behind a ROM command is taken to be as long as both together. */
  function Exchange(h: Hashes, rom: seq<bv8>, d: Device, c: seq<bv8>, beyond: seq<bv8>): (r: (Device, seq<bv8>))
    requires d.Ok() && |rom| == 8 && Whole(d, rom, c, beyond)
    ensures r.0.Ok()
  {
    if c == [] then (d, [])
    else if d.cmdState == CMD_MEMORY then Memory(h, d, c)
    else
      var said, d1 := RomReply(rom, c), d.(cmdState := CMD_MEMORY);
      if |said| < |c| then
        var r := Memory(h, d1, c[|said|..] + beyond[..|said|]);
        (r.0, said + r.1)
      else (d1, said)
  }

  // ---------- replies built in place ----------

  lemma OverwriteInside(mem: seq<bv8>, at: nat, r: seq<bv8>, k: nat, data: seq<bv8>)
    requires at + |r| <= |mem| && k + |data| <= |r|
    ensures Overwrite(Overwrite(mem, at, r), at + k, data) == Overwrite(mem, at, Overwrite(r, k, data))
  {}

  lemma OverwriteSlice(mem: seq<bv8>, at: nat, r: seq<bv8>, n: nat)
    requires at + |r| <= |mem| && n <= |r|
    ensures Overwrite(mem, at, r)[at..at + n] == r[..n]
  {}

  /** The two CRC bytes behind `body`. */
  function Trailer(body: seq<bv8>): seq<bv8> { [CheckLow(Crc(0, body)), CheckHigh(Crc(0, body))] }

  lemma SealedTrailer(body: seq<bv8>)
    ensures Sealed(0, body) == body + Trailer(body)
  {}

  /** A reply with its CRC behind the first `n` bytes and filling behind that. */
  lemma Assemble(r: seq<bv8>, body: seq<bv8>, n: nat, rest: seq<bv8>)
    requires |body| == n && n + 2 + |rest| == |r| && r[..n] == body
    ensures Overwrite(Overwrite(r, n, Trailer(r[..n])), n + 2, rest) == Sealed(0, body) + rest
  {
    hide Trailer;
    SealedTrailer(body);
    assert Overwrite(Overwrite(r, n, Trailer(body)), n + 2, rest) == r[..n] + Trailer(body) + rest;
  }

  class Ds1963s {
    const nvram: array<bv8>
    const secrets: array<bv8>
    const scratchpad: array<bv8>
    const nvramCounter: seq<bv32>
    const secretCounter: seq<bv32>
    var ta1: bv8
    var ta2: bv8
    var latchES: bv8
    var hidden: bool
    var cmdState: CmdState
    const rom: seq<bv8>
    const hashes: Hashes

    predicate Valid()
      reads this
    {
      && nvram.Length == NVRAM_SIZE && secrets.Length == 64 && scratchpad.Length == SCRATCHPAD_SIZE
      && nvram != secrets && nvram != scratchpad && secrets != scratchpad
      && |nvramCounter| == 8 && |secretCounter| == 8 && |rom| == 8
    }

    ghost predicate Apart(out: array<bv8>)
      reads this
    {
      out != nvram && out != secrets && out != scratchpad
    }

    function Abs(): (d: Device)
      requires Valid()
      reads this, nvram, secrets, scratchpad
      ensures d.Ok()
    {
      Device(nvram[..], secrets[..], scratchpad[..], nvramCounter, secretCounter, ta1, ta2, latchES, hidden, cmdState)
    }

    /** memcpy and memset into the reply, of which `r` has been written so far. */
    method Put(out: array<bv8>, at: nat, k: nat, data: seq<bv8>, ghost mem: seq<bv8>, ghost r: seq<bv8>)
      requires at + |r| <= out.Length == |mem| && k + |data| <= |r| && out[..] == Overwrite(mem, at, r)
      modifies out
      ensures out[..] == Overwrite(mem, at, Overwrite(r, k, data))
    {
      OverwriteInside(mem, at, r, k, data);
      CopyIn(out, at + k, data);
    }

    /** The CRC of the first `n` bytes of the reply, complemented and appended, and `rest` behind it. */
    method Seal(out: array<bv8>, at: nat, n: nat, rest: seq<bv8>, ghost mem: seq<bv8>, ghost r: seq<bv8>)
      requires at + |r| <= out.Length == |mem| && n + 2 + |rest| == |r| && out[..] == Overwrite(mem, at, r)
      modifies out
      ensures out[..] == Overwrite(mem, at, Sealed(0, r[..n]) + rest)
    {
      OverwriteSlice(mem, at, r, n);
      assert out[at..at + n] == Overwrite(mem, at, r)[at..at + n];
      var crc := FullCrc16(out[at..at + n], 0);
      hide CheckLow, CheckHigh, Crc;
      Assemble(r, r[..n], n, rest);
      Put(out, at, n, [CheckLow(crc), CheckHigh(crc)], mem, r);
      Put(out, at, n + 2, rest, mem, Overwrite(r, n, Trailer(r[..n])));
    }

    /** The address registers take the command's second and third byte. */
    method SetAddress(bytes: seq<bv8>)
      requires Valid() && |bytes| >= 3
      modifies this`ta1, this`ta2
      ensures Abs() == AtAddress(old(Abs()), bytes)
    {
      ta1 := bytes[1];
      ta2 := bytes[2];
    }

    /** Compute SHA, sign data page. */
    method ProcessSha(bytes: seq<bv8>, out: array<bv8>, at: nat)
      requires Valid() && Apart(out) && |bytes| >= 6 && at + |bytes| <= out.Length
      requires out[..] == Overwrite(out[..], at, bytes)
      modifies this`ta1, this`ta2, scratchpad, out
      ensures var r := DoComputeSha(hashes, old(Abs()), bytes);
              Abs() == r.0 && out[..] == Overwrite(old(out[..]), at, r.1)
    {
      hide Sealed, Overwrite;
      ghost var mem := out[..];
      SetAddress(bytes);
      ghost var d1 := Abs();
      Seal(out, at, 4, Repeat(0x55, |bytes| - 6), mem, bytes);
      var page := Address(ta1, ta2) / 32;
      if page == 0 || page == 8 {
        var digest := hashes.sign(Abs());
        CopyIn(scratchpad, 8, digest);
      }
    }

    /** _ds1963s_read_scratchpad. */
    method ReadScratchpadCommand(bytes: seq<bv8>, out: array<bv8>, at: nat)
      requires Valid() && Apart(out) && |bytes| >= 38 && at + |bytes| <= out.Length
      requires out[..] == Overwrite(out[..], at, bytes)
      modifies this`latchES, out
      ensures var r := DoReadScratchpad(old(Abs()), bytes);
              Abs() == r.0 && out[..] == Overwrite(old(out[..]), at, r.1)
    {
      hide Sealed, Overwrite, EndAll, Offset;
      ghost var mem := out[..];
      Put(out, at, 1, [ta1, ta2], mem, bytes);
      ghost var r := Overwrite(bytes, 1, [ta1, ta2]);
      if hidden {
        Put(out, at, 4, Repeat(0xFF, |bytes| - 4), mem, r);
        HiddenReply(bytes, ta1, ta2, Repeat(0xFF, |bytes| - 4));
      } else {
        var off := Offset(ta1);
        var data := scratchpad[off..];
        Put(out, at, 4, data, mem, r);
        latchES := EndAll(latchES);
        Put(out, at, 3, [latchES], mem, Overwrite(r, 4, data));
        ReadReply(bytes, ta1, ta2, latchES, data);
        Seal(out, at, 36, Repeat(0x55, |bytes| - 38), mem, Overwrite(Overwrite(r, 4, data), 3, [latchES]));
      }
    }

    /** _ds1963s_write_scratchpad. */
    method WriteScratchpadCommand(bytes: seq<bv8>, out: array<bv8>, at: nat)
      requires Valid() && Apart(out) && |bytes| >= 3 && at + |bytes| <= out.Length
      requires Address(bytes[1], bytes[2]) < NVRAM_SIZE ==> |bytes| >= 37
      requires out[..] == Overwrite(out[..], at, bytes)
      modifies this`ta1, this`ta2, this`latchES, scratchpad, out
      ensures var r := DoWriteScratchpad(old(Abs()), bytes);
              Abs() == r.0 && out[..] == Overwrite(old(out[..]), at, r.1)
    {
      hide Sealed, Overwrite, Address, Offset, EndBits;
      ghost var mem, pad := out[..], scratchpad[..];
      SetAddress(bytes);
      if Address(ta1, ta2) < NVRAM_SIZE {
        var off := Offset(ta1);
        EchoedData(pad, off, bytes);
        latchES := EndBits(latchES);
        CopyIn(scratchpad, off, bytes[3..35 - off]);
        Put(out, at, 3, scratchpad[off..], mem, bytes);
        Seal(out, at, 35, bytes[37..], mem, bytes);
      }
    }

    /** _ds1963s_erase_scratchpad. */
    method EraseScratchpadCommand(bytes: seq<bv8>, out: array<bv8>, at: nat)
      requires Valid() && Apart(out) && |bytes| >= 3 && at + |bytes| <= out.Length
      requires out[..] == Overwrite(out[..], at, bytes)
      modifies this`ta1, this`ta2, this`hidden, scratchpad, out
      ensures var r := DoEraseScratchpad(old(Abs()), bytes);
              Abs() == r.0 && out[..] == Overwrite(old(out[..]), at, r.1)
    {
      ghost var mem := out[..];
      WholeOverwrite(scratchpad[..], Repeat(0xFF, SCRATCHPAD_SIZE));
      PutBehind(bytes, 3, Repeat(0x55, |bytes| - 3));
      hide Overwrite, Repeat;
      SetAddress(bytes);
      CopyIn(scratchpad, 0, Repeat(0xFF, SCRATCHPAD_SIZE));
      hidden := false;
      Put(out, at, 3, Repeat(0x55, |bytes| - 3), mem, bytes);
    }

    /** The copy itself. */
    method CopyMemory()
      requires Valid() && (if hidden then NVRAM_SIZE <= Abs().Addr() else Abs().Addr() < NVRAM_SIZE)
      requires Abs().Addr() + EndCount(Accept(latchES)) <= if hidden then NVRAM_SIZE + 64 else NVRAM_SIZE
      modifies this`latchES, nvram, secrets
      ensures Abs() == Copied(old(Abs()))
    {
      hide Accept, EndCount, Address, Overwrite;
      var addr := Address(ta1, ta2);
      latchES := Accept(latchES);
      if !hidden {
        CopyIn(nvram, addr, scratchpad[..EndCount(latchES)]);
      } else {
        CopyIn(secrets, addr - NVRAM_SIZE, scratchpad[..EndCount(latchES)]);
      }
    }

    /** _ds1963s_copy_scratchpad. */
    method CopyScratchpadCommand(bytes: seq<bv8>, out: array<bv8>, at: nat)
      requires Valid() && Apart(out) && |bytes| >= 4 && at + |bytes| <= out.Length
      requires MemoryCommandOf(bytes[0]) == CopyScratchpad && InRange(Abs(), bytes)
      requires out[..] == Overwrite(out[..], at, bytes)
      modifies this`latchES, nvram, secrets, out
      ensures var r := DoCopyScratchpad(old(Abs()), bytes);
              Abs() == r.0 && out[..] == Overwrite(old(out[..]), at, r.1)
    {
      hide Accept, MemoryCommandOf, EndCount, Address, Copied, Overwrite;
      ghost var mem := out[..];
      var addr := Address(ta1, ta2);
      PutBehind(bytes, 4, Repeat(0xFF, |bytes| - 4));
      PutBehind(bytes, 4, Repeat(0x55, |bytes| - 4));
      if !(hidden && addr >= NVRAM_SIZE && addr < 0x23F) && !(!hidden && addr < NVRAM_SIZE) {
        Put(out, at, 4, Repeat(0xFF, |bytes| - 4), mem, bytes);
        return;
      }
      if bytes[1] != ta1 || bytes[2] != ta2 || bytes[3] != latchES {
        Put(out, at, 4, Repeat(0xFF, |bytes| - 4), mem, bytes);
        return;
      }
      CopyMemory();
      Put(out, at, 4, Repeat(0x55, |bytes| - 4), mem, bytes);
    }

    /** _ds1963s_read_nvram, on the reply from its fourth byte on. */
    method ReadNvram(out: array<bv8>, at: nat, ghost mem: seq<bv8>, ghost r: seq<bv8>)
      requires Valid() && Apart(out) && |r| >= 45 && at + |r| <= out.Length == |mem| && out[..] == Overwrite(mem, at, r)
      modifies scratchpad, out
      ensures Abs() == Hashed(hashes, old(Abs()))
      ensures out[..] == Overwrite(mem, at, r[..3] + PageAndCounters(old(Abs()), r[3..43]) + r[43..])
    {
      hide Le32, Address, Overwrite;
      ghost var d := Abs();
      var addr := Address(ta1, ta2);
      if addr + 32 > NVRAM_SIZE {
        assert r == r[..3] + r[3..43] + r[43..];
        return;
      }
      var page := nvram[addr..addr + 32];
      Put(out, at, 3, page, mem, r);
      if addr / 32 > 7 && addr / 32 < 16 {
        var digest := hashes.auth(Abs());
        CopyIn(scratchpad, 8, digest);
        var cycles := Le32(nvramCounter[addr / 32 - 8]) + Le32(secretCounter[addr / 32 - 8]);
        assert PageAndCounters(d, r[3..43]) == page + cycles;
        Put(out, at, 35, cycles, mem, Overwrite(r, 3, page));
        PageReply(r, page, cycles);
      } else {
        assert PageAndCounters(d, r[3..43]) == page + r[35..43];
        PageReply(r, page, r[35..43]);
      }
    }

    /** _ds1963s_read_auth_page. */
    method ReadAuthPageCommand(bytes: seq<bv8>, out: array<bv8>, at: nat)
      requires Valid() && Apart(out) && |bytes| >= 45 && at + |bytes| <= out.Length
      requires out[..] == Overwrite(out[..], at, bytes)
      modifies this`ta1, this`ta2, scratchpad, out
      ensures var r := DoReadAuthPage(hashes, old(Abs()), bytes);
              Abs() == r.0 && out[..] == Overwrite(old(out[..]), at, r.1)
    {
      hide Sealed, Overwrite, PageAndCounters;
      ghost var mem := out[..];
      SetAddress(bytes);
      ghost var d1 := Abs();
      Put(out, at, 1, [ta1, ta2], mem, bytes);
      EchoedAddress(bytes);
      ReadNvram(out, at, mem, bytes);
      ghost var r := bytes[..3] + PageAndCounters(d1, bytes[3..43]) + bytes[43..];
      assert r[..43] == bytes[..3] + PageAndCounters(d1, bytes[3..43]);
      Seal(out, at, 43, Repeat(0x55, |bytes| - 45), mem, r);
      ta1, ta2 := 0, 0;
    }

    /** The switch of ds1963s_process_memory, on the echoed command. */
    method Dispatch(bytes: seq<bv8>, out: array<bv8>, at: nat)
      requires Valid() && Apart(out) && at + |bytes| <= out.Length && out[..] == Overwrite(out[..], at, bytes)
      requires WholeMemory(bytes) && InRange(Abs(), bytes) && MemoryCommandOf(bytes[0]) != NoMemoryCommand
      modifies this`ta1, this`ta2, this`latchES, this`hidden, nvram, secrets, scratchpad, out
      ensures var r := Implemented(hashes, old(Abs()), bytes);
              Abs() == r.0 && out[..] == Overwrite(old(out[..]), at, r.1)
    {
      hide DoComputeSha, DoReadScratchpad, DoWriteScratchpad, DoEraseScratchpad, DoCopyScratchpad, DoReadAuthPage,
           MemoryCommandOf, Overwrite, Address, SignsPage, InRange;
      match MemoryCommandOf(bytes[0]) {
        case ComputeSha => ProcessSha(bytes, out, at);
        case ReadScratchpad => ReadScratchpadCommand(bytes, out, at);
        case WriteScratchpad => WriteScratchpadCommand(bytes, out, at);
        case EraseScratchpad => EraseScratchpadCommand(bytes, out, at);
        case CopyScratchpad => CopyScratchpadCommand(bytes, out, at);
        case ReadAuthPage => ReadAuthPageCommand(bytes, out, at);
      }
    }

    /** ds1963s_process_memory: the reply's length; the echo is in `out` either way. */
    method ProcessMemory(bytes: seq<bv8>, out: array<bv8>, at: nat) returns (outsize: nat)
      requires Valid() && Apart(out) && at + |bytes| <= out.Length
      requires WholeMemory(bytes) && InRange(Abs(), bytes)
      modifies this`ta1, this`ta2, this`latchES, this`hidden, this`cmdState, nvram, secrets, scratchpad, out
      ensures Valid() && outsize <= |bytes| && out[..at] == old(out[..at])
      ensures (Abs(), out[at..at + outsize]) == Memory(hashes, old(Abs()), bytes)
    {
      assert bytes != [];
      hide Implemented, MemoryCommandOf, Overwrite, InRange, WholeMemory;
      ghost var mem, d := out[..], Abs();
      CopyIn(out, at, bytes);
      OverwriteShows(mem, at, bytes, bytes);
      if MemoryCommandOf(bytes[0]) == NoMemoryCommand {
        outsize := 0;
        Put(out, at, 1, Repeat(0xFF, |bytes| - 1), out[..], bytes);
        OverwriteShows(mem, at, bytes, Overwrite(bytes, 1, Repeat(0xFF, |bytes| - 1)));
        assert out[at..at + outsize] == [];
      } else {
        outsize := |bytes|;
        ghost var r := Implemented(hashes, d, bytes);
        OverwriteShows(mem, at, bytes, r.1);
        Dispatch(bytes, out, at);
        assert out[at..at + outsize] == r.1;
      }
      cmdState := CMD_ROM;
      assert (Abs(), out[at..at + outsize]) == Memory(hashes, d, bytes);
    }

    /** The search branch of ds1963s_process_rom. */
    method SearchReply(out: array<bv8>, at: nat)
      requires Valid() && Apart(out) && at + 24 <= out.Length
      modifies out
      ensures out[..] == Overwrite(old(out[..]), at, SearchTriples(rom, 64))
    {
      hide ByteBit, SetBit, SearchTriples, Overwrite;
      ghost var mem := out[..];
      SearchStart(rom);
      CopyIn(out, at, seq(24, _ => 0));
      for i := 0 to 64
        invariant out[..] == Overwrite(mem, at, SearchTriples(rom, i))
      {
        ghost var r := SearchTriples(rom, i);
        SearchStep(rom, i);
        var pos := i * 3 + 1;
        if ByteBit(rom[i / 8], i % 8) {
          pos := pos - 1;
        }
        OverwriteAt(mem, at, r, pos / 8);
        out[at + pos / 8] := SetBit(out[at + pos / 8], pos % 8);
        OverwriteUpdate(mem, at, r, pos / 8, out[at + pos / 8]);
      }
    }

    /** The switch of ds1963s_process_rom. */
    method RomEcho(bytes: seq<bv8>, out: array<bv8>, at: nat) returns (processed: nat)
      requires Valid() && Apart(out) && at + |bytes| <= out.Length && WholeRom(bytes)
      modifies out
      ensures out[..at] == old(out[..at])
      ensures processed == |RomReply(rom, bytes)| && out[at..at + processed] == RomReply(rom, bytes)
    {
      hide RomCommandOf, Overwrite, SearchTriples;
      ghost var mem := out[..];
      CopyIn(out, at, bytes);
      ghost var r := bytes;
      processed := |bytes|;
      match RomCommandOf(bytes[0]) {
        case ReadRom =>
          Put(out, at, 0, rom, mem, bytes);
          r := Overwrite(bytes, 0, rom);
          PutBefore(bytes, rom);
          processed := 9;
        case SearchRom =>
          OverwriteInside(mem, at, bytes, 1, SearchTriples(rom, 64));
          SearchReply(out, at + 1);
          r := Overwrite(bytes, 1, SearchTriples(rom, 64));
          PutAfterFirst(bytes, SearchTriples(rom, 64));
        case SkipRom =>
          processed := 1;
        case NoRomCommand =>
      }
      OverwriteShows(mem, at, bytes, r);
      OverwriteSlice(mem, at, r, processed);
    }

    /** ds1963s_process_rom: the bytes it takes, which is also the reply's length. */
    method ProcessRom(bytes: seq<bv8>, out: array<bv8>, at: nat) returns (processed: nat)
      requires Valid() && Apart(out) && at + |bytes| <= out.Length && WholeRom(bytes)
      modifies this`cmdState, out
      ensures Abs() == old(Abs()).(cmdState := CMD_MEMORY) && out[..at] == old(out[..at])
      ensures processed == |RomReply(rom, bytes)| && out[at..at + processed] == RomReply(rom, bytes)
    {
      hide WholeRom, RomReply;
      processed := RomEcho(bytes, out, at);
      cmdState := CMD_MEMORY;
    }

    /** ds1963s_process: on a whole run of data bytes the simulator is the reference device. */
    method Process(bytes: seq<bv8>, beyond: seq<bv8>, out: array<bv8>, at: nat) returns (outsize: nat)
      requires Valid() && Apart(out) && at + 2 * |bytes| <= out.Length
      requires Whole(Abs(), rom, bytes, beyond)
      modifies this`ta1, this`ta2, this`latchES, this`hidden, this`cmdState, nvram, secrets, scratchpad, out
      ensures Valid() && at + outsize <= out.Length && out[..at] == old(out[..at])
      ensures (Abs(), out[at..at + outsize]) == Exchange(hashes, rom, old(Abs()), bytes, beyond)
    {
      hide WholeMemory, WholeRom, InRange, Memory, RomReply, Whole, Exchange, Taken;
      ghost var d := Abs();
      TakenNothing(hashes, rom, d, bytes, beyond);
      outsize := 0;
      var i := 0;
      assert out[at..at] == [];
      while i < |bytes|
        invariant Valid() && out[..at] == old(out[..at]) && at + outsize <= out.Length
        invariant Taken(hashes, rom, d, bytes, beyond, i, Abs(), out[at..at + outsize])
        decreases |bytes| - i
      {
        TakenCases(hashes, rom, d, bytes, beyond, i, Abs(), out[at..at + outsize]);
        var command := if i == 0 then bytes else bytes[i..] + beyond[..i];
        if cmdState == CMD_ROM {
          i := ProcessRom(command, out, at);
          outsize := i;
        } else {
          ghost var was := out[..];
          var more := ProcessMemory(command, out, at + i);
          ExtendReply(was, out[..], at, i, more, was[at..at + i]);
          outsize, i := outsize + more, i + |bytes|;
        }
      }
      TakenAll(hashes, rom, d, bytes, beyond, i, Abs(), out[at..at + outsize]);
    }

    /** ds1963s_init and ds1963s_reset: everything is zero. */
    constructor (rom: seq<bv8>, hashes: Hashes)
      requires |rom| == 8
      ensures Valid() && fresh(nvram) && fresh(secrets) && fresh(scratchpad)
      ensures this.rom == rom && this.hashes == hashes && Abs() == Initial()
    {
      this.rom, this.hashes := rom, hashes;
      nvram := new bv8[NVRAM_SIZE](_ => 0);
      secrets := new bv8[64](_ => 0);
      scratchpad := new bv8[SCRATCHPAD_SIZE](_ => 0);
      nvramCounter, secretCounter := seq(8, _ => 0), seq(8, _ => 0);
      ta1, ta2, latchES, hidden, cmdState := 0, 0, 0, false, CMD_ROM;
      new;
      assert Abs().nvram == Initial().nvram && Abs().secrets == Initial().secrets
        && Abs().scratchpad == Initial().scratchpad;
    }

    /** ds1963s_reset_pulse. */
    method ResetPulse()
      requires Valid()
      modifies this`cmdState
      ensures Abs() == old(Abs()).(cmdState := CMD_ROM)
    {
      cmdState := CMD_ROM;
    }
  }

  /** Where ds1963s_process stands after `i` bytes, in state `now` and with reply `said`. */
  ghost predicate Taken(h: Hashes, rom: seq<bv8>, d: Device, c: seq<bv8>, beyond: seq<bv8>, i: nat, now: Device,
                        said: seq<bv8>)
    requires d.Ok() && |rom| == 8 && Whole(d, rom, c, beyond)
  {
    if i == 0 then now == d && said == []
    else if i < |c| then
      && d.cmdState == CMD_ROM && now == d.(cmdState := CMD_MEMORY)
      && said == RomReply(rom, c) && i == |said|
    else (now, said) == Exchange(h, rom, d, c, beyond)
  }

  lemma TakenNothing(h: Hashes, rom: seq<bv8>, d: Device, c: seq<bv8>, beyond: seq<bv8>)
    requires d.Ok() && |rom| == 8 && Whole(d, rom, c, beyond)
    ensures Taken(h, rom, d, c, beyond, 0, d, [])
  {}

  lemma TakenAll(h: Hashes, rom: seq<bv8>, d: Device, c: seq<bv8>, beyond: seq<bv8>, i: nat, now: Device,
                 said: seq<bv8>)
    requires d.Ok() && |rom| == 8 && Whole(d, rom, c, beyond) && i >= |c| && Taken(h, rom, d, c, beyond, i, now, said)
    ensures (now, said) == Exchange(h, rom, d, c, beyond)
  {}

  /** The next step of ds1963s_process: what it may rely on, and where it leads. */
  lemma TakenCases(h: Hashes, rom: seq<bv8>, d: Device, c: seq<bv8>, beyond: seq<bv8>, i: nat, now: Device,
                   said: seq<bv8>)
    requires d.Ok() && |rom| == 8 && Whole(d, rom, c, beyond) && i < |c| && Taken(h, rom, d, c, beyond, i, now, said)
    ensures now.Ok() && |said| == i && i <= |beyond|
    ensures now.cmdState == CMD_ROM ==>
      i == 0 && WholeRom(c)
        && Taken(h, rom, d, c, beyond, |RomReply(rom, c)|, now.(cmdState := CMD_MEMORY), RomReply(rom, c))
    ensures now.cmdState == CMD_MEMORY ==>
      var command := if i == 0 then c else c[i..] + beyond[..i];
      && WholeMemory(command) && InRange(now, command)
      && var r := Memory(h, now, command);
         Taken(h, rom, d, c, beyond, i + |c|, r.0, said + r.1)
  {
    hide WholeMemory, WholeRom, InRange, Memory, RomReply;
    if i > 0 {
      InRangeAlways(d, c[i..] + beyond[..i]);
    }
    if now.cmdState == CMD_MEMORY {
      var command := if i == 0 then c else c[i..] + beyond[..i];
      assert said + Memory(h, now, command).1
        == if i == 0 then Memory(h, now, command).1 else said + Memory(h, now, command).1;
    }
  }

  lemma InRangeAlways(d: Device, c: seq<bv8>)
    ensures InRange(d.(cmdState := CMD_MEMORY), c) <==> InRange(d, c)
  {
    hide MemoryCommandOf, Address, EndCount, Accept;
  }

  function Initial(): (d: Device)
    ensures d.Ok()
  {
    Device(Repeat(0, NVRAM_SIZE), Repeat(0, 64), Repeat(0, SCRATCHPAD_SIZE), seq(8, _ => 0), seq(8, _ => 0), 0, 0, 0,
           false, CMD_ROM)
  }

  /** A second reply behind the first. */
  lemma ExtendReply(was: seq<bv8>, now: seq<bv8>, at: nat, n: nat, more: nat, said: seq<bv8>)
    requires at + n + more <= |now| == |was| && now[..at + n] == was[..at + n] && was[at..at + n] == said
    ensures now[at..at + n + more] == said + now[at + n..at + n + more] && now[..at] == was[..at]
  {
    assert now[at..at + n] == now[..at + n][at..] == was[..at + n][at..];
    assert now[..at] == now[..at + n][..at] == was[..at + n][..at];
  }

  lemma SearchStart(rom: seq<bv8>)
    requires |rom| == 8
    ensures SearchTriples(rom, 0) == seq(24, _ => 0)
  {}

  lemma SearchStep(rom: seq<bv8>, i: nat)
    requires |rom| == 8 && i < 64
    ensures var out, pos := SearchTriples(rom, i), TriplePosition(rom, i);
            SearchTriples(rom, i + 1) == out[pos / 8 := SetBit(out[pos / 8], pos % 8)]
  {
    hide ByteBit, SetBit;
  }

  lemma OverwriteAt(mem: seq<bv8>, at: nat, r: seq<bv8>, k: nat)
    requires at + |r| <= |mem| && k < |r|
    ensures Overwrite(mem, at, r)[at + k] == r[k]
  {}

  lemma OverwriteUpdate(mem: seq<bv8>, at: nat, r: seq<bv8>, k: nat, x: bv8)
    requires at + |r| <= |mem| && k < |r|
    ensures Overwrite(mem, at, r)[at + k := x] == Overwrite(mem, at, r[k := x])
  {}

  lemma PutBefore(c: seq<bv8>, data: seq<bv8>)
    requires |data| == 8 && |c| >= 9
    ensures Overwrite(c, 0, data)[..9] == data + [c[8]]
  {}

  lemma PutAfterFirst(c: seq<bv8>, data: seq<bv8>)
    requires |data| == 24 && |c| >= 25
    ensures Overwrite(c, 1, data) == [c[0]] + data + c[25..]
  {}

  /** Reading the scratchpad writes over the echoed command. */
  lemma ReadReply(c: seq<bv8>, ta1: bv8, ta2: bv8, es: bv8, data: seq<bv8>)
    requires |c| >= 38 && |data| <= 32
    ensures Overwrite(Overwrite(Overwrite(c, 1, [ta1, ta2]), 4, data), 3, [es])[..36]
         == [c[0], ta1, ta2, es] + data + c[4 + |data|..36]
  {
    var r1 := Overwrite(c, 1, [ta1, ta2]);
    assert r1 == [c[0], ta1, ta2, c[3]] + c[4..];
    var r2 := Overwrite(r1, 4, data);
    assert r2 == [c[0], ta1, ta2, c[3]] + data + c[4 + |data|..];
    assert Overwrite(r2, 3, [es]) == [c[0], ta1, ta2, es] + data + c[4 + |data|..];
  }

  lemma HiddenReply(c: seq<bv8>, ta1: bv8, ta2: bv8, rest: seq<bv8>)
    requires |c| == 4 + |rest|
    ensures Overwrite(Overwrite(c, 1, [ta1, ta2]), 4, rest) == [c[0], ta1, ta2, c[3]] + rest
  {}

  /** What write scratchpad reads back is what it was sent. */
  lemma EchoedData(pad: seq<bv8>, off: nat, c: seq<bv8>)
    requires |pad| == SCRATCHPAD_SIZE && off < SCRATCHPAD_SIZE && |c| >= 37
    ensures var data := c[3..35 - off]; Overwrite(pad, off, data)[off..] == data && Overwrite(c, 3, data) == c
  {}

  lemma WholeOverwrite(mem: seq<bv8>, data: seq<bv8>)
    requires |mem| == |data|
    ensures Overwrite(mem, 0, data) == data
  {}

  lemma PutBehind(c: seq<bv8>, k: nat, data: seq<bv8>)
    requires k + |data| == |c|
    ensures Overwrite(c, k, data) == c[..k] + data
  {}

  lemma EchoedAddress(c: seq<bv8>)
    requires |c| >= 3
    ensures Overwrite(c, 1, [c[1], c[2]]) == c
  {}

  lemma PageReply(r: seq<bv8>, page: seq<bv8>, cycles: seq<bv8>)
    requires |r| >= 45 && |page| == 32 && |cycles| == 8
    ensures Overwrite(Overwrite(r, 3, page), 35, cycles) == r[..3] + (page + cycles) + r[43..]
    ensures cycles == r[35..43] ==> Overwrite(r, 3, page) == r[..3] + (page + cycles) + r[43..]
  {}

  /** What `out` shows once `r` has been written over the echo `c`. */
  lemma OverwriteShows(mem: seq<bv8>, at: nat, c: seq<bv8>, r: seq<bv8>)
    requires at + |c| <= |mem| && |r| == |c|
    ensures Overwrite(Overwrite(mem, at, c), at, r) == Overwrite(mem, at, r)
    ensures Overwrite(mem, at, r)[..at] == mem[..at] && Overwrite(mem, at, r)[at..at + |r|] == r
  {}
}

/**
 * A non-volatile memory bank behind a 32-byte scratchpad (mbnv.c, mbscr.c): range writes in
 * page-sized chunks, each verified in the scratchpad before it is copied, and packets on top.
 */
module MemoryBankNV {
  import opened Bytes
  import opened Crc16
  import opened Packet
  import opened Results

  /** Where writeNV's next chunk ends: at the end of its page or of the buffer. */
  function ChunkEnd(addr: nat, startx: nat, len: nat): (nextx: nat)
    requires startx < len
    ensures startx < nextx <= len
    ensures (addr + startx) % 32 + (nextx - startx) <= 32
    ensures nextx < len ==> (addr + nextx) % 32 == 0
  {
    var roomLeft := PAGE_LENGTH - (addr + startx) % PAGE_LENGTH;
    if len - startx > roomLeft then startx + roomLeft else len
  }

  lemma InsidePage(start: nat, page: nat, done: nat)
    requires start % PAGE_LENGTH == 0 && done < PAGE_LENGTH
    ensures (start + page * PAGE_LENGTH + done) % PAGE_LENGTH == done
  {}

  lemma PrefixOfTail<T>(pad: seq<T>, raw: seq<T>, off: nat, n: nat)
    requires off + n <= |pad| == |raw| && raw[..|pad| - off] == pad[off..]
    ensures pad[off..off + n] == raw[..n]
  {
    forall k | 0 <= k < n
      ensures pad[off + k] == raw[k]
    {
      assert raw[..|pad| - off][k] == pad[off..][k];
    }
  }

  class Bank {
    /** The memory of the part, the physical address and the size of this bank. */
    const memory: array<bv8>
    const start: nat
    const size: nat
    const readOnly: bool
    const generalPurpose: bool
    /** Whether the link may lose or corrupt what is sent over it. */
    const flaky: bool
    /** The part's scratchpad, target address and ending offset. */
    const scratchpad: array<bv8>
    var target: nat
    var ending: nat
    /** The client's running CRC. */
    const util: CrcUtil
    const portnum: nat

    ghost predicate Valid()
      reads this
    {
      && start + size <= memory.Length <= 0x1_0000
      && start % PAGE_LENGTH == 0 && size % PAGE_LENGTH == 0
      && scratchpad.Length == PAGE_LENGTH && scratchpad != memory
      && portnum % 256 < util.utilcrc16.Length
    }

    constructor (memory: array<bv8>, start: nat, size: nat, readOnly: bool, generalPurpose: bool, flaky: bool,
                 util: CrcUtil, portnum: nat)
      requires start + size <= memory.Length <= 0x1_0000
      requires start % PAGE_LENGTH == 0 && size % PAGE_LENGTH == 0
      requires portnum % 256 < util.utilcrc16.Length
      ensures Valid() && fresh(scratchpad)
      ensures this.memory == memory && this.start == start && this.size == size && this.readOnly == readOnly
      ensures this.generalPurpose == generalPurpose && this.flaky == flaky && this.util == util
      ensures this.portnum == portnum
    {
      this.memory, this.start, this.size, this.readOnly := memory, start, size, readOnly;
      this.generalPurpose, this.flaky := generalPurpose, flaky;
      this.util, this.portnum := util, portnum;
      scratchpad := new bv8[PAGE_LENGTH](_ => 0);
      target, ending := 0, 0;
    }

    /**
     * writeScratchpd. Over a flaky link the block may be lost or corrupted: whether or not it reports
     * success, the scratchpad and its registers may hold anything.
     */
    method WriteScratchpad(addr: nat, data: seq<bv8>) returns (ok: bool)
      requires Valid() && 0 < |data| && addr % PAGE_LENGTH + |data| <= PAGE_LENGTH
      modifies scratchpad, this`target, this`ending
      ensures !flaky ==> ok && Loaded(addr, data)
    {
      ok, target, ending := *, *, *;
      for i := 0 to PAGE_LENGTH {
        scratchpad[i] := *;
      }
      if !flaky {
        ok, target, ending := true, addr, (addr + |data| - 1) % PAGE_LENGTH;
        ghost var was := scratchpad[..];
        CopyIn(scratchpad, addr % PAGE_LENGTH, data);
        assert Overwrite(was, addr % PAGE_LENGTH, data)[addr % PAGE_LENGTH..addr % PAGE_LENGTH + |data|] == data;
      }
    }

    /** The scratchpad is ready to be copied. */
    ghost predicate Loaded(addr: nat, data: seq<bv8>)
      requires Valid() && 0 < |data| && addr % PAGE_LENGTH + |data| <= PAGE_LENGTH
      reads this, scratchpad
    {
      && scratchpad[addr % PAGE_LENGTH..addr % PAGE_LENGTH + |data|] == data
      && target == addr && ending == (addr + |data| - 1) % PAGE_LENGTH
    }

    /** readScratchpdExtra: the target address, and the scratchpad from the target offset on. */
    method ReadScratchpad() returns (ok: bool, raw: seq<bv8>, addr: nat)
      requires Valid()
      ensures |raw| == PAGE_LENGTH && addr == target && (!flaky ==> ok)
      ensures raw[..PAGE_LENGTH - target % PAGE_LENGTH] == scratchpad[target % PAGE_LENGTH..]
    {
      ok := *;
      ok := ok || !flaky;
      addr := target;
      raw := scratchpad[target % PAGE_LENGTH..] + seq(target % PAGE_LENGTH, _ => 0xFF);
    }

    /**
     * copyScratchpd: the part copies only if target address and ending offset match, and then confirms; the
     * confirmation may be lost, so that a copy which took place is reported as failed.
     */
    method CopyScratchpad(addr: nat, len: nat) returns (ok: bool, ghost copied: bool)
      requires Valid() && 0 < len && addr % PAGE_LENGTH + len <= PAGE_LENGTH && addr + len <= memory.Length
      modifies memory
      ensures ok ==> copied
      ensures copied ==> target == addr && ending == (addr + len - 1) % PAGE_LENGTH
      ensures !flaky && target == addr && ending == (addr + len - 1) % PAGE_LENGTH ==> ok
      ensures memory[..] == if copied
                            then Overwrite(old(memory[..]), addr,
                                           scratchpad[addr % PAGE_LENGTH..addr % PAGE_LENGTH + len])
                            else old(memory[..])
    {
      var received, confirmed := *, *;
      ok := (received || !flaky) && target == addr && ending == (addr + len - 1) % PAGE_LENGTH;
      copied := ok;
      if ok {
        CopyIn(memory, addr, scratchpad[addr % PAGE_LENGTH..addr % PAGE_LENGTH + len]);
      }
      ok := ok && (confirmed || !flaky);
    }

    /** One turn of writeNV's loop: write the scratchpad, read it back, compare, copy. */
    method WriteChunk(addr: nat, chunk: seq<bv8>) returns (ok: bool, ghost copied: bool)
      requires Valid() && 0 < |chunk| && addr % PAGE_LENGTH + |chunk| <= PAGE_LENGTH && addr + |chunk| <= memory.Length
      modifies memory, scratchpad, this`target, this`ending
      ensures ok ==> copied
      ensures memory[..] == if copied then Overwrite(old(memory[..]), addr, chunk) else old(memory[..])
      ensures !flaky ==> ok
    {
      hide Overwrite;
      var sent := WriteScratchpad(addr, chunk);
      if !sent { return false, false; }
      var read, raw, readAddr := ReadScratchpad();
      if readAddr == addr {
        PrefixOfTail(scratchpad[..], raw, addr % PAGE_LENGTH, |chunk|);
      }
      if !read || raw[..|chunk|] != chunk || readAddr != addr { return false, false; }
      ok, copied := CopyScratchpad(addr, |chunk|);
    }

    /**
     * writeNV. Success means that the range holds the buffer and nothing else changed. A failure leaves the
     * first `done` bytes of the buffer written: whole chunks, the last of which may have been copied unconfirmed.
     */
    method WriteNV(strAdd: nat, buff: seq<bv8>) returns (ok: bool, ghost done: nat)
      requires Valid()
      modifies memory, scratchpad, this`target, this`ending
      ensures ok ==> done == |buff|
      ensures done <= |buff| && ((ok || done > 0) && |buff| > 0 ==> strAdd + |buff| <= size && !readOnly)
      ensures memory[..]
              == if done > 0 then Overwrite(old(memory[..]), start + strAdd, buff[..done]) else old(memory[..])
      ensures 0 < done < |buff| ==> (start + strAdd + done) % PAGE_LENGTH == 0
      ensures !flaky ==> (ok <==> buff == [] || (strAdd + |buff| <= size && !readOnly))
    {
      hide Overwrite, ChunkEnd;
      if |buff| == 0 {
        return true, 0;
      }
      if strAdd + |buff| > size || readOnly {
        return false, 0;
      }
      var startx, nextx, addr := 0, 0, start + strAdd;
      ghost var mem0 := memory[..];
      OverwriteNone(mem0, addr, buff);
      while true
        invariant 0 <= startx < |buff|
        invariant memory[..] == Overwrite(mem0, addr, buff[..startx])
        invariant startx > 0 ==> (addr + startx) % PAGE_LENGTH == 0
        decreases |buff| - startx
      {
        nextx := ChunkEnd(addr, startx, |buff|);
        OverwriteTwice(mem0, addr, buff, startx, nextx);
        ghost var copied;
        ok, copied := WriteChunk(addr + startx, buff[startx..nextx]);
        if !ok {
          return false, if copied then nextx else startx;
        }
        startx := nextx;
        if !(nextx < |buff|) { break; }
      }
      return true, |buff|;
    }

    /** The CRC seed of a page: its absolute page number. */
    function Seed(page: nat): bv16
    {
      ((start / PAGE_LENGTH + page) % 0x1_0000) as bv16
    }

    /** A bank that starts at page `n` of the part seeds its page `page` with the sum of the two. */
    lemma SeedIsPage(n: nat, page: nat)
      requires start == 32 * n
      ensures Seed(page) == ((n + page) % 0x1_0000) as bv16
    {
      assert start / 32 == n;
    }

    /** The running CRC over a byte string, as setcrc16 and a loop of docrc16 compute it. */
    method RunCrc(seed: bv16, data: seq<bv8>) returns (crc: bv16)
      requires Valid() && |data| > 0
      modifies util.utilcrc16
      ensures crc == Crc(seed, data)
    {
      util.SetCrc16(portnum, seed);
      crc := seed;
      for i := 0 to |data|
        invariant crc == Crc(seed, data[..i]) == util.utilcrc16[portnum % 256]
      {
        WordRange(data[i]);
        assert data[..i + 1][..i] == data[..i];
        crc := util.DoCrc16(portnum, Word(data[i]));
      }
      assert data[..|data|] == data;
    }

    /** The packet of the data may be written: it is no longer than a page, and lies inside a writable bank. */
    predicate PacketFits(page: nat, data: seq<bv8>) {
      && |data| <= MAX_PACKET_DATA && generalPurpose && !readOnly
      && page * PAGE_LENGTH + |data| + 3 <= size
    }

    /** writePagePacketNV. The packet is one chunk: after a failure it is either there as a whole or not at all. */
    method WritePagePacket(page: nat, data: seq<bv8>) returns (ok: bool, ghost copied: bool)
      requires Valid()
      modifies memory, scratchpad, this`target, this`ending, util.utilcrc16
      ensures ok ==> copied
      ensures copied ==> PacketFits(page, data)
      ensures memory[..]
              == if copied then Overwrite(old(memory[..]), start + page * PAGE_LENGTH, PacketOf(Seed(page), data))
                            else old(memory[..])
      ensures !flaky ==> (ok <==> PacketFits(page, data))
    {
      hide PacketOf, Overwrite;
      if |data| > MAX_PACKET_DATA || !generalPurpose {
        return false, false;
      }
      var raw := BuildPacket(page, data);
      ghost var done;
      ok, done := WriteNV(page * PAGE_LENGTH, raw);
      copied := done > 0;
      assert raw[..|raw|] == raw;
      if done < |raw| { InsidePage(start, page, done); }
    }

    method BuildPacket(page: nat, data: seq<bv8>) returns (raw: seq<bv8>)
      requires Valid() && |data| <= MAX_PACKET_DATA
      modifies util.utilcrc16
      ensures raw == PacketOf(Seed(page), data)
    {
      hide Crc, CheckLow, CheckHigh, LengthByte, Seed;
      raw := [LengthByte(|data|)] + data;
      var crc := RunCrc(Seed(page), raw);
      raw := raw + [CheckLow(crc), CheckHigh(crc)];
    }

    /** readPagePacketNV. */
    method ReadPagePacket(page: nat) returns (r: Result<seq<bv8>>)
      requires Valid() && (page + 1) * PAGE_LENGTH <= size
      modifies util.utilcrc16
      ensures r == Unpack(Seed(page), old(memory[start + page * PAGE_LENGTH..start + (page + 1) * PAGE_LENGTH]))
           || (flaky && r == Err(LinkFailed))
    {
      var ok: bool := *;
      if !ok && flaky {
        return Err(LinkFailed);
      }
      var raw := memory[start + page * PAGE_LENGTH..start + (page + 1) * PAGE_LENGTH];
      var n := Length(raw[0]);
      if n > MAX_PACKET_DATA || n <= 0 {
        return Err(InvalidPacketLength);
      }
      var lastcrc16 := RunCrc(Seed(page), raw[..n + 3]);
      if lastcrc16 == 0xB001 {
        return Ok(raw[1..1 + n]);
      }
      return Err(CrcFailed);
    }
  }

  /** What a successful packet write stores, the packet read returns. */
  lemma PacketRoundTrip(mem: seq<bv8>, at: nat, seed: bv16, data: seq<bv8>)
    requires at + PAGE_LENGTH <= |mem| && 1 <= |data| <= MAX_PACKET_DATA
    ensures Unpack(seed, Overwrite(mem, at, PacketOf(seed, data))[at..at + PAGE_LENGTH]) == Ok(data)
  {
    var mem' := Overwrite(mem, at, PacketOf(seed, data));
    assert PacketOf(seed, data) <= mem'[at..at + PAGE_LENGTH];
    UnpackIff(seed, mem'[at..at + PAGE_LENGTH], data);
  }
}

/**
 * An EEPROM bank that is written in blocks of 8 bytes (mbeewp.c): a range write reads the page, changes
 * the bytes of each block it touches, and writes whole blocks back.
 */
module MemoryBankEE {
  import opened Bytes

  const PAGE_LENGTH: nat := 32
  const BLOCK: nat := 8

  /** Where the next turn of writeEEWP ends: at the end of its block or of the buffer. */
  function BlockEnd(addr: nat, startx: nat, len: nat): (nextx: nat)
    requires startx < len
    ensures startx < nextx <= len && (addr + startx) % BLOCK + (nextx - startx) <= BLOCK
    ensures nextx < len ==> (addr + nextx) % BLOCK == 0
  {
    var roomLeft := BLOCK - (addr + startx) % BLOCK;
    if len - startx > roomLeft then startx + roomLeft else len
  }

  /** The three ways the number of changed bytes is worked out agree. */
  lemma ChangedBytes(strAdd: nat, startx: nat, nextx: nat)
    requires startx < nextx && (strAdd + startx) % BLOCK + (nextx - startx) <= BLOCK
    ensures nextx - startx == BLOCK ==> (strAdd + startx) % BLOCK == 0
    ensures (strAdd + nextx) % BLOCK == 0 ==> BLOCK - (strAdd + startx) % BLOCK == nextx - startx
    ensures (strAdd + nextx) % BLOCK != 0 ==> (strAdd + nextx) % BLOCK - (strAdd + startx) % BLOCK == nextx - startx
  {}

  /** Writing a block back with `chunk` changed in it is writing `chunk`. */
  lemma BlockIsRange(mem: seq<bv8>, base: nat, off: nat, chunk: seq<bv8>)
    requires base + BLOCK <= |mem| && off + |chunk| <= BLOCK
    ensures Overwrite(mem, base, Overwrite(mem[base..base + BLOCK], off, chunk)) == Overwrite(mem, base + off, chunk)
  {}

  /** The chunk of one turn lies inside its block. */
  predicate InBlock(strAdd: nat, startx: nat, nextx: nat) {
    startx < nextx && BlockOffset(strAdd + startx) + (nextx - startx) <= BLOCK
  }

  /** How far into its block address `a` is. */
  function BlockOffset(a: nat): (off: nat) { a % BLOCK }

  predicate Aligned(addr: nat) { addr % BLOCK == 0 }

  /** The index into the page buffer of the block that holds address `a`. */
  function BufferIndex(a: nat): int { a / BLOCK * BLOCK - (if a >= PAGE_LENGTH then PAGE_LENGTH else 0) }

  lemma PlusBlock(x: nat)
    ensures (x + BLOCK) % BLOCK == x % BLOCK
  {}

  lemma {:induction false} PlusBlocks(k: nat, a: nat)
    ensures (BLOCK * k + a) % BLOCK == a % BLOCK
    decreases k
  {
    if k > 0 {
      PlusBlocks(k - 1, a);
      PlusBlock(BLOCK * (k - 1) + a);
    }
  }

  lemma SameOffset(start: nat, a: nat)
    requires start % PAGE_LENGTH == 0
    ensures (start + a) % BLOCK == a % BLOCK && start % BLOCK == 0
  {
    var k := start / PAGE_LENGTH * 4;
    assert start == BLOCK * k;
    PlusBlocks(k, a);
    PlusBlocks(k, 0);
  }

  /** The address writeEEWP writes its block to. */
  function WriteAddress(start: nat, a: nat): int { start + a - (start + a) % BLOCK }

  /** The physical address of the page that holds address `a`, in a bank of at most two pages. */
  function PageAddress(start: nat, a: nat): nat { start + if a >= PAGE_LENGTH then PAGE_LENGTH else 0 }

  /** The block of the page buffer is the block that is written. */
  lemma TurnPlaces(start: nat, a: nat)
    requires start % PAGE_LENGTH == 0 && a < 64
    ensures 0 <= BufferIndex(a) <= 24 && WriteAddress(start, a) == PageAddress(start, a) + BufferIndex(a)
    ensures WriteAddress(start, a) + BlockOffset(a) == start + a && Aligned(WriteAddress(start, a))
  {
    SameOffset(start, a);
    BlockOf(a);
    SameOffset(start, a / BLOCK * BLOCK);
  }

  lemma PageOf(a: nat)
    requires a < 64
    ensures a / PAGE_LENGTH * PAGE_LENGTH == if a >= PAGE_LENGTH then PAGE_LENGTH else 0
  {}

  lemma BlockOf(a: nat)
    requires a < 64
    ensures 0 <= BufferIndex(a) <= 24
    ensures (if a >= PAGE_LENGTH then PAGE_LENGTH else 0) + BufferIndex(a) + a % BLOCK == a
  {}

  lemma BlockOfPage(page: seq<bv8>, mem: seq<bv8>, p: nat, i: nat)
    requires |page| == 64 && p + PAGE_LENGTH <= |mem| && page[..PAGE_LENGTH] == mem[p..p + PAGE_LENGTH]
    requires i + BLOCK <= PAGE_LENGTH
    ensures page[i..i + BLOCK] == mem[p + i..p + i + BLOCK]
  {
    var x, y := page[i..i + BLOCK], mem[p + i..p + i + BLOCK];
    forall k | 0 <= k < BLOCK
      ensures x[k] == y[k]
    {
      assert page[..PAGE_LENGTH][i + k] == mem[p..p + PAGE_LENGTH][i + k];
    }
  }

  /** Writing the same block into the page buffer keeps the two in step. */
  lemma PageInStep(page: seq<bv8>, mem: seq<bv8>, p: nat, i: nat, raw: seq<bv8>)
    requires |page| == 64 && p + PAGE_LENGTH <= |mem| && page[..PAGE_LENGTH] == mem[p..p + PAGE_LENGTH]
    requires i + BLOCK <= PAGE_LENGTH
    requires |raw| == BLOCK
    ensures Overwrite(page, i, raw)[..PAGE_LENGTH] == Overwrite(mem, p + i, raw)[p..p + PAGE_LENGTH]
  {
    var x, y := Overwrite(page, i, raw)[..PAGE_LENGTH], Overwrite(mem, p + i, raw)[p..p + PAGE_LENGTH];
    forall k | 0 <= k < PAGE_LENGTH
      ensures x[k] == y[k]
    {
      assert page[..PAGE_LENGTH][k] == mem[p..p + PAGE_LENGTH][k];
    }
  }

  /** What writing a changed block does to the memory and to the page buffer. */
  lemma TurnEffect(page: seq<bv8>, mem: seq<bv8>, p: nat, i: nat, off: nat, chunk: seq<bv8>)
    requires |page| == 64 && p + PAGE_LENGTH <= |mem| && page[..PAGE_LENGTH] == mem[p..p + PAGE_LENGTH]
    requires i + BLOCK <= PAGE_LENGTH && off + |chunk| <= BLOCK
    ensures var raw := Overwrite(page[i..i + BLOCK], off, chunk);
            && Overwrite(mem, p + i, raw) == Overwrite(mem, p + i + off, chunk)
            && Overwrite(page, i, raw)[..PAGE_LENGTH] == Overwrite(mem, p + i, raw)[p..p + PAGE_LENGTH]
  {
    BlockOfPage(page, mem, p, i);
    hide Overwrite;
    BlockIsRange(mem, p + i, off, chunk);
    PageInStep(page, mem, p, i, Overwrite(page[i..i + BLOCK], off, chunk));
  }

  class Bank {
    const memory: array<bv8>
    const start: nat
    /** 32 for every bank of this kind; the indices of the code are good for 64. */
    const size: nat
    const readOnly: bool
    /** Whether transfers may fail, or take place without being confirmed. */
    const flaky: bool

    ghost predicate Valid()
      reads this
    {
      start % PAGE_LENGTH == 0 && size % PAGE_LENGTH == 0 && size <= 64 && start + size <= memory.Length
    }

    constructor (memory: array<bv8>, start: nat, size: nat, readOnly: bool, flaky: bool)
      requires start % PAGE_LENGTH == 0 && size % PAGE_LENGTH == 0 && size <= 64 && start + size <= memory.Length
      ensures Valid() && this.memory == memory && this.start == start && this.size == size
      ensures this.readOnly == readOnly && this.flaky == flaky
    {
      this.memory, this.start, this.size, this.readOnly, this.flaky := memory, start, size, readOnly, flaky;
    }

    /** readEEWP, into the first 32 bytes of the page buffer. */
    method ReadPage(addr: nat, page: array<bv8>) returns (ok: bool)
      requires Valid() && page != memory && page.Length == 64 && addr + PAGE_LENGTH <= size
      modifies page
      ensures !flaky ==> ok
      ensures ok ==> page[..PAGE_LENGTH] == memory[start + addr..start + addr + PAGE_LENGTH]
    {
      ok := *;
      ok := ok || !flaky;
      if ok {
        ghost var was := page[..];
        CopyIn(page, 0, memory[start + addr..start + addr + PAGE_LENGTH]);
        assert Overwrite(was, 0, memory[start + addr..start + addr + PAGE_LENGTH])[..PAGE_LENGTH]
            == memory[start + addr..start + addr + PAGE_LENGTH];
      }
    }

    /** writeSpadWP and copySpadWP: one aligned block; a copy that took place may still be reported as failed. */
    method WriteBlock(addr: nat, raw: seq<bv8>) returns (ok: bool, ghost copied: bool)
      requires |raw| == BLOCK && Aligned(addr) && addr + BLOCK <= memory.Length
      modifies memory
      ensures !flaky ==> ok
      ensures ok ==> copied
      ensures memory[..] == if copied then Overwrite(old(memory[..]), addr, raw) else old(memory[..])
    {
      var received, confirmed := *, *;
      ok := received || !flaky;
      copied := ok;
      if ok {
        CopyIn(memory, addr, raw);
      }
      ok := ok && (confirmed || !flaky);
    }

    /** The block that holds address `a`, from the page buffer. */
    method LoadBlock(page: array<bv8>, a: nat) returns (rawBuf: array<bv8>)
      requires page.Length == 64 && a < 64
      ensures fresh(rawBuf) && rawBuf.Length == BLOCK
      ensures 0 <= BufferIndex(a) <= 24 && rawBuf[..] == page[BufferIndex(a)..BufferIndex(a) + BLOCK]
    {
      BlockOf(a);
      rawBuf := new bv8[BLOCK];
      var i := if a >= PAGE_LENGTH then a / 8 * 8 - 32 else a / 8 * 8;
      assert i == BufferIndex(a);
      hide BufferIndex;
      WholeOverwrite(rawBuf[..], page[i..i + BLOCK]);
      CopyIn(rawBuf, 0, page[i..i + BLOCK]);
    }

    /** The block as it will be written: with the chunk in it, in the three cases of the code. */
    method BuildBlock(page: array<bv8>, strAdd: nat, buff: seq<bv8>, startx: nat, nextx: nat) returns (raw: seq<bv8>)
      requires Valid() && page.Length == 64 && strAdd + |buff| <= size && nextx <= |buff|
      requires InBlock(strAdd, startx, nextx)
      ensures var a := strAdd + startx;
              && 0 <= BufferIndex(a) <= 24
              && raw == Overwrite(page[BufferIndex(a)..BufferIndex(a) + BLOCK], BlockOffset(a), buff[startx..nextx])
    {
      ChangedBytes(strAdd, startx, nextx);
      hide Overwrite, BufferIndex;
      var a := strAdd + startx;
      var rawBuf := LoadBlock(page, a);
      var off := a % 8;
      var end := (strAdd + nextx) % 8;
      if nextx - startx == 8 {
        CopyIn(rawBuf, 0, buff[startx..startx + 8]);
      } else if end == 0 {
        CopyIn(rawBuf, off, buff[startx..startx + (8 - off)]);
      } else {
        CopyIn(rawBuf, off, buff[startx..startx + (end - off)]);
      }
      raw := rawBuf[..];
    }

    /** The end of the next turn: the block does not cross its end, whether counted from the bank or the part. */
    method NextIndex(strAdd: nat, startx: nat, len: nat) returns (nextx: nat)
      requires Valid() && startx < len && strAdd + len <= size
      ensures nextx == BlockEnd(strAdd, startx, len)
    {
      SameOffset(start, strAdd + startx);
      var absAddr := start + strAdd;
      assert absAddr + startx == start + (strAdd + startx);
      var roomLeft := BLOCK - (absAddr + startx) % BLOCK;
      if len - startx > roomLeft {
        nextx := startx + roomLeft;
      } else {
        nextx := len;
      }
    }

    /** The next turn, as the loop needs it. */
    method NextTurn(strAdd: nat, startx: nat, len: nat) returns (nextx: nat)
      requires Valid() && startx < len && strAdd + len <= size
      ensures startx < nextx <= len && InBlock(strAdd, startx, nextx)
    {
      nextx := NextIndex(strAdd, startx, len);
      EndsInBlock(strAdd, startx, len);
    }

    /** The page buffer holds the bank's first page, if that is where the write has got to. */
    ghost predicate Fresh(page: array<bv8>, a: nat)
      requires Valid()
      reads this, memory, page
    {
      page.Length == 64 && (a < PAGE_LENGTH <= size ==> page[..PAGE_LENGTH] == memory[start..start + PAGE_LENGTH])
    }

    /** The page buffer holds the page at physical address `p`. */
    ghost predicate Shows(page: array<bv8>, p: nat)
      reads this, memory, page
    {
      page.Length == 64 && p + PAGE_LENGTH <= memory.Length && page[..PAGE_LENGTH] == memory[p..p + PAGE_LENGTH]
    }

    /** The page of address `a`, read again if it is not the first. */
    method Reload(page: array<bv8>, a: nat) returns (ok: bool)
      requires Valid() && page != memory && a < size && Fresh(page, a)
      modifies page
      ensures !flaky ==> ok
      ensures ok ==> Shows(page, PageAddress(start, a))
    {
      ok := true;
      PageOf(a);
      if a >= PAGE_LENGTH {
        ok := ReadPage(a / PAGE_LENGTH * PAGE_LENGTH, page);
      }
    }

    /** The page buffer after a block has been written: in step with the part on the first page. */
    method Refresh(page: array<bv8>, strAdd: nat, a: nat, raw: seq<bv8>)
      requires page.Length == 64 && strAdd <= a < 64 && |raw| == BLOCK && 0 <= BufferIndex(a) <= 24
      modifies page
      ensures a < PAGE_LENGTH ==> page[..] == Overwrite(old(page[..]), BufferIndex(a), raw)
    {
      hide Overwrite;
      if strAdd >= PAGE_LENGTH {
        CopyIn(page, a / 8 * 8 - 32, raw);
      } else {
        CopyIn(page, a / 8 * 8, raw);
      }
    }

    /** The address of the block that holds address `a`, worked out from the room left in it. */
    method TurnAddress(a: nat) returns (base: nat)
      requires Valid() && a < size
      ensures 0 <= BufferIndex(a) <= 24 && base == PageAddress(start, a) + BufferIndex(a)
      ensures PageAddress(start, a) + PAGE_LENGTH <= start + size
      ensures base + BlockOffset(a) == start + a && Aligned(base)
    {
      TurnPlaces(start, a);
      var roomLeft := BLOCK - (start + a) % BLOCK;
      base := start + a + roomLeft - 8;
    }

    /** One turn of the loop: one block, read, changed and written. */
    method Turn(page: array<bv8>, strAdd: nat, buff: seq<bv8>, startx: nat, nextx: nat)
      returns (ok: bool, ghost copied: bool)
      requires Valid() && page != memory && strAdd + |buff| <= size && nextx <= |buff| && InBlock(strAdd, startx, nextx)
      requires Fresh(page, strAdd + startx)
      modifies memory, page
      ensures !flaky ==> ok
      ensures ok ==> copied
      ensures memory[..] == if copied then Overwrite(old(memory[..]), start + (strAdd + startx), buff[startx..nextx])
                            else old(memory[..])
      ensures ok ==> Fresh(page, strAdd + nextx)
    {
      hide Overwrite, BufferIndex, BlockOffset, PageAddress, Aligned;
      var a := strAdd + startx;
      ghost var mem := memory[..];
      var base := TurnAddress(a);
      ghost var p, i, off := PageAddress(start, a), BufferIndex(a), BlockOffset(a);
      ok := Reload(page, a);
      if !ok { return false, false; }
      ghost var was := page[..];
      var raw := BuildBlock(page, strAdd, buff, startx, nextx);
      assert raw == Overwrite(was[i..i + BLOCK], off, buff[startx..nextx]);
      TurnEffect(was, mem, p, i, off, buff[startx..nextx]);
      ok, copied := WriteBlock(base, raw);
      if !ok { return; }
      Refresh(page, strAdd, a, raw);
      FirstPage(start, a);
    }

    /** The loop of writeEEWP, with the first page already in the page buffer. */
    method WriteBlocks(page: array<bv8>, strAdd: nat, buff: seq<bv8>) returns (ok: bool, ghost done: nat)
      requires Valid() && page != memory && strAdd + |buff| <= size && Fresh(page, strAdd)
      modifies memory, page
      ensures !flaky ==> ok
      ensures done <= |buff| && (ok ==> done == |buff|)
      ensures memory[..] == Overwrite(old(memory[..]), start + strAdd, buff[..done])
    {
      hide Overwrite, Fresh, InBlock;
      ghost var mem0, addr := memory[..], start + strAdd;
      OverwriteNone(mem0, addr, buff);
      ok, done := true, 0;
      var startx := 0;
      while startx < |buff|
        invariant startx == done <= |buff| && ok
        invariant Fresh(page, strAdd + startx)
        invariant memory[..] == Overwrite(mem0, addr, buff[..startx])
      {
        var nextx := NextTurn(strAdd, startx, |buff|);
        OverwriteTwice(mem0, addr, buff, startx, nextx);
        ghost var copied;
        ok, copied := Turn(page, strAdd, buff, startx, nextx);
        done := if copied then nextx else startx;
        if !ok { return; }
        startx := nextx;
      }
    }

    /**
     * writeEEWP: on success exactly the requested range has changed; on failure, a prefix of it, whose last
     * block may have been copied unconfirmed.
     */
    method WriteEEWP(strAdd: nat, buff: seq<bv8>) returns (ok: bool, ghost done: nat)
      requires Valid()
      modifies memory
      ensures ok ==> done == |buff|
      ensures done <= |buff| && ((ok || done > 0) && |buff| > 0 ==> strAdd + |buff| <= size && !readOnly)
      ensures memory[..]
              == if done > 0 then Overwrite(old(memory[..]), start + strAdd, buff[..done]) else old(memory[..])
      ensures !flaky ==> (ok <==> buff == [] || (strAdd + |buff| <= size && !readOnly))
    {
      if |buff| == 0 { return true, 0; }
      if strAdd + |buff| > size || readOnly { return false, 0; }
      var page := new bv8[64];
      PageOf(strAdd);
      ok := ReadPage(strAdd / PAGE_LENGTH * PAGE_LENGTH, page);
      if !ok { return false, 0; }
      NoOverwrite(memory[..], start + strAdd);
      hide Overwrite;
      ok, done := WriteBlocks(page, strAdd, buff);
    }
  }

  lemma FirstPage(start: nat, a: nat)
    ensures a < PAGE_LENGTH ==> PageAddress(start, a) == start
  {}

  lemma EndsInBlock(strAdd: nat, startx: nat, len: nat)
    requires startx < len
    ensures InBlock(strAdd, startx, BlockEnd(strAdd, startx, len))
  {}

  lemma NoOverwrite(mem: seq<bv8>, at: nat)
    requires at <= |mem|
    ensures Overwrite(mem, at, []) == mem
  {}

  lemma WholeOverwrite(mem: seq<bv8>, data: seq<bv8>)
    requires |mem| == |data|
    ensures Overwrite(mem, 0, data) == data
  {}
}

/**
 * Cached page access for NVRAM parts without an open program job (owpgrw.c): Read_Page and
 * Write_Page over the pages of any number of parts on the network.
 */
module OwPageIO {
  import opened Bits
  import opened Bytes
  import opened Crc16
  import opened OwCache
  import opened Packet
  import opened Results

  /** The raw 32-byte pages of the parts on the network. */
  type Pages = map<(Rom, byte), PageData>

  /** No page has the length byte 32, for which Read_Page would read a byte past its own page buffer. */
  predicate NoOverlong(pages: Pages) {
    forall k :: k in pages ==> pages[k][0] != 32
  }

  /** What Read_Page returns when it goes to the part (32 itself is excluded by NoOverlong). */
  function UncachedRead(pages: Pages, rom: Rom, pg: byte): Result<seq<byte>> {
    if (rom, pg) !in pages then Err(LinkFailed)
    else
      var raw := pages[(rom, pg)];
      if raw[0] >= 32 then Err(InvalidPacketLength) else Ok(raw[1..1 + raw[0]])
  }

  /** On the bytes of the page: as many bytes behind the first one as that one says. */
  lemma ReadIsBytes(pages: Pages, rom: Rom, pg: byte)
    ensures var r := UncachedRead(pages, rom, pg);
            if (rom, pg) !in pages then r == Err(LinkFailed)
            else
              var raw := pages[(rom, pg)];
              && (raw[0] > 32 ==> r == Err(InvalidPacketLength))
              && (raw[0] < 32 ==>
                    r.Ok? && |r.value| == raw[0] && forall k :: 0 <= k < raw[0] ==> r.value[k] == raw[k + 1])
  {}

  function ToBits(s: seq<byte>): seq<bv8> {
    seq(|s|, i requires 0 <= i < |s| => s[i] as bv8)
  }

  /** The page after writePagePacket: length, data, complemented CRC, and what was there beyond. */
  function PageWith(raw: PageData, pg: byte, buf: seq<byte>): (raw': PageData)
    requires |buf| <= MAX_PACKET_DATA
    ensures raw'[0] == |buf| && raw'[1..1 + |buf|] == buf && raw'[|buf| + 3..] == raw[|buf| + 3..]
  {
    var crc := Crc(pg as bv16, ToBits([|buf|] + buf));
    [|buf|] + buf + [CheckLow(crc) as int, CheckHigh(crc) as int] + raw[|buf| + 3..]
  }

  function Written(pages: Pages, rom: Rom, pg: byte, buf: seq<byte>): Pages
    requires (rom, pg) in pages && |buf| <= MAX_PACKET_DATA
  {
    pages[(rom, pg) := PageWith(pages[(rom, pg)], pg, buf)]
  }

  // ---------- coherence ----------

  /** A usable entry holds exactly what the part would return. */
  ghost predicate Faithful(e: Entry, pages: Pages) {
    && e.data[0] < 32
    && (e.LengthOk() ==> UncachedRead(pages, e.rom, e.page) == Ok(e.Payload()))
  }

  ghost predicate ChainCoherent(c: seq<byte>, space: seq<Dentry>, pages: Pages) {
    |space| == DEPTH && forall i :: 0 <= i < |c| ==> c[i] < DEPTH && Faithful(space[c[i]].entry, pages)
  }

  ghost predicate Coherent(chains: seq<seq<byte>>, space: seq<Dentry>, pages: Pages) {
    |chains| == DEPTH && forall h: byte :: h < DEPTH ==> ChainCoherent(chains[h], space, pages)
  }

  /** Every slot on the new chains other than `slot` was on the old ones, with the same entry. */
  ghost predicate OnlyAdds(chains: seq<seq<byte>>, chains': seq<seq<byte>>, space: seq<Dentry>, space': seq<Dentry>,
                           slot: byte) {
    && |chains| == |chains'| == |space| == |space'| == DEPTH
    && (forall g: byte :: g < DEPTH ==> forall i :: 0 <= i < |chains'[g]| ==>
        chains'[g][i] == slot || chains'[g][i] in chains[g])
    && (forall p: byte {:trigger space'[p]} :: p < DEPTH && p != slot ==> space'[p].entry == space[p].entry)
  }

  /**
   * The heart of coherence: after the page of one key has changed on the part, storing what it now
   * holds in the first entry of that key makes the whole cache coherent again, because no later
   * entry of the key is usable.
   */
  lemma StoreCoherent(chains: seq<seq<byte>>, space: seq<Dentry>, pages: Pages,
                      chains': seq<seq<byte>>, hash': seq<byte>, bitMap': seq<byte>, space': seq<Dentry>, pages': Pages,
                      h: byte, k: nat)
    requires Coherent(chains, space, pages) && |space| == |space'| == DEPTH
    requires Represents(chains', hash', bitMap', space') && Usable(chains', space')
    requires h < DEPTH && k < |chains'[h]| && chains'[h][k] < DEPTH
    requires OnlyAdds(chains, chains', space, space', chains'[h][k])
    requires var e := space'[chains'[h][k]].entry;
             && h == HashFunction(e.rom, e.page) && Faithful(e, pages')
             && (forall i :: 0 <= i < k ==> chains'[h][i] < DEPTH && !SameKey(space'[chains'[h][i]].entry, e))
             && SameElsewhere(pages, pages', e.rom, e.page)
    ensures Coherent(chains', space', pages')
  {
    var slot := chains'[h][k];
    var e := space'[slot].entry;
    forall g: byte, i | g < DEPTH && 0 <= i < |chains'[g]|
      ensures chains'[g][i] < DEPTH && Faithful(space'[chains'[g][i]].entry, pages')
    {
      assert Linked(g, chains', hash', bitMap', space') && NodeOk(chains'[g], i, g, bitMap', space');
      var q := chains'[g][i];
      var x := space'[q].entry;
      if q != slot {
        assert ChainCoherent(chains[g], space, pages) && q in chains[g];
        assert Faithful(space[q].entry, pages) && x == space[q].entry;
        if x.rom == e.rom && x.page == e.page {
          assert g == h && SameKey(x, e) && i > k;
          assert ChainUsable(chains'[h], space');
          var es := EntriesOf(chains'[h], space');
          assert SameKey(es[k], es[i]);
        }
      }
    }
  }

  lemma SubCoherent(chains: seq<seq<byte>>, space: seq<Dentry>, pages: Pages,
                    chains': seq<seq<byte>>, hash': seq<byte>, bitMap': seq<byte>, space': seq<Dentry>)
    requires Coherent(chains, space, pages) && Represents(chains', hash', bitMap', space') && SameEntries(space, space')
    requires forall g: byte :: g < DEPTH ==> forall i :: 0 <= i < |chains'[g]| ==> chains'[g][i] in chains[g]
    ensures Coherent(chains', space', pages)
  {
    forall g: byte, i | g < DEPTH && 0 <= i < |chains'[g]|
      ensures chains'[g][i] < DEPTH && Faithful(space'[chains'[g][i]].entry, pages)
    {
      assert Linked(g, chains', hash', bitMap', space') && ChainCoherent(chains[g], space, pages);
    }
  }

  ghost predicate AllEmpty(chains: seq<seq<byte>>) {
    forall h :: 0 <= h < |chains| ==> chains[h] == []
  }

  lemma NewEntryFaithful(rom: Rom, pg: byte, tick: nat, data: PageData, buf: seq<byte>, pages: Pages)
    requires |buf| < 32 && UncachedRead(pages, rom, pg) == Ok(buf)
    ensures Faithful(PageCache.NewEntry(rom, pg, tick, Stored(data, |buf|, buf)), pages)
  {
    var e := PageCache.NewEntry(rom, pg, tick, Stored(data, |buf|, buf));
    if e.LengthOk() {
      assert e.Payload() == buf;
    }
  }

  /**
   * Why pages of length byte 32 are excluded: Read_Page returns 32 bytes for them, but the entry AddPage makes
   * of the page hands out none. Every other length is handed out as it was read, or not at all.
   */
  lemma CachedAsReadIff(rom: Rom, pg: byte, tick: nat, was: PageData, len: byte, buf: seq<byte>)
    requires len <= 32 && |buf| == len
    ensures var e := PageCache.NewEntry(rom, pg, tick, Stored(was, len, buf));
            (e.LengthOk() ==> e.Payload() == buf) <==> len != 32
  {
    var e := PageCache.NewEntry(rom, pg, tick, Stored(was, len, buf));
    if e.LengthOk() && len != 32 {
      assert e.Payload() == buf;
    }
  }

  lemma InsertOnlyAdds(chains: seq<seq<byte>>, bitMap: seq<byte>, space: seq<Dentry>, space': seq<Dentry>, h: byte,
                       p: byte)
    requires |chains| == |bitMap| == |space| == |space'| == DEPTH && h < DEPTH && p < DEPTH
    requires forall q: byte {:trigger space'[q]} :: q < DEPTH && q != p ==> space'[q].entry == space[q].entry
    ensures OnlyAdds(chains, AddedTo(Without(chains, bitMap, p), h, p), space, space', p)
  {
    var chains1 := Without(chains, bitMap, p);
    var chains' := AddedTo(chains1, h, p);
    forall g: byte, i | g < DEPTH && 0 <= i < |chains'[g]|
      ensures chains'[g][i] == p || chains'[g][i] in chains[g]
    {
      RemoveSubset(chains[g], p);
      if chains'[g][i] != p {
        assert chains'[g][i] in chains1[g];
      }
    }
  }

  /** The pages of all other keys read the same. */
  ghost predicate SameElsewhere(pages: Pages, pages': Pages, rom: Rom, pg: byte) {
    forall r: Rom, p: byte :: r != rom || p != pg ==> UncachedRead(pages', r, p) == UncachedRead(pages, r, p)
  }

  /** Slots other than `p` hold the same page as before. */
  ghost predicate SameButFor(space: seq<Dentry>, space': seq<Dentry>, p: byte) {
    && |space| == |space'| == DEPTH
    && forall q: byte {:trigger space'[q]} :: q < DEPTH && q != p ==> space'[q].entry == space[q].entry
  }

  /** AddPage found the page and rewrote its entry. */
  lemma UpdateCoherent(chains: seq<seq<byte>>, space: seq<Dentry>, pages: Pages,
                       hash': seq<byte>, bitMap': seq<byte>, space': seq<Dentry>, pages': Pages, h: byte, k: nat,
                         e: Entry)
    requires Coherent(chains, space, pages) && Represents(chains, hash', bitMap', space') && Usable(chains, space')
    requires h == HashFunction(e.rom, e.page) && |space| == DEPTH && ChainUsable(chains[h], space) && k < |chains[h]|
    requires forall i :: 0 <= i < k ==> !EntriesOf(chains[h], space)[i].Matches(e.rom, e.page, e.Flag())
    requires space'[chains[h][k]].entry == e && Faithful(e, pages') && SameButFor(space, space', chains[h][k])
    requires SameElsewhere(pages, pages', e.rom, e.page)
    ensures Coherent(chains, space', pages')
  {
    var c := chains[h];
    assert Linked(h, chains, hash', bitMap', space');
    forall i | 0 <= i < k
      ensures c[i] < DEPTH && !SameKey(space'[c[i]].entry, e)
    {
      assert c[i] != c[k] && EntriesOf(c, space)[i] == space[c[i]].entry;
    }
    StoreCoherent(chains, space, pages, chains, hash', bitMap', space', pages', h, k);
  }

  /** AddPage put the page on slot `p`, in front of its chain. */
  lemma InsertCoherent(chains: seq<seq<byte>>, bitMap: seq<byte>, space: seq<Dentry>, pages: Pages,
                       hash': seq<byte>, bitMap': seq<byte>, space': seq<Dentry>, pages': Pages, h: byte, p: byte,
                         e: Entry)
    requires Coherent(chains, space, pages) && |bitMap| == |space| == DEPTH && p < DEPTH && h < DEPTH
    requires var chains' := AddedTo(Without(chains, bitMap, p), h, p);
             Represents(chains', hash', bitMap', space') && Usable(chains', space')
    requires h == HashFunction(e.rom, e.page)
    requires space'[p].entry == e && Faithful(e, pages') && SameButFor(space, space', p)
    requires SameElsewhere(pages, pages', e.rom, e.page)
    ensures Coherent(AddedTo(Without(chains, bitMap, p), h, p), space', pages')
  {
    InsertOnlyAdds(chains, bitMap, space, space', h, p);
    StoreCoherent(chains, space, pages, AddedTo(Without(chains, bitMap, p), h, p), hash', bitMap', space', pages', h,
                  0);
  }

  /** With no usable entry of a key, its page may change behind the cache's back. */
  lemma UnusedCoherent(chains: seq<seq<byte>>, hash: seq<byte>, bitMap: seq<byte>, space: seq<Dentry>,
                       space': seq<Dentry>,
                       pages: Pages, pages': Pages, rom: Rom, pg: byte)
    requires Coherent(chains, space, pages) && Represents(chains, hash, bitMap, space) && SameEntries(space, space')
    requires var h := HashFunction(rom, pg);
             ChainUsable(chains[h], space) && NoneUsable(EntriesOf(chains[h], space), rom, pg, 0)
    requires SameElsewhere(pages, pages', rom, pg)
    ensures Coherent(chains, space', pages')
  {
    var h := HashFunction(rom, pg);
    forall g: byte, i | g < DEPTH && 0 <= i < |chains[g]|
      ensures chains[g][i] < DEPTH && Faithful(space'[chains[g][i]].entry, pages')
    {
      assert Linked(g, chains, hash, bitMap, space) && NodeOk(chains[g], i, g, bitMap, space);
      assert ChainCoherent(chains[g], space, pages);
      var x := space[chains[g][i]].entry;
      assert Faithful(x, pages) && space'[chains[g][i]].entry == x;
      if x.rom == rom && x.page == pg {
        assert EntriesOf(chains[h], space)[i] == x;
      }
    }
  }

  /** What the cache has been told of the pages: it falls behind them when a write is only reported as failed. */
  class Seen {
    ghost var pages: Pages

    constructor (pages: Pages)
      ensures this.pages == pages
    {
      this.pages := pages;
    }
  }

  /** Page `pg` as it is on the part; the others as they were seen. */
  ghost function Refreshed(seen: Pages, pages: Pages, rom: Rom, pg: byte): Pages {
    if (rom, pg) in pages then seen[(rom, pg) := pages[(rom, pg)]] else seen
  }

  lemma RefreshedIs(seen: Pages, pages: Pages, rom: Rom, pg: byte)
    ensures (rom, pg) in pages ==>
              UncachedRead(Refreshed(seen, pages, rom, pg), rom, pg) == UncachedRead(pages, rom, pg)
    ensures SameElsewhere(seen, Refreshed(seen, pages, rom, pg), rom, pg)
    ensures (rom, pg) !in pages ==> Refreshed(seen, pages, rom, pg) == seen
    ensures seen == pages ==> Refreshed(seen, pages, rom, pg) == pages
  {}

  /** The time of every cached copy of the page has run out. */
  ghost predicate Stale(space: seq<Dentry>, rom: Rom, pg: byte, now: nat)
    requires |space| == DEPTH
  {
    forall p: byte :: p < DEPTH && space[p].entry.rom == rom && space[p].entry.page == pg ==>
      space[p].entry.tstamp < now
  }

  lemma RefreshedWritten(pages: Pages, rom: Rom, pg: byte, buf: seq<byte>)
    requires (rom, pg) in pages && |buf| <= 29
    ensures Refreshed(pages, Written(pages, rom, pg, buf), rom, pg) == Written(pages, rom, pg, buf)
  {}

  class PageIO {
    const cache: PageCache
    const seen: Seen
    /** false: every transfer to a page that exists succeeds; true: any transfer may fail. */
    const flaky: bool
    /** true: a write that is reported as failed may have taken place. */
    const lossy: bool
    var pages: Pages

    /** The objects page accesses may change. */
    ghost function Repr(): set<object> {
      {this, seen, cache, cache.space, cache.hash, cache.bitMap}
    }

    /** Every usable entry of the cache holds what was seen of its page. */
    ghost predicate Sound()
      reads Repr()
    {
      && cache.Valid()
      && Coherent(cache.chains, cache.space[..], seen.pages)
      && NoOverlong(pages)
    }

    /** A write that fails leaves the part alone, and what was seen is what is there. */
    ghost predicate Valid()
      reads Repr()
    {
      Sound() && !lossy && seen.pages == pages
    }

    constructor (cache: PageCache, pages: Pages, flaky: bool, lossy: bool)
      requires cache.Valid() && AllEmpty(cache.chains) && NoOverlong(pages)
      ensures Sound() && this.cache == cache && fresh(seen) && this.pages == pages == seen.pages
      ensures this.flaky == flaky && this.lossy == lossy && (!lossy ==> Valid())
    {
      this.cache, this.pages, this.flaky, this.lossy := cache, pages, flaky, lossy;
      this.seen := new Seen(pages);
    }

    /** The link: a transfer to an existing page may only fail on a flaky link. */
    method Transfer(rom: Rom, pg: byte) returns (ok: bool)
      ensures ok ==> (rom, pg) in pages
      ensures !flaky && (rom, pg) in pages ==> ok
    {
      ok := *;
      ok := (ok || !flaky) && (rom, pg) in pages;
    }

    /** AddPage for the page that the part now holds. */
    method Store(rom: Rom, pg: byte, buf: seq<byte>, evictTick: nat, stampTick: nat)
      requires cache.Valid() && Coherent(cache.chains, cache.space[..], seen.pages)
      requires |buf| < 32 && UncachedRead(pages, rom, pg) == Ok(buf) && (rom, pg) in pages
      modifies Repr() - {this}
      ensures cache.Valid() && Coherent(cache.chains, cache.space[..], seen.pages)
      ensures seen.pages == Refreshed(old(seen.pages), pages, rom, pg)
      ensures !cache.insertOnMiss && old(AllEmpty(cache.chains)) ==> AllEmpty(cache.chains)
    {
      hide Faithful, FirstUsable, Coherent, NoneUsable, UncachedRead, SameElsewhere, Refreshed;
      var len: byte := |buf|;
      ghost var before, after := seen.pages, Refreshed(seen.pages, pages, rom, pg);
      RefreshedIs(before, pages, rom, pg);
      ghost var h := HashFunction(rom, pg);
      ghost var chains0, hash0, map0, space0 := cache.chains, cache.hash[..], cache.bitMap[..], cache.space[..];
      assert ChainUsable(chains0[h], space0);
      ghost var es := cache.Entries(h);
      ghost var w := Walk(es, 0, rom, pg, 0, false, 0);
      WalkFirst(es, 0, rom, pg, 0, false, 0);
      hide Represents, Usable, ChainUsable;
      var slot := cache.AddPage(rom, pg, buf, len, evictTick, stampTick);
      ghost var space1, chains1, hash1, map1 := cache.space[..], cache.chains, cache.hash[..], cache.bitMap[..];
      ghost var e := space1[slot].entry;
      if w.Hit? && es[w.index].LengthOk() {
        NewEntryFaithful(rom, pg, stampTick, space0[slot].entry.data, buf, after);
        UpdateCoherent(chains0, space0, before, hash1, map1, space1, after, h, w.index, e);
      } else if !cache.insertOnMiss {
        MissMeansNone(es, rom, pg, 0);
        UnusedCoherent(chains0, hash0, map0, space0, space1, before, after, rom, pg);
      } else {
        NewEntryFaithful(rom, pg, stampTick, space0[slot].entry.data, buf, after);
        InsertCoherent(chains0, map0, space0, before, hash1, map1, space1, after, h, slot, e);
      }
      seen.pages := after;
    }

    /** Read_Page: the result is what was seen of the page, or what is there and thereby seen. */
    method PageRead(rom: Rom, pg: byte, t: Ticks) returns (r: Result<seq<byte>>)
      requires Sound()
      modifies Repr() - {this}
      ensures Sound()
      ensures seen.pages == old(seen.pages) || seen.pages == Refreshed(old(seen.pages), pages, rom, pg)
      ensures r.Ok? ==> r == UncachedRead(seen.pages, rom, pg)
      ensures r.Ok? && old(Stale(cache.space[..], rom, pg, t.read)) ==> r == UncachedRead(pages, rom, pg)
      ensures !flaky ==> r == UncachedRead(seen.pages, rom, pg) || r == UncachedRead(pages, rom, pg)
      ensures r.Err? ==> r.error != ReadOnly
      ensures !cache.insertOnMiss && old(AllEmpty(cache.chains)) ==> AllEmpty(cache.chains)
    {
      ghost var h := HashFunction(rom, pg);
      ghost var chains0, space0 := cache.chains, cache.space[..];
      assert ChainUsable(chains0[h], space0) && ChainCoherent(chains0[h], space0, seen.pages);
      ghost var es := cache.Entries(h);
      WalkFirst(es, 0, rom, pg, 0, true, t.read);
      RemoveSubsets(chains0, h);
      var found, len, buf, _ := cache.FindPage(rom, pg, 0, true, t.read);
      SubCoherent(chains0, space0, seen.pages, cache.chains, cache.hash[..], cache.bitMap[..], cache.space[..]);
      if found {
        return Ok(buf);
      }
      var reached := Transfer(rom, pg);
      if !reached {
        return Err(LinkFailed);
      }
      var raw := pages[(rom, pg)];
      if raw[0] > 32 {
        return Err(InvalidPacketLength);
      }
      buf := raw[1..1 + raw[0]];
      ghost var before := seen.pages;
      Store(rom, pg, buf, t.evict, t.stamp);
      RefreshedIs(before, pages, rom, pg);
      return Ok(buf);
    }

    /** Write_Page: the part first, then the cache. A write that is reported as failed may have reached the part. */
    method PageWrite(rom: Rom, buf: seq<byte>, pg: byte, t: Ticks) returns (r: Result<()>)
      requires Sound()
      modifies Repr()
      ensures Sound()
      ensures |buf| > 29 ==> r == Err(InvalidPacketLength)
      ensures r.Ok? ==> |buf| <= 29 && (rom, pg) in old(pages) && pages == Written(old(pages), rom, pg, buf)
      ensures r.Ok? ==> seen.pages == Refreshed(old(seen.pages), pages, rom, pg)
      ensures r.Err? ==>
                seen.pages == old(seen.pages) && (pages == old(pages) || Landed(old(pages), pages, rom, pg, buf))
      ensures !flaky && |buf| <= 29 && (rom, pg) in old(pages) ==> r.Ok?
      ensures |buf| <= 29 && r.Err? ==> r == Err(LinkFailed)
      ensures r != Err(ReadOnly)
      ensures !cache.insertOnMiss && old(AllEmpty(cache.chains)) ==> AllEmpty(cache.chains)
    {
      if |buf| > 29 {
        return Err(InvalidPacketLength);
      }
      var reached := Transfer(rom, pg);
      if !reached {
        var landed: bool := *;
        if lossy && landed && (rom, pg) in pages {
          pages := Written(pages, rom, pg, buf);
        }
        return Err(LinkFailed);
      }
      pages := Written(pages, rom, pg, buf);
      Store(rom, pg, buf, t.evict, t.stamp);
      return Ok(());
    }

    /** A write that took place and was reported as failed. */
    ghost predicate Landed(before: Pages, after: Pages, rom: Rom, pg: byte, buf: seq<byte>) {
      lossy && |buf| <= 29 && (rom, pg) in before && after == Written(before, rom, pg, buf)
    }

    /**
     * Read_Page where failed writes left nothing. On success the result is what an uncached read of the part
     * returns; if the link works, so is the failure.
     */
    method ReadPage(rom: Rom, pg: byte, t: Ticks) returns (r: Result<seq<byte>>)
      requires Valid()
      modifies Repr() - {this}
      ensures Valid()
      ensures r.Ok? ==> r == UncachedRead(pages, rom, pg)
      ensures !flaky ==> r == UncachedRead(pages, rom, pg)
      ensures r.Err? ==> r.error != ReadOnly
      ensures !cache.insertOnMiss && old(AllEmpty(cache.chains)) ==> AllEmpty(cache.chains)
    {
      hide Sound, UncachedRead;
      RefreshedIs(seen.pages, pages, rom, pg);
      r := PageRead(rom, pg, t);
    }

    /** Write_Page where a failed transfer leaves the part unchanged. */
    method WritePage(rom: Rom, buf: seq<byte>, pg: byte, t: Ticks) returns (r: Result<()>)
      requires Valid()
      modifies Repr()
      ensures Valid()
      ensures |buf| > 29 ==> r == Err(InvalidPacketLength)
      ensures r.Ok? ==> |buf| <= 29 && (rom, pg) in old(pages)
      ensures pages == if r.Ok? then Written(old(pages), rom, pg, buf) else old(pages)
      ensures !flaky && |buf| <= 29 && (rom, pg) in old(pages) ==> r.Ok?
      ensures |buf| <= 29 && r.Err? ==> r == Err(LinkFailed)
      ensures r != Err(ReadOnly)
      ensures !cache.insertOnMiss && old(AllEmpty(cache.chains)) ==> AllEmpty(cache.chains)
    {
      hide Sound, UncachedRead;
      ghost var before := pages;
      r := PageWrite(rom, buf, pg, t);
      if r.Ok? {
        RefreshedWritten(before, rom, pg, buf);
      }
    }

    /** One access. */
    method Do(op: Op) returns (out: Result<seq<byte>>)
      requires Sound()
      modifies Repr()
      ensures Sound() && Step(old(pages), old(seen.pages), op, out, pages, seen.pages)
      ensures old(Valid()) ==> Valid() && pages == After(old(pages), op, out)
      ensures old(Valid()) ==> Explained(old(pages), op, out, !flaky)
      ensures !cache.insertOnMiss && old(AllEmpty(cache.chains)) ==> AllEmpty(cache.chains)
    {
      hide Sound, UncachedRead;
      RefreshedIs(seen.pages, pages, op.rom, op.pg);
      ghost var before := pages;
      match op
      case Read(rom, pg, t) =>
        out := PageRead(rom, pg, t);
      case Write(rom, pg, buf, t) =>
        var r := PageWrite(rom, buf, pg, t);
        out := if r.Ok? then Ok(buf) else Err(r.error);
        if r.Ok? {
          RefreshedWritten(before, rom, pg, buf);
        }
    }

    /**
     * Any script of page accesses on any parts, at any clock readings. Every read returns the content of the last
     * confirmed write of its page or of a later one that was reported as failed; if failed writes leave nothing,
     * every outcome is that of uncached pages.
     */
    method Run(ops: seq<Op>) returns (outs: seq<Result<seq<byte>>>)
      requires Sound()
      modifies Repr()
      ensures Sound() && |outs| == |ops| && AllShown(old(pages), old(seen.pages), ops, outs)
      ensures old(Valid()) ==> Valid() && pages == PagesAfter(old(pages), ops, outs)
      ensures old(Valid()) ==> AllExplained(old(pages), ops, outs, !flaky)
      ensures !cache.insertOnMiss && old(AllEmpty(cache.chains)) ==> AllEmpty(cache.chains)
    {
      hide Sound, Valid, AllExplained, Explained, After, AllEmpty, AllShown, Keeps, Step;
      outs := [];
      NoOps(pages, seen.pages, !flaky);
      ghost var pages0, seen0, sound := pages, seen.pages, Valid();
      for i := 0 to |ops|
        invariant Sound() && |outs| == i
        invariant AllShown(pages0, seen0, ops[..i], outs)
        invariant Keeps(pages0, seen0, ops[..i], outs, pages) && Keeps(pages0, seen0, ops[..i], outs, seen.pages)
        invariant sound ==> Valid() && pages == PagesAfter(pages0, ops[..i], outs)
        invariant sound ==> AllExplained(pages0, ops[..i], outs, !flaky)
        invariant !cache.insertOnMiss && old(AllEmpty(cache.chains)) ==> AllEmpty(cache.chains)
      {
        ghost var before, was := pages, seen.pages;
        var out := Do(ops[i]);
        StepKeeps(pages0, seen0, ops[..i], outs, before, was, ops[i], out, pages, seen.pages);
        if sound {
          OneMore(pages0, ops[..i], ops[i], outs, out, !flaky);
        }
        assert ops[..i + 1] == ops[..i] + [ops[i]];
        outs := outs + [out];
      }
      assert ops[..|ops|] == ops;
    }
  }

  /** The clock readings of one access: FindPage's, FindNew's and AddPage's. */
  datatype Ticks = Ticks(read: nat, evict: nat, stamp: nat)

  datatype Op = Read(rom: Rom, pg: byte, t: Ticks) | Write(rom: Rom, pg: byte, buf: seq<byte>, t: Ticks)

  /** The parts' pages after the writes that reported success, with no cache in sight. */
  ghost function PagesAfter(pages: Pages, ops: seq<Op>, outs: seq<Result<seq<byte>>>): Pages
    requires |ops| == |outs|
    decreases |ops|
  {
    if ops == [] then pages
    else
      var before := PagesAfter(pages, ops[..|ops| - 1], outs[..|ops| - 1]);
      After(before, Last(ops), Last(outs))
  }

  /** The parts' pages after one access. */
  function After(before: Pages, op: Op, out: Result<seq<byte>>): Pages {
    if op.Write? && out.Ok? && (op.rom, op.pg) in before && |op.buf| <= 29 then Written(before, op.rom, op.pg, op.buf)
    else before
  }

  /** An outcome that the pages alone account for; on a sound link they determine it. */
  ghost predicate Explained(pages: Pages, op: Op, out: Result<seq<byte>>, sound: bool) {
    match op
    case Read(rom, pg, _) =>
      out.Ok? || sound ==> out == UncachedRead(pages, rom, pg)
    case Write(rom, pg, buf, _) =>
      && (out.Ok? ==> out == Ok(buf) && (rom, pg) in pages && |buf| <= 29)
      && (|buf| > 29 ==> out == Err(InvalidPacketLength))
      && (sound && (rom, pg) in pages && |buf| <= 29 ==> out == Ok(buf))
  }

  /** Every outcome is accounted for by the pages as they were when the access began. */
  ghost predicate AllExplained(pages: Pages, ops: seq<Op>, outs: seq<Result<seq<byte>>>, sound: bool) {
    && |ops| == |outs|
    && forall k :: 0 <= k < |ops| ==> Explained(PagesAfter(pages, ops[..k], outs[..k]), ops[k], outs[k], sound)
  }

  lemma NoOps(pages: Pages, seen: Pages, sound: bool)
    ensures AllExplained(pages, [], [], sound) && AllShown(pages, seen, [], [])
    ensures Keeps(pages, seen, [], [], pages) && Keeps(pages, seen, [], [], seen)
  {}

  lemma PagesAfterMore(pages: Pages, ops: seq<Op>, op: Op, outs: seq<Result<seq<byte>>>, out: Result<seq<byte>>)
    requires |ops| == |outs|
    ensures PagesAfter(pages, ops + [op], outs + [out]) == After(PagesAfter(pages, ops, outs), op, out)
  {
    hide After;
    assert (ops + [op])[..|ops|] == ops && (outs + [out])[..|ops|] == outs;
  }

  lemma OneMore(pages: Pages, ops: seq<Op>, op: Op, outs: seq<Result<seq<byte>>>, out: Result<seq<byte>>, sound: bool)
    requires AllExplained(pages, ops, outs, sound)
    requires Explained(PagesAfter(pages, ops, outs), op, out, sound)
    ensures AllExplained(pages, ops + [op], outs + [out], sound)
    ensures PagesAfter(pages, ops + [op], outs + [out]) == After(PagesAfter(pages, ops, outs), op, out)
  {
    PagesAfterMore(pages, ops, op, outs, out);
    hide Explained, After, PagesAfter;
    var ops', outs' := ops + [op], outs + [out];
    assert ops'[..|ops|] == ops && outs'[..|ops|] == outs;
    forall k | 0 <= k < |ops'|
      ensures Explained(PagesAfter(pages, ops'[..k], outs'[..k]), ops'[k], outs'[k], sound)
    {
      if k < |ops| {
        assert ops'[..k] == ops[..k] && outs'[..k] == outs[..k];
      }
    }
  }

  // ---------- writes that are reported as failed and took place ----------

  /** One access, with what it makes of the pages and of what was seen of them. */
  ghost predicate Step(pages: Pages, seen: Pages, op: Op, out: Result<seq<byte>>, pages': Pages, seen': Pages) {
    match op
    case Read(rom, pg, _) =>
      && pages' == pages && (seen' == seen || seen' == Refreshed(seen, pages, rom, pg))
      && (out.Ok? ==> out == UncachedRead(seen', rom, pg))
    case Write(rom, pg, buf, _) =>
      if out.Ok? then
        && out == Ok(buf) && |buf| <= 29 && (rom, pg) in pages
        && pages' == Written(pages, rom, pg, buf) && seen' == Refreshed(seen, pages', rom, pg)
      else
        && seen' == seen
        && (pages' == pages || (|buf| <= 29 && (rom, pg) in pages && pages' == Written(pages, rom, pg, buf)))
  }

  /** Page `pg` may show `x`: the content of the last confirmed write to it or of a failed one since. */
  ghost predicate MayShow(pages: Pages, seen: Pages, ops: seq<Op>, outs: seq<Result<seq<byte>>>,
                          rom: Rom, pg: byte, x: seq<byte>)
    requires |ops| == |outs|
    decreases |ops|
  {
    if ops == [] then UncachedRead(pages, rom, pg) == Ok(x) || UncachedRead(seen, rom, pg) == Ok(x)
    else
      var op, n := Last(ops), |ops| - 1;
      if op.Write? && op.rom == rom && op.pg == pg && Last(outs).Ok? then x == op.buf
      else
        || (op.Write? && op.rom == rom && op.pg == pg && |op.buf| <= 29 && x == op.buf)
        || MayShow(pages, seen, ops[..n], outs[..n], rom, pg, x)
  }

  /** Every successful read returned what its page could show when the access began. */
  ghost predicate AllShown(pages: Pages, seen: Pages, ops: seq<Op>, outs: seq<Result<seq<byte>>>) {
    && |ops| == |outs|
    && forall k :: 0 <= k < |ops| ==> Shown(pages, seen, ops[..k], outs[..k], ops[k], outs[k])
  }

  ghost predicate Shown(pages: Pages, seen: Pages, ops: seq<Op>, outs: seq<Result<seq<byte>>>,
                        op: Op, out: Result<seq<byte>>)
    requires |ops| == |outs|
  {
    op.Read? && out.Ok? ==> MayShow(pages, seen, ops, outs, op.rom, op.pg, out.value)
  }

  /** All that `now` holds may be shown. */
  ghost predicate Keeps(pages: Pages, seen: Pages, ops: seq<Op>, outs: seq<Result<seq<byte>>>, now: Pages)
    requires |ops| == |outs|
  {
    forall rom: Rom, pg: byte :: UncachedRead(now, rom, pg).Ok? ==>
      MayShow(pages, seen, ops, outs, rom, pg, UncachedRead(now, rom, pg).value)
  }

  /** One more access. */
  lemma StepShows(pages: Pages, seen: Pages, ops: seq<Op>, outs: seq<Result<seq<byte>>>, op: Op, out: Result<seq<byte>>,
                  rom: Rom, pg: byte, x: seq<byte>)
    requires |ops| == |outs|
    ensures MayShow(pages, seen, ops + [op], outs + [out], rom, pg, x)
       <==> if op.Write? && op.rom == rom && op.pg == pg && out.Ok? then x == op.buf
            else
              || (op.Write? && op.rom == rom && op.pg == pg && |op.buf| <= 29 && x == op.buf)
              || MayShow(pages, seen, ops, outs, rom, pg, x)
  {
    hide UncachedRead;
    assert (ops + [op])[..|ops|] == ops && (outs + [out])[..|ops|] == outs;
  }

  lemma ReadWritten(pages: Pages, rom: Rom, pg: byte, buf: seq<byte>, r: Rom, p: byte)
    requires (rom, pg) in pages && |buf| <= 29
    ensures UncachedRead(Written(pages, rom, pg, buf), r, p)
         == if (r, p) == (rom, pg) then Ok(buf) else UncachedRead(pages, r, p)
  {}

  /** What one page shows after one more access, and what was seen of it. */
  lemma StepPage(pages0: Pages, seen0: Pages, ops: seq<Op>, outs: seq<Result<seq<byte>>>, pages: Pages, seen: Pages,
                 op: Op, out: Result<seq<byte>>, pages': Pages, seen': Pages, rom: Rom, pg: byte)
    requires |ops| == |outs| && Step(pages, seen, op, out, pages', seen')
    requires Keeps(pages0, seen0, ops, outs, pages) && Keeps(pages0, seen0, ops, outs, seen)
    ensures var now := UncachedRead(pages', rom, pg);
            now.Ok? ==> MayShow(pages0, seen0, ops + [op], outs + [out], rom, pg, now.value)
    ensures var now := UncachedRead(seen', rom, pg);
            now.Ok? ==> MayShow(pages0, seen0, ops + [op], outs + [out], rom, pg, now.value)
  {
    hide UncachedRead, Written, MayShow, Refreshed;
    var now, was := UncachedRead(pages', rom, pg), UncachedRead(seen', rom, pg);
    if now.Ok? { StepShows(pages0, seen0, ops, outs, op, out, rom, pg, now.value); }
    if was.Ok? { StepShows(pages0, seen0, ops, outs, op, out, rom, pg, was.value); }
    RefreshedIs(seen, pages', op.rom, op.pg);
    if op.Write? && |op.buf| <= 29 && (op.rom, op.pg) in pages {
      ReadWritten(pages, op.rom, op.pg, op.buf, rom, pg);
      WrittenKeys(pages, op.rom, op.pg, op.buf);
    }
  }

  lemma WrittenKeys(pages: Pages, rom: Rom, pg: byte, buf: seq<byte>)
    requires (rom, pg) in pages && |buf| <= 29
    ensures (rom, pg) in Written(pages, rom, pg, buf)
  {}

  /** The access itself, if it was a read. */
  lemma ShownMore(pages0: Pages, seen0: Pages, ops: seq<Op>, outs: seq<Result<seq<byte>>>, pages: Pages, seen: Pages,
                  op: Op, out: Result<seq<byte>>, pages': Pages, seen': Pages)
    requires AllShown(pages0, seen0, ops, outs) && Step(pages, seen, op, out, pages', seen')
    requires Keeps(pages0, seen0, ops, outs, pages) && Keeps(pages0, seen0, ops, outs, seen)
    ensures AllShown(pages0, seen0, ops + [op], outs + [out])
  {
    hide UncachedRead, Written, MayShow, Refreshed;
    RefreshedIs(seen, pages, op.rom, op.pg);
    var ops', outs' := ops + [op], outs + [out];
    assert ops'[..|ops|] == ops && outs'[..|ops|] == outs;
    forall k | 0 <= k < |ops'|
      ensures Shown(pages0, seen0, ops'[..k], outs'[..k], ops'[k], outs'[k])
    {
      if k < |ops| {
        assert ops'[..k] == ops[..k] && outs'[..k] == outs[..k];
      }
    }
  }

  /** What a page shows after one more access could be shown before, or was just written. */
  lemma StepKeeps(pages0: Pages, seen0: Pages, ops: seq<Op>, outs: seq<Result<seq<byte>>>, pages: Pages, seen: Pages,
                  op: Op, out: Result<seq<byte>>, pages': Pages, seen': Pages)
    requires AllShown(pages0, seen0, ops, outs) && Step(pages, seen, op, out, pages', seen')
    requires Keeps(pages0, seen0, ops, outs, pages) && Keeps(pages0, seen0, ops, outs, seen)
    ensures AllShown(pages0, seen0, ops + [op], outs + [out])
    ensures Keeps(pages0, seen0, ops + [op], outs + [out], pages')
    ensures Keeps(pages0, seen0, ops + [op], outs + [out], seen')
  {
    hide UncachedRead, Written, MayShow, Refreshed;
    forall rom: Rom, pg: byte
      ensures UncachedRead(pages', rom, pg).Ok? ==>
                MayShow(pages0, seen0, ops + [op], outs + [out], rom, pg, UncachedRead(pages', rom, pg).value)
      ensures UncachedRead(seen', rom, pg).Ok? ==>
                MayShow(pages0, seen0, ops + [op], outs + [out], rom, pg, UncachedRead(seen', rom, pg).value)
    {
      StepPage(pages0, seen0, ops, outs, pages, seen, op, out, pages', seen', rom, pg);
    }
    ShownMore(pages0, seen0, ops, outs, pages, seen, op, out, pages', seen');
  }

  lemma RemoveSubsets(chains: seq<seq<byte>>, h: byte)
    requires |chains| == DEPTH && h < DEPTH
    ensures forall x, i :: 0 <= i < |Remove(chains[h], x)| ==> Remove(chains[h], x)[i] in chains[h]
  {
    forall x, i | 0 <= i < |Remove(chains[h], x)|
      ensures Remove(chains[h], x)[i] in chains[h]
    {
      RemoveSubset(chains[h], x);
    }
  }

  /** The page image of a cached write is the packet mbnv.c puts on the part. */
  lemma PageIsPacket(raw: PageData, pg: byte, buf: seq<byte>)
    requires |buf| <= MAX_PACKET_DATA
    ensures ToBits(PageWith(raw, pg, buf)[..|buf| + 3]) == PacketOf(pg as bv16, ToBits(buf))
  {
    hide Crc, CheckLow, CheckHigh;
    var body := [|buf|] + buf;
    var crc := Crc(pg as bv16, ToBits(body));
    var lo, hi := CheckLow(crc), CheckHigh(crc);
    assert PageWith(raw, pg, buf)[..|buf| + 3] == body + [lo as int, hi as int];
    BitsOfNumber(lo);
    BitsOfNumber(hi);
    assert ToBits(body + [lo as int, hi as int]) == ToBits(body) + [lo, hi];
    BodyBits(buf);
  }

  lemma BodyBits(buf: seq<byte>)
    requires |buf| <= MAX_PACKET_DATA
    ensures ToBits([|buf|] + buf) == [LengthByte(|ToBits(buf)|)] + ToBits(buf)
  {
    assert ToBits([|buf|] + buf)[0] == |buf| as bv8;
  }
}

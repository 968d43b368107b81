/** What the representation of owcache.c means for a caller: who is on which chain, who is found, who is evicted. */
module OwCacheLaws {
  import opened Bytes
  import opened OwCache

  /** Two lists of chains agree up to position `n` of chain `h`. */
  lemma {:induction false} PrefixUnique(c: seq<byte>, c': seq<byte>, h: byte, head: byte, bitMap: seq<byte>,
                                        space: seq<Dentry>, n: nat)
    requires |bitMap| == |space| == DEPTH && n <= |c| && n <= |c'|
    requires ChainLinked(c, h, head, bitMap, space) && ChainLinked(c', h, head, bitMap, space)
    ensures c[..n] == c'[..n]
    ensures n == |c| || n == |c'| ==> |c| == |c'|
  {
    if n > 0 {
      PrefixUnique(c, c', h, head, bitMap, space, n - 1);
      assert c[n - 1] == c'[n - 1] by {
        if n > 1 {
          assert NodeOk(c, n - 2, h, bitMap, space) && NodeOk(c', n - 2, h, bitMap, space);
          assert c[n - 2] == c[..n - 1][n - 2] == c'[n - 2];
        }
      }
      assert NodeOk(c, n - 1, h, bitMap, space) && NodeOk(c', n - 1, h, bitMap, space);
      assert c[..n] == c[..n - 1] + [c[n - 1]] && c'[..n] == c'[..n - 1] + [c'[n - 1]];
    }
  }

  /** The arrays determine the chains: there is only one way to read them. */
  lemma ChainsUnique(chains: seq<seq<byte>>, chains': seq<seq<byte>>, hash: seq<byte>, bitMap: seq<byte>,
                     space: seq<Dentry>)
    requires Represents(chains, hash, bitMap, space) && Represents(chains', hash, bitMap, space)
    ensures chains == chains'
  {
    forall h: byte | h < DEPTH
      ensures chains[h] == chains'[h]
    {
      var c, c' := chains[h], chains'[h];
      assert Linked(h, chains, hash, bitMap, space) && Linked(h, chains', hash, bitMap, space);
      var n := if |c| <= |c'| then |c| else |c'|;
      PrefixUnique(c, c', h, hash[h], bitMap, space, n);
      assert c == c[..n] && c' == c'[..n];
    }
  }

  /** The bit map names, for every slot, the one chain that holds it. */
  lemma MarkIffOnChain(chains: seq<seq<byte>>, hash: seq<byte>, bitMap: seq<byte>, space: seq<Dentry>, p: byte, h: byte)
    requires Represents(chains, hash, bitMap, space) && p < DEPTH && h < DEPTH
    ensures p in chains[h] <==> bitMap[p] == h
  {
    assert Marked(p, chains, bitMap);
    OnOneChain(chains, hash, bitMap, space, p);
  }

  /** However the slots are scattered over chains, a key has at most one entry that can be handed out. */
  lemma OneUsableEntry(chains: seq<seq<byte>>, hash: seq<byte>, bitMap: seq<byte>, space: seq<Dentry>, p: byte, q: byte)
    requires Represents(chains, hash, bitMap, space) && Usable(chains, space)
    requires p < DEPTH && q < DEPTH && p != q && bitMap[p] != NONE && bitMap[q] != NONE
    ensures !(SameKey(space[p].entry, space[q].entry) && space[p].entry.LengthOk() && space[q].entry.LengthOk())
  {
    var i := Locate(chains, hash, bitMap, space, p);
    var j := Locate(chains, hash, bitMap, space, q);
    var g, h := bitMap[p], bitMap[q];
    assert Linked(g, chains, hash, bitMap, space) && Linked(h, chains, hash, bitMap, space);
    assert NodeOk(chains[g], i, g, bitMap, space) && NodeOk(chains[h], j, h, bitMap, space);
    if SameKey(space[p].entry, space[q].entry) {
      assert g == h && i != j;
      assert ChainUsable(chains[g], space);
      var es := EntriesOf(chains[g], space);
      assert es[i] == space[p].entry && es[j] == space[q].entry;
      assert SameKey(es[i], es[j]) && SameKey(es[j], es[i]);
    }
  }

  /** A usable, matching entry that has not expired and has no expired entry in front of it. */
  ghost predicate Reachable(es: seq<Entry>, k: nat, rom: Rom, page: byte, flag: byte, checkTime: bool, tm: nat) {
    && k < |es| && es[k].Matches(rom, page, flag) && es[k].LengthOk()
    && (checkTime ==> forall j :: 0 <= j <= k ==> tm <= es[j].tstamp)
  }

  /**
   * What a lookup finds. The documentation promises every page that is stored and has not expired;
   * the walk gives up at the first expired entry, so exactly those with no expired entry in front are found.
   */
  lemma FoundIff(es: seq<Entry>, rom: Rom, page: byte, flag: byte, checkTime: bool, tm: nat)
    requires FirstUsable(es)
    ensures var w := Walk(es, 0, rom, page, flag, checkTime, tm);
            && (w.Hit? && es[w.index].LengthOk() <==> exists k: nat :: Reachable(es, k, rom, page, flag, checkTime, tm))
            && forall k: nat :: Reachable(es, k, rom, page, flag, checkTime, tm) ==> w == Hit(k)
  {
    WalkFirst(es, 0, rom, page, flag, checkTime, tm);
    var w := Walk(es, 0, rom, page, flag, checkTime, tm);
    if w.Hit? && es[w.index].LengthOk() {
      assert Reachable(es, w.index, rom, page, flag, checkTime, tm);
    }
    forall k: nat | Reachable(es, k, rom, page, flag, checkTime, tm)
      ensures w == Hit(k)
    {
      if w.Hit? && w.index < k {
        assert SameKey(es[w.index], es[k]);
      }
    }
  }

  /** Page numbers and ROM bytes that do not overlap in the hash are added up. */
  lemma HashAddsUp(rom: Rom, page: byte)
    requires rom[2] < 16 && rom[7] < 16 && page < 16
    ensures HashFunction(rom, page) == (rom[1] * 4096 + rom[2] * 256 + rom[7] * 16 + page) % 254
  {
    var r1: nat, r2: nat, r7: nat := rom[1], rom[2], rom[7];
    assert PowerOfTwo(4) == 16 && PowerOfTwo(8) == 256 && PowerOfTwo(12) == 4096;
    BitOrSum(r1, r2 * 256, 12);
    BitOrSum(r1 * 16 + r2, r7 * 16, 8);
    BitOrSum(r1 * 256 + r2 * 16 + r7, page, 4);
  }

  function PowerOfTwo(k: nat): (p: nat)
    ensures p > 0
  {
    if k == 0 then 1 else 2 * PowerOfTwo(k - 1)
  }

  /** Or-ing a number into zero bits adds it. */
  lemma {:induction false} BitOrSum(c: nat, b: nat, k: nat)
    requires b < PowerOfTwo(k)
    ensures BitOr(c * PowerOfTwo(k), b) == c * PowerOfTwo(k) + b
  {
    if k == 0 {
      BitOrSame(c);
    } else {
      var p := PowerOfTwo(k - 1);
      assert c * PowerOfTwo(k) == 2 * (c * p);
      BitOrSum(c, b / 2, k - 1);
    }
  }

  lemma {:induction false} BitOrSame(n: nat)
    ensures BitOr(n, 0) == n
  {
    if n > 0 {
      BitOrSame(n / 2);
    }
  }

  /** Status memory, marked by bit 7 of the length byte, and regular memory do not answer for each other. */
  lemma MemoriesApart(e: Entry)
    ensures e.Matches(e.rom, e.page, 0) <==> e.data[0] < 128
    ensures e.Matches(e.rom, e.page, 128) <==> e.data[0] >= 128
  {}

  /** A page stored at one clock reading is served for 8000 ticks, on a clock of 64 bits. */
  lemma ExpiresIff(rom: Rom, pg: byte, tick: nat, data: PageData, flag: byte, now: nat)
    ensures Walk([PageCache.NewEntry(rom, pg, tick, data)], 0, rom, pg, flag, true, now).Expired?
       <==> now > (tick + 8000) % 0x1_0000_0000_0000_0000
  {}

  lemma {:induction false} BitOrZero(n: nat)
    ensures BitOr(0, n) == n
    decreases n
  {
    if n > 0 {
      BitOrZero(n / 2);
    }
  }

  const SOME_ROM: Rom := [0, 0, 0, 0, 0, 0, 0, 0]

  /** Pages 1 and 255 of this part share a chain. */
  lemma PagesCollide()
    ensures HashFunction(SOME_ROM, 1) == HashFunction(SOME_ROM, 255) == 1
  {
    BitOrZero(0);
    BitOrZero(1);
    BitOrZero(255);
  }

  /** Only chain 1 holds slots, and these are they. */
  ghost predicate OnlyChain(chains: seq<seq<byte>>, c: seq<byte>) {
    |chains| == DEPTH && chains[1] == c && forall g: byte :: g < DEPTH && g != 1 ==> chains[g] == []
  }

  /** A slot on no chain is free; taking it off its chain changes nothing. */
  lemma FreeSlot(chains: seq<seq<byte>>, hash: seq<byte>, bitMap: seq<byte>, space: seq<Dentry>, c: seq<byte>, p: byte)
    requires Represents(chains, hash, bitMap, space) && OnlyChain(chains, c) && p < DEPTH && p !in c
    ensures bitMap[p] == NONE && Without(chains, bitMap, p) == chains
  {
    assert Marked(p, chains, bitMap);
  }

  /** As long as some slot is free, a page that has not expired keeps its slot. */
  lemma LiveSlotStays(chains: seq<seq<byte>>, hash: seq<byte>, bitMap: seq<byte>, space: seq<Dentry>,
                      p: byte, t: byte, spot: byte, tm: nat)
    requires Represents(chains, hash, bitMap, space) && OnlyChain(chains, [p]) && p < DEPTH && t < DEPTH && spot < DEPTH
    requires tm <= space[p].entry.tstamp && Chosen(t, spot, bitMap, space, tm)
    ensures t != p
  {
    var q: byte := if p == 0 then 1 else 0;
    FreeSlot(chains, hash, bitMap, space, [p], q);
    MarkIffOnChain(chains, hash, bitMap, space, p, 1);
    assert p in chains[1] && Live(p, bitMap, space, tm) && !Live(q, bitMap, space, tm);
  }

  /** Page 1 goes into an empty cache. */
  method CacheFirst(cache: PageCache) returns (p: byte)
    requires cache.Valid() && cache.insertOnMiss && OnlyChain(cache.chains, [])
    modifies cache`chains, cache`spot, cache.space, cache.hash, cache.bitMap
    ensures cache.Valid() && p < DEPTH && OnlyChain(cache.chains, [p])
    ensures var e := cache.space[p].entry; e.Matches(SOME_ROM, 1, 0) && e.LengthOk() && e.tstamp == 8000
  {
    hide Chosen, Represents, Usable;
    ghost var chains0, hash0, map0, space0 := cache.chains, cache.hash[..], cache.bitMap[..], cache.space[..];
    PagesCollide();
    hide HashFunction;
    p := cache.AddPage(SOME_ROM, 1, [], 0, 0, 0);
    FreeSlot(chains0, hash0, map0, space0, [], p);
  }

  /** Page 255 goes in front of it. */
  method CacheSecond(cache: PageCache, p: byte) returns (q: byte)
    requires cache.Valid() && cache.insertOnMiss && p < DEPTH && OnlyChain(cache.chains, [p])
    requires var e := cache.space[p].entry; e.Matches(SOME_ROM, 1, 0) && e.LengthOk() && e.tstamp == 8000
    modifies cache`chains, cache`spot, cache.space, cache.hash, cache.bitMap
    ensures cache.Valid() && q < DEPTH && q != p && OnlyChain(cache.chains, [q, p])
    ensures var e := cache.space[p].entry; e.Matches(SOME_ROM, 1, 0) && e.LengthOk()
    ensures var e := cache.space[q].entry; e.page == 255 && e.tstamp == 8010
  {
    hide Chosen, Represents, Usable, HashFunction, Without;
    ghost var chains0, hash0, map0, space0 := cache.chains, cache.hash[..], cache.bitMap[..], cache.space[..];
    ghost var spot := cache.spot;
    PagesCollide();
    q := cache.AddPage(SOME_ROM, 255, [], 0, 10, 10);
    LiveSlotStays(chains0, hash0, map0, space0, p, q, spot, 10);
    FreeSlot(chains0, hash0, map0, space0, [p], q);
  }

  /**
   * The failing run: pages 1 and 255 are cached, page 1 is written again later, and page 255, which is in front
   * of it, expires first. Page 1 is then stored, usable and fresh, but a lookup stops at page 255.
   */
  method StaleInFront() returns (cache: PageCache)
    ensures fresh(cache) && cache.Valid() && HashFunction(SOME_ROM, 1) == 1
    ensures var es := cache.Entries(1);
            && |es| == 2 && es[1].Matches(SOME_ROM, 1, 0) && es[1].LengthOk() && 9000 <= es[1].tstamp
            && Walk(es, 0, SOME_ROM, 1, 0, true, 9000) == Expired(0)
  {
    PagesCollide();
    hide Chosen, Represents, Usable, HashFunction;
    cache := new PageCache(true);
    var p := CacheFirst(cache);
    var q := CacheSecond(cache, p);
    ghost var es := cache.Entries(1);
    assert es[0].page == 255 && es[1] == cache.space[p].entry;
    assert Walk(es, 0, SOME_ROM, 1, 0, false, 0) == Walk(es, 1, SOME_ROM, 1, 0, false, 0) == Hit(1);
    var r := cache.AddPage(SOME_ROM, 1, [], 0, 5000, 5000);
    assert r == p;
  }

  /** On such a cache the lookup fails, and the same lookup at the same time then succeeds: the expired page is gone. */
  method MissedThenFound(cache: PageCache) returns (first: bool, second: bool)
    requires cache.Valid() && HashFunction(SOME_ROM, 1) == 1
    requires var es := cache.Entries(1);
             && |es| == 2 && es[1].Matches(SOME_ROM, 1, 0) && es[1].LengthOk() && 9000 <= es[1].tstamp
             && Walk(es, 0, SOME_ROM, 1, 0, true, 9000) == Expired(0)
    modifies cache`chains, cache.space, cache.hash, cache.bitMap
    ensures cache.Valid() && !first && second
  {
    ghost var es, c := cache.Entries(1), cache.chains[1];
    assert NoDuplicates(c) by { assert Linked(1, cache.chains, cache.hash[..], cache.bitMap[..], cache.space[..]); }
    hide Represents, Usable, HashFunction;
    RemoveAt(c, 0);
    var len: byte, buf: seq<byte>, slot: byte;
    first, len, buf, slot := cache.FindPage(SOME_ROM, 1, 0, true, 9000);
    assert cache.Entries(1) == [es[1]];
    second, len, buf, slot := cache.FindPage(SOME_ROM, 1, 0, true, 9000);
  }

  /** The choice of a slot is determined by the table, the spot and the clock. */
  lemma ChosenUnique(t: byte, t': byte, spot: byte, bitMap: seq<byte>, space: seq<Dentry>, tm: nat)
    requires |bitMap| == |space| == DEPTH && spot < DEPTH && t < DEPTH && t' < DEPTH
    requires Chosen(t, spot, bitMap, space, tm) && Chosen(t', spot, bitMap, space, tm)
    ensures t == t'
  {}
}

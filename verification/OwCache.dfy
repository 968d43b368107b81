/**
 * The page cache of owcache.c: 254 slots, each on at most one of 254 hash
 * chains, linked forwards and backwards by slot number inside fixed arrays.
 */
module OwCache {
  import opened Bytes

  const DEPTH: nat := 254
  const CACHE_TIMEOUT: nat := 8000
  const NONE: byte := 0xFF
  /** Number of values of the client's `unsigned long` clock. */
  const CLOCK_RANGE: nat := 0x1_0000_0000_0000_0000

  type PageData = s: seq<byte> | |s| == 32 witness seq(32, _ => 0)

  /** One slot of Space: its three links and the page it holds. */
  datatype Dentry = Dentry(fptr: byte, bptr: byte, hptr: byte, entry: Entry)

  datatype Entry = Entry(rom: Rom, page: byte, tstamp: nat, data: PageData)
  {
    function Flag(): byte { MemoryFlag(data[0]) }

    predicate Matches(r: Rom, p: byte, flag: byte) {
      page == p && flag == Flag() && rom == r
    }

    /** FindPage only hands out entries that pass this check. */
    predicate LengthOk() { data[0] % 32 <= 0x1D }

    function Payload(): seq<byte>
      requires LengthOk()
    {
      data[1..1 + data[0] % 32]
    }
  }

  /** `len & 0x80`: 0x80 for status memory, 0 for regular memory. */
  function MemoryFlag(len: byte): byte { if len >= 128 then 128 else 0 }

  function HashFunction(rom: Rom, page: byte): byte {
    var h := BitOr(BitOr(BitOr(rom[1] as nat * 4096, rom[2] as nat * 256), rom[7] as nat * 16), page as nat);
    h % DEPTH
  }

  /** What a walk along one chain finds. */
  datatype Search = Hit(index: nat) | Expired(index: nat) | Miss

  /** FindPage's walk from position `i`: an expired entry ends it, a matching entry ends it. */
  function Walk(es: seq<Entry>, i: nat, rom: Rom, page: byte, flag: byte, checkTime: bool, tm: nat): (w: Search)
    requires i <= |es|
    ensures !w.Miss? ==> i <= w.index < |es|
    decreases |es| - i
  {
    if i == |es| then Miss
    else if checkTime && tm > es[i].tstamp then Expired(i)
    else if es[i].Matches(rom, page, flag) then Hit(i)
    else Walk(es, i + 1, rom, page, flag, checkTime, tm)
  }

  /** The walk stops at the first entry that is expired or matches. */
  lemma {:induction false} WalkFirst(es: seq<Entry>, i: nat, rom: Rom, page: byte, flag: byte, checkTime: bool, tm: nat)
    requires i <= |es|
    ensures var w := Walk(es, i, rom, page, flag, checkTime, tm);
            var end := if w.Miss? then |es| else w.index;
            && i <= end <= |es|
            && (forall j :: i <= j < end ==> !es[j].Matches(rom, page, flag) && (checkTime ==> tm <= es[j].tstamp))
            && (w.Hit? ==> es[end].Matches(rom, page, flag) && (checkTime ==> tm <= es[end].tstamp))
            && (w.Expired? ==> checkTime && tm > es[end].tstamp)
    decreases |es| - i
  {
    if i < |es| && !(checkTime && tm > es[i].tstamp) && !es[i].Matches(rom, page, flag) {
      WalkFirst(es, i + 1, rom, page, flag, checkTime, tm);
    }
  }

  predicate SameKey(a: Entry, b: Entry) { a.Matches(b.rom, b.page, b.Flag()) }

  /** Only the first entry of a key can be handed out; any later one is unusable. */
  ghost predicate FirstUsable(es: seq<Entry>) {
    forall i, j :: 0 <= i < j < |es| && SameKey(es[i], es[j]) ==> !es[j].LengthOk()
  }

  lemma FirstUsableRemove(es: seq<Entry>, k: nat)
    requires FirstUsable(es) && k < |es|
    ensures FirstUsable(es[..k] + es[k + 1..])
  {
    var es' := es[..k] + es[k + 1..];
    forall i, j | 0 <= i < j < |es'| && SameKey(es'[i], es'[j])
      ensures !es'[j].LengthOk()
    {
      var i0, j0 := if i < k then i else i + 1, if j < k then j else j + 1;
      assert es'[i] == es[i0] && es'[j] == es[j0];
    }
  }

  /** No entry of this key can be handed out. */
  ghost predicate NoneUsable(es: seq<Entry>, rom: Rom, page: byte, flag: byte) {
    forall i :: 0 <= i < |es| && es[i].Matches(rom, page, flag) ==> !es[i].LengthOk()
  }

  /** When FindPage fails without looking at the time, the chain has no usable entry of that key. */
  lemma MissMeansNone(es: seq<Entry>, rom: Rom, page: byte, flag: byte)
    requires FirstUsable(es)
    requires var w := Walk(es, 0, rom, page, flag, false, 0);
             w.Hit? ==> !es[w.index].LengthOk()
    ensures NoneUsable(es, rom, page, flag)
  {
    WalkFirst(es, 0, rom, page, flag, false, 0);
    var w := Walk(es, 0, rom, page, flag, false, 0);
    forall i | 0 <= i < |es| && es[i].Matches(rom, page, flag)
      ensures !es[i].LengthOk()
    {
      if i != w.index {
        assert SameKey(es[w.index], es[i]);
      }
    }
  }

  lemma FirstUsableInsert(es: seq<Entry>, e: Entry)
    requires FirstUsable(es) && NoneUsable(es, e.rom, e.page, e.Flag())
    ensures FirstUsable([e] + es)
  {
    var es' := [e] + es;
    forall i, j | 0 <= i < j < |es'| && SameKey(es'[i], es'[j])
      ensures !es'[j].LengthOk()
    {
      assert es'[j] == es[j - 1];
      if i > 0 {
        assert es'[i] == es[i - 1];
      }
    }
  }

  /** Rewriting the first entry of a key under the same key is safe. */
  lemma FirstUsableUpdate(es: seq<Entry>, k: nat, e: Entry)
    requires FirstUsable(es) && k < |es| && SameKey(es[k], e)
    requires forall i :: 0 <= i < k ==> !SameKey(es[i], e)
    ensures FirstUsable(es[k := e])
  {
    var es' := es[k := e];
    forall i, j | 0 <= i < j < |es'| && SameKey(es'[i], es'[j])
      ensures !es'[j].LengthOk()
    {
      assert j != k;
      assert SameKey(es[i], es[j]);
    }
  }

  // ---------- the array representation of the chains ----------

  /** Chain `c` of bucket `h`: acyclic, linked both ways, and made of slots that belong to `h`. */
  ghost predicate ChainLinked(c: seq<byte>, h: byte, head: byte, bitMap: seq<byte>, space: seq<Dentry>)
    requires |bitMap| == |space| == DEPTH
  {
    && head == (if c == [] then NONE else c[0])
    && (forall i :: 0 <= i < |c| ==> c[i] < DEPTH)
    && NoDuplicates(c)
    && (forall i :: 0 <= i < |c| ==> NodeOk(c, i, h, bitMap, space))
  }

  /** Position `i` of chain `c`: the back link of the first node means nothing. */
  ghost predicate NodeOk(c: seq<byte>, i: nat, h: byte, bitMap: seq<byte>, space: seq<Dentry>)
    requires |bitMap| == |space| == DEPTH && i < |c| && c[i] < DEPTH
  {
    var node := space[c[i]];
    && bitMap[c[i]] == h && node.hptr == h && HashFunction(node.entry.rom, node.entry.page) == h
    && node.fptr == (if i + 1 < |c| then c[i + 1] else NONE)
    && (i > 0 ==> node.bptr == c[i - 1])
  }

  predicate SameLinks(d: Dentry, d': Dentry) {
    && d.fptr == d'.fptr && d.bptr == d'.bptr && d.hptr == d'.hptr
    && d.entry.rom == d'.entry.rom && d.entry.page == d'.entry.page
  }

  /** The two arrays agree on the links and keys of every slot of bucket `h`. */
  ghost predicate SameBucket(h: byte, bitMap: seq<byte>, space: seq<Dentry>, bitMap': seq<byte>, space': seq<Dentry>)
    requires |bitMap| == |space| == |bitMap'| == |space'| == DEPTH
  {
    forall p: byte {:trigger space'[p]} :: p < DEPTH && bitMap[p] == h ==>
      bitMap'[p] == h && SameLinks(space[p], space'[p])
  }

  /** A chain only depends on the slots of its own bucket. */
  lemma ChainFrame(c: seq<byte>, h: byte, head: byte, bitMap: seq<byte>, space: seq<Dentry>,
                   bitMap': seq<byte>, space': seq<Dentry>)
    requires |bitMap| == |space| == |bitMap'| == |space'| == DEPTH
    requires ChainLinked(c, h, head, bitMap, space)
    requires SameBucket(h, bitMap, space, bitMap', space')
    ensures ChainLinked(c, h, head, bitMap', space')
  {
    forall i | 0 <= i < |c|
      ensures NodeOk(c, i, h, bitMap', space')
    {
      assert NodeOk(c, i, h, bitMap, space);
      assert SameLinks(space[c[i]], space'[c[i]]);
    }
  }

  ghost function Bridge(prev: byte, next: byte, h: byte, space: seq<Dentry>): (space': seq<Dentry>)
    requires |space| == DEPTH
    ensures |space'| == DEPTH && Bridged(prev, next, h, space, space')
  {
    seq(DEPTH, p requires 0 <= p < DEPTH =>
      Dentry(if p == prev then next else space[p].fptr,
             if p == next then (if prev == NONE then h else prev) else space[p].bptr,
             space[p].hptr, space[p].entry))
  }

  /** `space'` is `space` with the slots `prev` and `next` (NONE if absent) linked to each other. */
  ghost predicate Bridged(prev: byte, next: byte, h: byte, space: seq<Dentry>, space': seq<Dentry>)
    requires |space| == |space'| == DEPTH
  {
    forall p {:trigger space'[p]} :: 0 <= p < DEPTH ==>
      space'[p] == Dentry(if p == prev then next else space[p].fptr,
                          if p == next then (if prev == NONE then h else prev) else space[p].bptr,
                          space[p].hptr, space[p].entry)
  }

  ghost function SlotAt(c: seq<byte>, i: int): byte { if 0 <= i < |c| then c[i] else NONE }

  /** Node `j` of chain `c` after the links around node `k` have been closed. */
  lemma NodeUnlink(c: seq<byte>, k: nat, j: nat, h: byte, bitMap: seq<byte>, space: seq<Dentry>, space': seq<Dentry>)
    requires |bitMap| == |space| == |space'| == DEPTH && h < DEPTH && k < |c| && j < |c| && j != k
    requires forall i :: 0 <= i < |c| ==> c[i] < DEPTH
    requires NodeOk(c, j, h, bitMap, space)
    requires Bridged(SlotAt(c, k - 1), SlotAt(c, k + 1), h, space, space')
    requires c[j] != c[k]
    requires k > 0 && j != k - 1 ==> c[j] != c[k - 1]
    requires k + 1 < |c| && j != k + 1 ==> c[j] != c[k + 1]
    ensures NodeOk(c[..k] + c[k + 1..], if j < k then j else j - 1, h, bitMap[c[k] := NONE], space')
  {
    assert space'[c[j]].entry == space[c[j]].entry;
  }

  /** Every node but the freed one is in order after the links around it have been closed. */
  lemma NodesUnlink(c: seq<byte>, k: nat, h: byte, head: byte, bitMap: seq<byte>, space: seq<Dentry>,
                    space': seq<Dentry>, i: nat)
    requires |bitMap| == |space| == |space'| == DEPTH && h < DEPTH && k < |c|
    requires ChainLinked(c, h, head, bitMap, space)
    requires Bridged(SlotAt(c, k - 1), SlotAt(c, k + 1), h, space, space')
    requires i < |c| - 1
    ensures (c[..k] + c[k + 1..])[i] < DEPTH && NodeOk(c[..k] + c[k + 1..], i, h, bitMap[c[k] := NONE], space')
  {
    hide NodeOk, Bridged;
    var j := if i < k then i else i + 1;
    assert NodeOk(c, j, h, bitMap, space);
    NodeUnlink(c, k, j, h, bitMap, space, space');
  }

  /** Closing the links around slot `c[k]` leaves the chain without it. */
  lemma ChainUnlink(c: seq<byte>, k: nat, h: byte, head: byte, bitMap: seq<byte>, space: seq<Dentry>,
                    space': seq<Dentry>)
    requires |bitMap| == |space| == |space'| == DEPTH && h < DEPTH && k < |c|
    requires ChainLinked(c, h, head, bitMap, space)
    requires Bridged(SlotAt(c, k - 1), SlotAt(c, k + 1), h, space, space')
    ensures ChainLinked(Remove(c, c[k]), h, if k > 0 then head else SlotAt(c, 1), bitMap[c[k] := NONE], space')
  {
    RemoveAt(c, k);
    hide NodeOk, Bridged, NoDuplicates;
    var c', bitMap' := c[..k] + c[k + 1..], bitMap[c[k] := NONE];
    forall i | 0 <= i < |c'|
      ensures c'[i] < DEPTH && NodeOk(c', i, h, bitMap', space')
    {
      NodesUnlink(c, k, h, head, bitMap, space, space', i);
    }
  }

  ghost function EntriesOf(c: seq<byte>, space: seq<Dentry>): (es: seq<Entry>)
    requires |space| == DEPTH && forall i :: 0 <= i < |c| ==> c[i] < DEPTH
    ensures |es| == |c| && forall i {:trigger es[i]} :: 0 <= i < |c| ==> es[i] == space[c[i]].entry
  {
    seq(|c|, i requires 0 <= i < |c| => space[c[i]].entry)
  }

  /** On every chain only the first entry of a key is usable. */
  ghost predicate Usable(chains: seq<seq<byte>>, space: seq<Dentry>)
    requires |chains| == |space| == DEPTH
  {
    forall h: byte :: h < DEPTH ==> ChainUsable(chains[h], space)
  }

  ghost predicate ChainUsable(c: seq<byte>, space: seq<Dentry>)
    requires |space| == DEPTH
  {
    && (forall i :: 0 <= i < |c| ==> c[i] < DEPTH)
    && FirstUsable(EntriesOf(c, space))
  }

  /** A slot is marked in the bit map exactly when it is on the chain its mark names. */
  ghost predicate Marked(p: byte, chains: seq<seq<byte>>, bitMap: seq<byte>)
    requires |chains| == |bitMap| == DEPTH && p < DEPTH
  {
    bitMap[p] == NONE || (bitMap[p] < DEPTH && p in chains[bitMap[p]])
  }

  ghost predicate Linked(h: byte, chains: seq<seq<byte>>, hash: seq<byte>, bitMap: seq<byte>, space: seq<Dentry>)
    requires |chains| == |hash| == |bitMap| == |space| == DEPTH && h < DEPTH
  {
    ChainLinked(chains[h], h, hash[h], bitMap, space)
  }

  /** The three arrays represent these chains. */
  ghost predicate Represents(chains: seq<seq<byte>>, hash: seq<byte>, bitMap: seq<byte>, space: seq<Dentry>) {
    && |chains| == |hash| == |bitMap| == |space| == DEPTH
    && (forall h: byte :: h < DEPTH ==> Linked(h, chains, hash, bitMap, space))
    && (forall p: byte :: p < DEPTH ==> Marked(p, chains, bitMap))
  }

  /** The other chains do not notice that slot `chains[h][k]` is taken off chain `h`. */
  lemma FreeOthers(chains: seq<seq<byte>>, h: byte, k: nat, g: byte,
                   hash: seq<byte>, bitMap: seq<byte>, space: seq<Dentry>, space': seq<Dentry>)
    requires Represents(chains, hash, bitMap, space)
    requires h < DEPTH && g < DEPTH && g != h && k < |chains[h]| && chains[h][k] < DEPTH && |space'| == DEPTH
    requires Bridged(SlotAt(chains[h], k - 1), SlotAt(chains[h], k + 1), h, space, space')
    ensures ChainLinked(chains[g], g, hash[g], bitMap[chains[h][k] := NONE], space')
  {
    var c := chains[h];
    assert Linked(h, chains, hash, bitMap, space) && Linked(g, chains, hash, bitMap, space);
    assert NodeOk(c, k, h, bitMap, space);
    assert k > 0 ==> NodeOk(c, k - 1, h, bitMap, space);
    assert k + 1 < |c| ==> NodeOk(c, k + 1, h, bitMap, space);
    ChainFrame(chains[g], g, hash[g], bitMap, space, bitMap[c[k] := NONE], space');
  }

  /** Taking slot `chains[h][k]` off chain `h` and clearing its mark keeps every mark right. */
  lemma FreeMarks(chains: seq<seq<byte>>, h: byte, k: nat, bitMap: seq<byte>, p: byte)
    requires |chains| == |bitMap| == DEPTH && h < DEPTH && p < DEPTH && k < |chains[h]| && chains[h][k] < DEPTH
    requires NoDuplicates(chains[h]) && Marked(p, chains, bitMap)
    ensures Marked(p, chains[h := Remove(chains[h], chains[h][k])], bitMap[chains[h][k] := NONE])
  {
    var c := chains[h];
    RemoveAt(c, k);
    if p != c[k] && bitMap[p] == h {
      var i :| 0 <= i < |c| && c[i] == p;
      var c' := c[..k] + c[k + 1..];
      assert c'[if i < k then i else i - 1] == p;
    }
  }

  /** Freeing slot `chains[h][k]` keeps the representation. */
  lemma FreeRepresents(chains: seq<seq<byte>>, h: byte, k: nat, hash: seq<byte>, hash': seq<byte>,
                       bitMap: seq<byte>, space: seq<Dentry>, space': seq<Dentry>)
    requires Represents(chains, hash, bitMap, space)
    requires h < DEPTH && k < |chains[h]| && chains[h][k] < DEPTH && |space'| == DEPTH
    requires Bridged(SlotAt(chains[h], k - 1), SlotAt(chains[h], k + 1), h, space, space')
    requires hash' == hash[h := if k > 0 then hash[h] else SlotAt(chains[h], 1)]
    ensures Represents(chains[h := Remove(chains[h], chains[h][k])], hash', bitMap[chains[h][k] := NONE], space')
  {
    hide Bridged, NodeOk, ChainLinked, Marked;
    var c := chains[h];
    var chains', bitMap' := chains[h := Remove(c, c[k])], bitMap[c[k] := NONE];
    forall g: byte | g < DEPTH
      ensures Linked(g, chains', hash', bitMap', space')
    {
      assert Linked(g, chains, hash, bitMap, space);
      if g == h {
        ChainUnlink(c, k, h, hash[h], bitMap, space, space');
      } else {
        FreeOthers(chains, h, k, g, hash, bitMap, space, space');
      }
    }
    assert NoDuplicates(c) by {
      assert Linked(h, chains, hash, bitMap, space);
      LinkedNoDuplicates(c, h, hash[h], bitMap, space);
    }
    forall p: byte | p < DEPTH
      ensures Marked(p, chains', bitMap')
    {
      FreeMarks(chains, h, k, bitMap, p);
    }
  }

  lemma LinkedNoDuplicates(c: seq<byte>, h: byte, head: byte, bitMap: seq<byte>, space: seq<Dentry>)
    requires |bitMap| == |space| == DEPTH && ChainLinked(c, h, head, bitMap, space)
    ensures NoDuplicates(c)
  {}

  /** Where a marked slot is, and what its links say. */
  lemma Locate(chains: seq<seq<byte>>, hash: seq<byte>, bitMap: seq<byte>, space: seq<Dentry>, p: byte) returns (k: nat)
    requires Represents(chains, hash, bitMap, space) && p < DEPTH && bitMap[p] != NONE
    ensures bitMap[p] < DEPTH
    ensures var h := bitMap[p];
            var c := chains[h];
            && k < |c| && c[k] == p && NoDuplicates(c)
            && space[p].hptr == h && (hash[h] == p <==> k == 0)
            && space[p].fptr == SlotAt(c, k + 1)
            && (k > 0 ==> space[p].bptr == SlotAt(c, k - 1) && c[k - 1] < DEPTH && c[k - 1] != p)
            && (k + 1 < |c| ==> c[k + 1] < DEPTH && c[k + 1] != p)
            && (0 < k < |c| - 1 ==> c[k - 1] != c[k + 1])
  {
    assert Marked(p, chains, bitMap);
    var h := bitMap[p];
    var c := chains[h];
    k :| 0 <= k < |c| && c[k] == p;
    assert Linked(h, chains, hash, bitMap, space) && NodeOk(c, k, h, bitMap, space);
  }

  /** The chains after slot `p` has been taken off the one it is on, if any. */
  ghost function Without(chains: seq<seq<byte>>, bitMap: seq<byte>, p: byte): seq<seq<byte>>
    requires |chains| == |bitMap| == DEPTH && p < DEPTH
  {
    if bitMap[p] < DEPTH then chains[bitMap[p] := Remove(chains[bitMap[p]], p)] else chains
  }

  ghost function AddedTo(chains: seq<seq<byte>>, h: byte, p: byte): seq<seq<byte>>
    requires |chains| == DEPTH && h < DEPTH
  {
    chains[h := [p] + chains[h]]
  }

  /** Equal slots with equal entries have equal entries. */
  lemma EntriesSame(c: seq<byte>, space: seq<Dentry>, space': seq<Dentry>)
    requires |space| == DEPTH && SameEntries(space, space') && forall i :: 0 <= i < |c| ==> c[i] < DEPTH
    ensures EntriesOf(c, space') == EntriesOf(c, space)
  {}

  lemma EntriesRemove(c: seq<byte>, k: nat, space: seq<Dentry>)
    requires |space| == DEPTH && k < |c| && forall i :: 0 <= i < |c| ==> c[i] < DEPTH
    ensures EntriesOf(c[..k] + c[k + 1..], space) == EntriesOf(c, space)[..k] + EntriesOf(c, space)[k + 1..]
  {}

  /** One chain after a slot has been taken off it. */
  lemma ChainUsableRemove(c: seq<byte>, k: nat, space: seq<Dentry>, space': seq<Dentry>)
    requires |space| == |space'| == DEPTH && k < |c| && ChainUsable(c, space) && SameEntries(space, space')
    ensures ChainUsable(c[..k] + c[k + 1..], space')
  {
    hide FirstUsable;
    var c' := c[..k] + c[k + 1..];
    EntriesRemove(c, k, space);
    FirstUsableRemove(EntriesOf(c, space), k);
    EntriesSame(c', space, space');
  }

  lemma ChainUsableSame(c: seq<byte>, space: seq<Dentry>, space': seq<Dentry>)
    requires |space| == |space'| == DEPTH && ChainUsable(c, space) && SameEntries(space, space')
    ensures ChainUsable(c, space')
  {
    hide FirstUsable;
    EntriesSame(c, space, space');
  }

  lemma RemoveUsable(chains: seq<seq<byte>>, h: byte, k: nat, space: seq<Dentry>, space': seq<Dentry>)
    requires |chains| == |space| == |space'| == DEPTH && h < DEPTH && k < |chains[h]|
    requires Usable(chains, space) && NoDuplicates(chains[h])
    requires SameEntries(space, space')
    ensures Usable(chains[h := Remove(chains[h], chains[h][k])], space')
  {
    var c := chains[h];
    RemoveAt(c, k);
    var chains' := chains[h := c[..k] + c[k + 1..]];
    hide ChainUsable, SameEntries, NoDuplicates;
    forall g: byte | g < DEPTH
      ensures ChainUsable(chains'[g], space')
    {
      assert ChainUsable(chains[g], space);
      if g == h {
        ChainUsableRemove(c, k, space, space');
      } else {
        ChainUsableSame(chains[g], space, space');
      }
    }
  }

  predicate SameEntries(space: seq<Dentry>, space': seq<Dentry>) {
    |space| == |space'| && forall p {:trigger space'[p]} :: 0 <= p < |space| ==> space'[p].entry == space[p].entry
  }

  /** The slots and marks after slot `p` has been put in front of chain `h`. */
  ghost predicate Prepended(p: byte, h: byte, head: byte, space: seq<Dentry>, space': seq<Dentry>)
    requires |space| == |space'| == DEPTH && p < DEPTH
  {
    && space'[p].fptr == head && space'[p].hptr == h
    && HashFunction(space'[p].entry.rom, space'[p].entry.page) == h
    && forall q: byte {:trigger space'[q]} :: q < DEPTH && q != p ==>
         space'[q] == (if q == head then space[q].(bptr := p) else space[q])
  }

  /** Inserting a free slot in front of a chain keeps the representation. */
  lemma InsertRepresents(chains: seq<seq<byte>>, h: byte, p: byte,
                         hash: seq<byte>, bitMap: seq<byte>, space: seq<Dentry>, space': seq<Dentry>)
    requires Represents(chains, hash, bitMap, space)
    requires h < DEPTH && p < DEPTH && bitMap[p] == NONE && |space'| == DEPTH
    requires Prepended(p, h, hash[h], space, space')
    ensures Represents(chains[h := [p] + chains[h]], hash[h := p], bitMap[p := h], space')
  {
    var c, c' := chains[h], [p] + chains[h];
    var chains', hash', bitMap' := chains[h := c'], hash[h := p], bitMap[p := h];
    assert Linked(h, chains, hash, bitMap, space);
    forall i | 0 <= i < |c'|
      ensures NodeOk(c', i, h, bitMap', space')
    {
      if i > 0 {
        assert NodeOk(c, i - 1, h, bitMap, space);
        assert c'[i] == c[i - 1];
      }
    }
    forall i, j | 0 <= i < j < |c'|
      ensures c'[i] != c'[j]
    {
      assert NodeOk(c, j - 1, h, bitMap, space);
    }
    forall g: byte | g < DEPTH
      ensures Linked(g, chains', hash', bitMap', space')
    {
      assert Linked(g, chains, hash, bitMap, space);
      if g != h {
        if hash[h] != NONE {
          assert NodeOk(c, 0, h, bitMap, space);
        }
        ChainFrame(chains[g], g, hash[g], bitMap, space, bitMap', space');
      }
    }
    forall q: byte | q < DEPTH
      ensures Marked(q, chains', bitMap')
    {
      assert Marked(q, chains, bitMap);
      if q == p { assert c'[0] == p; }
      else if bitMap[q] == h {
        var i :| 0 <= i < |c| && c[i] == q;
        assert c'[i + 1] == q;
      }
    }
  }

  lemma UsableSame(chains: seq<seq<byte>>, space: seq<Dentry>, space': seq<Dentry>)
    requires |chains| == |space| == |space'| == DEPTH && Usable(chains, space) && SameEntries(space, space')
    ensures Usable(chains, space')
  {
    hide ChainUsable, SameEntries;
    forall g: byte | g < DEPTH
      ensures ChainUsable(chains[g], space')
    {
      assert ChainUsable(chains[g], space);
      ChainUsableSame(chains[g], space, space');
    }
  }

  /** Putting a slot no chain holds in front of chain `h`, under a key that has no usable entry there. */
  lemma InsertUsable(chains: seq<seq<byte>>, h: byte, p: byte, space: seq<Dentry>, space': seq<Dentry>)
    requires |chains| == |space| == |space'| == DEPTH && h < DEPTH && p < DEPTH
    requires Usable(chains, space) && ChainUsable(chains[h], space)
    requires forall g: byte :: g < DEPTH ==> p !in chains[g]
    requires var e := space'[p].entry; NoneUsable(EntriesOf(chains[h], space), e.rom, e.page, e.Flag())
    requires forall q: byte {:trigger space'[q]} :: q < DEPTH && q != p ==> space'[q].entry == space[q].entry
    ensures Usable(chains[h := [p] + chains[h]], space')
  {
    var chains' := chains[h := [p] + chains[h]];
    forall g: byte | g < DEPTH
      ensures ChainUsable(chains'[g], space')
    {
      assert ChainUsable(chains[g], space);
      assert EntriesOf(chains[g], space') == EntriesOf(chains[g], space);
      if g == h {
        FirstUsableInsert(EntriesOf(chains[h], space'), space'[p].entry);
        assert EntriesOf(chains'[g], space') == [space'[p].entry] + EntriesOf(chains[h], space');
      }
    }
  }

  /** Rewriting the first entry of a key in place. */
  lemma UpdateUsable(chains: seq<seq<byte>>, h: byte, k: nat, space: seq<Dentry>, space': seq<Dentry>)
    requires |chains| == |space| == |space'| == DEPTH && h < DEPTH && k < |chains[h]|
    requires Usable(chains, space) && ChainUsable(chains[h], space) && NoDuplicates(chains[h])
    requires forall g: byte :: g < DEPTH && g != h ==> chains[h][k] !in chains[g]
    requires var es, e := EntriesOf(chains[h], space), space'[chains[h][k]].entry;
             SameKey(es[k], e) && forall i :: 0 <= i < k ==> !SameKey(es[i], e)
    requires forall q: byte {:trigger space'[q]} :: q < DEPTH && q != chains[h][k] ==> space'[q].entry == space[q].entry
    ensures Usable(chains, space')
  {
    forall g: byte | g < DEPTH
      ensures ChainUsable(chains[g], space')
    {
      assert ChainUsable(chains[g], space);
      if g == h {
        FirstUsableUpdate(EntriesOf(chains[h], space), k, space'[chains[h][k]].entry);
        assert EntriesOf(chains[h], space') == EntriesOf(chains[h], space)[k := space'[chains[h][k]].entry];
      } else {
        assert EntriesOf(chains[g], space') == EntriesOf(chains[g], space);
      }
    }
  }

  /** Taking a slot off its chain cannot make a key usable. */
  lemma NoneWithout(chains: seq<seq<byte>>, bitMap: seq<byte>, space: seq<Dentry>, space': seq<Dentry>, h: byte,
                    p: byte,
                    rom: Rom, page: byte, flag: byte)
    requires |chains| == |bitMap| == |space| == |space'| == DEPTH && h < DEPTH && p < DEPTH
    requires ChainUsable(chains[h], space) && ChainUsable(Without(chains, bitMap, p)[h], space')
    requires SameEntries(space, space')
    requires NoneUsable(EntriesOf(chains[h], space), rom, page, flag)
    ensures NoneUsable(EntriesOf(Without(chains, bitMap, p)[h], space'), rom, page, flag)
  {
    var c, c' := chains[h], Without(chains, bitMap, p)[h];
    var es, es' := EntriesOf(c, space), EntriesOf(c', space');
    RemoveSubset(c, p);
    forall i | 0 <= i < |es'| && es'[i].Matches(rom, page, flag)
      ensures !es'[i].LengthOk()
    {
      assert c'[i] in c;
      var j :| 0 <= j < |c| && c[j] == c'[i];
      assert es[j] == space[c[j]].entry && es'[i] == space'[c'[i]].entry;
    }
  }

  /** A slot is on no chain but the one its mark names. */
  lemma OnOneChain(chains: seq<seq<byte>>, hash: seq<byte>, bitMap: seq<byte>, space: seq<Dentry>, p: byte)
    requires Represents(chains, hash, bitMap, space) && p < DEPTH
    ensures forall g: byte :: g < DEPTH && p in chains[g] ==> bitMap[p] == g
  {
    forall g: byte | g < DEPTH && p in chains[g]
      ensures bitMap[p] == g
    {
      assert Linked(g, chains, hash, bitMap, space);
      var i :| 0 <= i < |chains[g]| && chains[g][i] == p;
      assert NodeOk(chains[g], i, g, bitMap, space);
    }
  }

  /** How much of the buffer AddPage copies. */
  function CopyLength(len: byte): nat { if len % 32 <= 0x1D then len % 32 else 0 }

  /** Data[] after AddPage: the length, the copied bytes, and what the slot held beyond them. */
  function Stored(data: PageData, len: byte, buf: seq<byte>): PageData
    requires CopyLength(len) <= |buf|
  {
    [len] + buf[..CopyLength(len)] + data[1 + CopyLength(len)..]
  }

  /** Rewriting time stamp and data keeps the representation. */
  lemma UpdateRepresents(chains: seq<seq<byte>>, hash: seq<byte>, bitMap: seq<byte>, space: seq<Dentry>,
                         space': seq<Dentry>)
    requires Represents(chains, hash, bitMap, space) && |space'| == DEPTH
    requires forall p: byte {:trigger space'[p]} :: p < DEPTH ==> SameLinks(space[p], space'[p])
    ensures Represents(chains, hash, bitMap, space')
  {
    forall g: byte | g < DEPTH
      ensures Linked(g, chains, hash, bitMap, space')
    {
      assert Linked(g, chains, hash, bitMap, space);
      ChainFrame(chains[g], g, hash[g], bitMap, space, bitMap, space');
    }
  }

  // ---------- choosing a slot ----------

  /** In use and not expired. */
  predicate Live(p: byte, bitMap: seq<byte>, space: seq<Dentry>, tm: nat)
    requires |bitMap| == |space| == DEPTH && p < DEPTH
  {
    bitMap[p] != NONE && tm <= space[p].entry.tstamp
  }

  /**
   * The slot a new page gets: the expected spot if it is free or expired, else the first free or
   * expired slot, else the oldest one (the spot itself before any other slot as old).
   */
  ghost predicate Chosen(t: byte, spot: byte, bitMap: seq<byte>, space: seq<Dentry>, tm: nat)
    requires |bitMap| == |space| == DEPTH && spot < DEPTH && t < DEPTH
  {
    if !Live(spot, bitMap, space, tm) then t == spot
    else if exists p: byte :: p < DEPTH && !Live(p, bitMap, space, tm) then
      !Live(t, bitMap, space, tm) && forall p: byte :: p < t ==> Live(p, bitMap, space, tm)
    else
      && (forall p: byte :: p < DEPTH ==> space[t].entry.tstamp <= space[p].entry.tstamp)
      && (t != spot ==> space[t].entry.tstamp < space[spot].entry.tstamp
                        && forall p: byte :: p < t ==> space[t].entry.tstamp < space[p].entry.tstamp)
  }

  class PageCache {
    /** false: AddPage gives up on a miss, as written; true: it inserts, as documented. */
    const insertOnMiss: bool
    const space: array<Dentry>
    const hash: array<byte>
    const bitMap: array<byte>
    var spot: byte
    /** The slots on each hash chain, first to last. */
    ghost var chains: seq<seq<byte>>

    ghost predicate Shape()
      reads this
    {
      && space.Length == DEPTH && hash.Length == DEPTH && bitMap.Length == DEPTH
      && hash != bitMap
      && spot < DEPTH
      && |chains| == DEPTH
    }

    /** The entries on chain `h`, first to last. */
    ghost function Entries(h: byte): (es: seq<Entry>)
      requires Shape() && h < DEPTH && forall i :: 0 <= i < |chains[h]| ==> chains[h][i] < DEPTH
      reads this, space
      ensures |es| == |chains[h]|
    {
      EntriesOf(chains[h], space[..])
    }

    ghost predicate Valid()
      reads this, space, hash, bitMap
    {
      && Shape() && Represents(chains, hash[..], bitMap[..], space[..])
      && Usable(chains, space[..])
    }

    constructor (insertOnMiss: bool)
      ensures Valid() && fresh(space) && fresh(hash) && fresh(bitMap)
      ensures this.insertOnMiss == insertOnMiss
      ensures forall h :: 0 <= h < DEPTH ==> chains[h] == []
    {
      this.insertOnMiss := insertOnMiss;
      var zero := Dentry(0, 0, 0, Entry([0, 0, 0, 0, 0, 0, 0, 0], 0, 0, seq(32, _ => 0)));
      space := new Dentry[DEPTH](_ => zero);
      hash := new byte[DEPTH](_ => 0);
      bitMap := new byte[DEPTH](_ => 0);
      spot := 0;
      chains := seq(DEPTH, _ => []);
      new;
      InitDHash();
    }

    method InitDHash()
      requires Shape()
      modifies this`chains, space, hash, bitMap
      ensures Valid()
      ensures forall h :: 0 <= h < DEPTH ==> chains[h] == []
    {
      var i := 0;
      while i < DEPTH
        invariant 0 <= i <= DEPTH
        invariant forall k :: 0 <= k < i ==> hash[k] == NONE && bitMap[k] == NONE
      {
        hash[i] := NONE;
        bitMap[i] := NONE;
        space[i] := space[i].(fptr := NONE, bptr := NONE, hptr := NONE);
        i := i + 1;
      }
      chains := seq(DEPTH, _ => []);
    }

    /** FreePage's four cases: the links around a slot are closed, and its mark is cleared. */
    method Unlink(slot: byte, hs: byte, ghost prev: byte, ghost next: byte)
      requires Shape() && slot < DEPTH && hs < DEPTH && space[slot].fptr == next
      requires hash[hs] == slot <==> prev == NONE
      requires prev != NONE ==> prev < DEPTH && prev != slot && space[slot].bptr == prev
      requires next != NONE ==> next < DEPTH && next != slot && next != prev
      modifies space, hash, bitMap
      ensures space[..] == Bridge(prev, next, hs, old(space[..])) && bitMap[..] == old(bitMap[..])[slot := NONE]
      ensures hash[..] == if prev == NONE then old(hash[..])[hs := next] else old(hash[..])
    {
      hide Bridge;
      var ptr := slot;
      if space[ptr].fptr != NONE {
        if hash[hs] == ptr {
          hash[hs] := space[ptr].fptr;
          space[hash[hs]] := space[hash[hs]].(bptr := hs);
          bitMap[ptr] := NONE;
          ptr := hash[hs];
        } else {
          space[space[ptr].bptr] := space[space[ptr].bptr].(fptr := space[ptr].fptr);
          space[space[ptr].fptr] := space[space[ptr].fptr].(bptr := space[ptr].bptr);
          bitMap[ptr] := NONE;
          ptr := space[space[ptr].bptr].fptr;
        }
      } else if hash[hs] == ptr {
        hash[hs] := NONE;
        bitMap[ptr] := NONE;
        ptr := NONE;
      } else {
        space[space[ptr].bptr] := space[space[ptr].bptr].(fptr := NONE);
        bitMap[ptr] := NONE;
        ptr := NONE;
      }
    }

    /** Unlinks a slot. The next slot is computed but 0xFF is returned, as in the source. */
    method FreePage(slot: byte) returns (next: byte)
      requires Valid() && slot < DEPTH && bitMap[slot] != NONE
      modifies this`chains, space, hash, bitMap
      ensures Valid()
      ensures chains == old(Without(chains, bitMap[..], slot))
      ensures bitMap[slot] == NONE
      ensures SameEntries(old(space[..]), space[..])
      ensures forall p :: 0 <= p < DEPTH && p != slot ==> bitMap[p] == old(bitMap[p])
      ensures next == NONE
    {
      var hs := space[slot].hptr;
      ghost var space0, hash0, map0 := space[..], hash[..], bitMap[..];
      ghost var k: int := Locate(chains, hash0, map0, space0, slot);
      ghost var c := chains[hs];
      ghost var before, behind := SlotAt(c, k - 1), SlotAt(c, k + 1);
      ghost var hash1 := hash0[hs := if k > 0 then hash0[hs] else SlotAt(c, 1)];
      ghost var space1 := Bridge(before, behind, hs, space0);
      FreeRepresents(chains, hs, k, hash0, hash1, map0, space0, space1);
      RemoveUsable(chains, hs, k, space0, space1);
      hide Represents, Usable, NoDuplicates, Bridge;
      Unlink(slot, hs, before, behind);
      assert hash[..] == hash1;
      chains := chains[hs := Remove(c, slot)];
      return NONE;
    }

    /** FindNew's search of the whole table, when the expected spot holds a live page. */
    method Scan(tm: nat) returns (t: byte)
      requires Valid() && Live(spot, bitMap[..], space[..], tm)
      modifies this`chains, space, hash, bitMap
      ensures Valid() && t < DEPTH && bitMap[t] == NONE
      ensures Chosen(t, spot, old(bitMap[..]), old(space[..]), tm)
      ensures chains == Without(old(chains), old(bitMap[..]), t)
      ensures SameEntries(old(space[..]), space[..])
    {
      ghost var map0, space0 := bitMap[..], space[..];
      var oldest: byte := spot;
      var otm: nat := space[spot].entry.tstamp;
      var i: byte := 0;
      while i < DEPTH
        invariant i <= DEPTH && oldest < DEPTH
        invariant unchanged(this, space, hash, bitMap)
        invariant forall j: byte :: j < i ==> Live(j, map0, space0, tm)
        invariant Live(oldest, map0, space0, tm)
        invariant otm == space0[oldest].entry.tstamp && otm <= space0[spot].entry.tstamp
        invariant forall j: byte :: j < i ==> otm <= space0[j].entry.tstamp
        invariant oldest != spot ==> otm < space0[spot].entry.tstamp
        invariant oldest != spot ==> forall j: byte :: j < oldest ==> otm < space0[j].entry.tstamp
      {
        if bitMap[i] == NONE {
          return i;
        } else if tm > space[i].entry.tstamp {
          assert Marked(i, chains, map0);
          var _ := FreePage(i);
          return i;
        } else if space[i].entry.tstamp < otm {
          otm, oldest := space[i].entry.tstamp, i;
        }
        i := i + 1;
      }
      assert Marked(oldest, chains, map0);
      var _ := FreePage(oldest);
      return oldest;
    }

    /** Finds a slot for a page of chain `hashnum`, evicting one if it has to; the slot is marked but not linked. */
    method FindNew(hashnum: byte, tm: nat) returns (t: byte)
      requires Valid() && hashnum < DEPTH
      modifies this`chains, this`spot, space, hash, bitMap
      ensures Shape() && t < DEPTH && bitMap[t] == hashnum
      ensures Chosen(t, old(spot), old(bitMap[..]), old(space[..]), tm)
      ensures old(Live(t, bitMap[..], space[..], tm)) ==>
                forall p: byte :: p < DEPTH ==>
                  old(Live(p, bitMap[..], space[..], tm)) && old(space[t].entry.tstamp) <= old(space[p].entry.tstamp)
      ensures spot == (if old(spot) == DEPTH - 1 then 0 else old(spot) + 1)
      ensures chains == Without(old(chains), old(bitMap[..]), t)
      ensures Represents(chains, hash[..], bitMap[..][t := NONE], space[..]) && Usable(chains, space[..])
      ensures SameEntries(old(space[..]), space[..])
    {
      assert Marked(spot, chains, bitMap[..]);
      if bitMap[spot] == NONE {
        t := spot;
      } else if tm > space[spot].entry.tstamp {
        var _ := FreePage(spot);
        t := spot;
      } else {
        t := Scan(tm);
      }
      spot := if spot == DEPTH - 1 then 0 else spot + 1;
      ghost var free := bitMap[..];
      bitMap[t] := hashnum;
      assert bitMap[..][t := NONE] == free;
    }

    /** FindPage's loop: the slot it stops at, or 0xFF. */
    method WalkChain(rom: Rom, page: byte, mflag: byte, time: bool, tm: nat) returns (ptr: byte)
      requires Valid()
      modifies this`chains, space, hash, bitMap
      ensures Valid() && SameEntries(old(space[..]), space[..])
      ensures var h := HashFunction(rom, page);
              var c, w := old(chains[h]), Walk(old(Entries(h)), 0, rom, page, mflag, time, tm);
              && ptr == (if w.Hit? then c[w.index] else NONE)
              && (w.Hit? ==> ptr < DEPTH)
              && chains == (if w.Expired? then old(chains)[h := Remove(c, c[w.index])] else old(chains))
              && (!w.Expired? ==>
                  bitMap[..] == old(bitMap[..]) && hash[..] == old(hash[..]) && space[..] == old(space[..]))
    {
      var hs := HashFunction(rom, page);
      ptr := NONE;
      ghost var c, es := chains[hs], Entries(hs);
      ghost var w := Walk(es, 0, rom, page, mflag, time, tm);
      assert Linked(hs, chains, hash[..], bitMap[..], space[..]);
      if hash[hs] != NONE {
        ptr := hash[hs];
        ghost var i := 0;
        while ptr != NONE
          invariant 0 <= i <= |c|
          invariant unchanged(this, hash, bitMap, space)
          invariant ptr == SlotAt(c, i)
          invariant w == Walk(es, i, rom, page, mflag, time, tm)
          decreases |c| - i
        {
          assert NodeOk(c, i, hs, bitMap[..], space[..]);
          if time && tm > space[ptr].entry.tstamp {
            ptr := FreePage(ptr);
            break;
          }
          if space[ptr].entry.page == page && mflag == MemoryFlag(space[ptr].entry.data[0])
            && space[ptr].entry.rom == rom {
            break;
          }
          ptr := space[ptr].fptr;
          i := i + 1;
        }
      }
    }

    /** Looks a page up on its chain; with `time` set, an expired entry met on the way is freed and ends the search. */
    method FindPage(rom: Rom, page: byte, mflag: byte, time: bool, tm: nat)
      returns (found: bool, len: byte, buf: seq<byte>, slot: byte)
      requires Valid()
      modifies this`chains, space, hash, bitMap
      ensures Valid()
      ensures SameEntries(old(space[..]), space[..])
      ensures var h := HashFunction(rom, page);
              var c, es := old(chains[h]), old(Entries(h));
              var w := Walk(es, 0, rom, page, mflag, time, tm);
              && (found <==> w.Hit? && es[w.index].LengthOk())
              && (found ==> slot == c[w.index] && len == es[w.index].data[0] && buf == es[w.index].Payload())
              && chains == (if w.Expired? then old(chains)[h := Remove(c, c[w.index])] else old(chains))
              && (!w.Expired? ==>
                  bitMap[..] == old(bitMap[..]) && hash[..] == old(hash[..]) && space[..] == old(space[..]))
    {
      hide Represents, Usable, HashFunction, Walk;
      var ptr := WalkChain(rom, page, mflag, time, tm);
      len, buf, slot, found := 0, [], NONE, false;
      if ptr != NONE {
        if space[ptr].entry.data[0] % 32 <= 0x1D {
          len := space[ptr].entry.data[0];
          buf := space[ptr].entry.data[1..1 + len % 32];
        } else {
          ptr := NONE;
        }
      }
      if ptr == NONE {
        return;
      }
      slot, found := ptr, true;
    }

    /** What AddPage leaves on a slot. */
    static function NewEntry(rom: Rom, pg: byte, stampTick: nat, data: PageData): Entry {
      Entry(rom, pg, (stampTick + CACHE_TIMEOUT) % CLOCK_RANGE, data)
    }

    /**
     * Rewrites the usable entry of a page if there is one. Otherwise it gives up (as written) or, with
     * `insertOnMiss`, puts the page on a new slot in front of its chain (as documented).
     */
    method AddPage(rom: Rom, pg: byte, buf: seq<byte>, len: byte, evictTick: nat, stampTick: nat) returns (slot: byte)
      requires Valid() && CopyLength(len) <= |buf|
      modifies this`chains, this`spot, space, hash, bitMap
      ensures Valid()
      ensures var h, flag := HashFunction(rom, pg), MemoryFlag(len);
              var es := old(Entries(h));
              var w := Walk(es, 0, rom, pg, flag, false, 0);
              if w.Hit? && es[w.index].LengthOk() then
                && slot == old(chains[h])[w.index] && slot < DEPTH
                && chains == old(chains)
                && space[slot].entry == NewEntry(rom, pg, stampTick, Stored(old(space[..])[slot].entry.data, len, buf))
                && forall p: byte {:trigger space[p]} :: p < DEPTH && p != slot ==>
                  space[p].entry == old(space[..])[p].entry
              else if !insertOnMiss then
                && slot == 0 && chains == old(chains) && SameEntries(old(space[..]), space[..])
              else
                && slot < DEPTH && Chosen(slot, old(spot), old(bitMap[..]), old(space[..]), evictTick)
                && chains == AddedTo(Without(old(chains), old(bitMap[..]), slot), h, slot)
                && space[slot].entry == NewEntry(rom, pg, stampTick, Stored(old(space[..])[slot].entry.data, len, buf))
                && forall p: byte {:trigger space[p]} :: p < DEPTH && p != slot ==>
                  space[p].entry == old(space[..])[p].entry
    {
      ghost var space0, map0, chains0 := space[..], bitMap[..], chains;
      ghost var h, flag := HashFunction(rom, pg), MemoryFlag(len);
      ghost var es := Entries(h);
      ghost var w := Walk(es, 0, rom, pg, flag, false, 0);
      assert ChainUsable(chains[h], space0) && Linked(h, chains, hash[..], bitMap[..], space[..]);
      WalkFirst(es, 0, rom, pg, flag, false, 0);
      var found, _, _, p := FindPage(rom, pg, MemoryFlag(len), false, 0);
      if !found && !insertOnMiss {
        return 0;
      }
      if !found {
        p := Attach(rom, pg, evictTick);
      }
      Fill(p, buf, len, stampTick);
      if w.Hit? && es[w.index].LengthOk() {
        OnOneChain(chains, hash[..], bitMap[..], space0, p);
        assert NodeOk(chains[h], w.index, h, bitMap[..], space0);
        UpdateUsable(chains, h, w.index, space0, space[..]);
      } else {
        MissMeansNone(es, rom, pg, flag);
        ghost var chains1 := Without(chains0, map0, p);
        assert ChainUsable(chains1[h], space0);
        NoneWithout(chains0, map0, space0, space0, h, p, rom, pg, flag);
        InsertUsable(chains1, h, p, space0, space[..]);
      }
      return p;
    }

    /** AddPage's last step: data and time stamp of a linked slot. */
    method Fill(p: byte, buf: seq<byte>, len: byte, stampTick: nat)
      requires Shape() && Represents(chains, hash[..], bitMap[..], space[..])
      requires p < DEPTH && CopyLength(len) <= |buf|
      modifies space
      ensures Represents(chains, hash[..], bitMap[..], space[..])
      ensures var e := old(space[..])[p].entry;
              space[p].entry == NewEntry(e.rom, e.page, stampTick, Stored(e.data, len, buf))
      ensures forall q: byte {:trigger space[q]} :: q < DEPTH && q != p ==> space[q].entry == old(space[..])[q].entry
    {
      var m := if len % 32 <= 0x1D then len % 32 else 0;
      var data := [len] + buf[..m] + space[p].entry.data[1 + m..];
      space[p] :=
        space[p].(entry := space[p].entry.(data := data, tstamp := (stampTick + CACHE_TIMEOUT) % CLOCK_RANGE));
      UpdateRepresents(chains, hash[..], bitMap[..], old(space[..]), space[..]);
    }

    /** Puts slot `p` in front of chain `hs`, with the key set; the chains as such are not touched yet. */
    method LinkFirst(p: byte, hs: byte, rom: Rom, page: byte)
      requires Shape() && p < DEPTH && hs < DEPTH && hs == HashFunction(rom, page)
      requires hash[hs] == NONE || (hash[hs] < DEPTH && hash[hs] != p)
      modifies space, hash
      ensures hash[..] == old(hash[..])[hs := p] && Prepended(p, hs, old(hash[hs]), old(space[..]), space[..])
      ensures space[p].entry == old(space[p]).entry.(rom := rom, page := page)
    {
      hide HashFunction;
      if hash[hs] == NONE {
        hash[hs] := p;
        space[p] := space[p].(fptr := NONE, bptr := NONE, hptr := hs);
      } else {
        space[p] := space[p].(fptr := hash[hs]);
        space[hash[hs]] := space[hash[hs]].(bptr := p);
        hash[hs] := p;
        space[p] := space[p].(hptr := hs);
      }
      space[p] := space[p].(entry := space[p].entry.(page := page, rom := rom));
    }

    /** AddPage's insertion: a new slot, linked in front of its chain, with the key set. */
    method Attach(rom: Rom, page: byte, evictTick: nat) returns (p: byte)
      requires Valid()
      modifies this`chains, this`spot, space, hash, bitMap
      ensures Shape() && p < DEPTH && Chosen(p, old(spot), old(bitMap[..]), old(space[..]), evictTick)
      ensures var h, chains1 := HashFunction(rom, page), Without(old(chains), old(bitMap[..]), p);
              && chains == AddedTo(chains1, h, p)
              && Usable(chains1, old(space[..]))
              && forall g: byte :: g < DEPTH ==> p !in chains1[g]
      ensures Represents(chains, hash[..], bitMap[..], space[..])
      ensures space[p].entry == old(space[..])[p].entry.(rom := rom, page := page)
      ensures forall q: byte {:trigger space[q]} :: q < DEPTH && q != p ==> space[q].entry == old(space[..])[q].entry
    {
      var hs := HashFunction(rom, page);
      assert hs < DEPTH;
      hide HashFunction, Chosen, Usable, Represents, Without;
      p := FindNew(hs, evictTick);
      ghost var chains1, hash1, map1, space1 := chains, hash[..], bitMap[..][p := NONE], space[..];
      HeadIsOther(chains1, hash1, map1, space1, hs, p);
      OnOneChain(chains1, hash1, map1, space1, p);
      UsableSame(chains1, space1, old(space[..]));
      LinkFirst(p, hs, rom, page);
      InsertRepresents(chains1, hs, p, hash1, map1, space1, space[..]);
      assert bitMap[..] == map1[p := hs];
      chains := chains[hs := [p] + chains[hs]];
    }
  }

  /** The head of a chain is a slot other than a free one. */
  lemma HeadIsOther(chains: seq<seq<byte>>, hash: seq<byte>, bitMap: seq<byte>, space: seq<Dentry>, h: byte, p: byte)
    requires Represents(chains, hash, bitMap, space) && h < DEPTH && p < DEPTH && bitMap[p] == NONE
    ensures hash[h] == NONE || (hash[h] < DEPTH && hash[h] != p)
  {
    assert Linked(h, chains, hash, bitMap, space);
    if chains[h] != [] {
      assert NodeOk(chains[h], 0, h, bitMap, space);
    }
  }
}

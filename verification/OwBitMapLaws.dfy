/** When a bitmap that WriteBitMap stored is the one ReadBitMap returns, layout by layout. */
module OwBitMapLaws {
  import opened BitMasks
  import opened Bytes
  import opened OwBitMapStore
  import opened OwPageIO
  import opened Results

  /** Page `k` is in use according to the bitmap buffer. */
  predicate PageBit(bm: Buffer, k: byte) { ByteBit(bm[k / 8] as bv8, k % 8) }

  ghost predicate SameBits(a: Buffer, b: Buffer, maxP: byte) {
    forall k: byte :: k <= maxP ==> (PageBit(a, k) <==> PageBit(b, k))
  }

  /** Where the stored bytes agree, only a page whose bit starts a byte of its own can differ. */
  lemma SameBitsIff(a: Buffer, b: Buffer, maxP: byte)
    requires a[..StoredBytes(maxP)] == b[..StoredBytes(maxP)]
    ensures SameBits(a, b, maxP) <==> (maxP % 8 == 0 ==> (PageBit(a, maxP) <==> PageBit(b, maxP)))
  {
    hide ByteBit;
    forall k: byte | k <= maxP && k / 8 < StoredBytes(maxP)
      ensures PageBit(a, k) <==> PageBit(b, k)
    {
      assert a[k / 8] == a[..StoredBytes(maxP)][k / 8] && b[k / 8] == b[..StoredBytes(maxP)][k / 8];
    }
  }

  /** The root page is a directory page with its whole header, and can be rewritten. */
  predicate RootOk(pages: Pages, rom: Rom) {
    var d := UncachedRead(pages, rom, 0);
    d.Ok? && 8 <= |d.value| <= 29 && d.value[0] == 0xAA && d.value[1] == 0
  }

  function Root(pages: Pages, rom: Rom): (d: seq<byte>)
    requires RootOk(pages, rom)
    ensures 8 <= |d| <= 29
  {
    UncachedRead(pages, rom, 0).value
  }

  /** The layout, for which the header of the root page is enough. */
  function Named(pages: Pages, rom: Rom, maxP: byte): Layout
    requires RootOk(pages, rom)
  {
    var d := Root(pages, rom);
    if d[2] >= 128 then Local else if maxP > 224 then TwoPages(d[5]) else OnePage(d[5])
  }

  lemma NamedIs(pages: Pages, rom: Rom, maxP: byte, junk: Buffer)
    requires RootOk(pages, rom)
    ensures LayoutOf(Loaded(junk, Root(pages, rom)), maxP) == Named(pages, rom, maxP)
    ensures IsDirectory(Loaded(junk, Root(pages, rom)))
    ensures Loaded(junk, Root(pages, rom))[..|Root(pages, rom)|] == Root(pages, rom)
  {}

  /** The pages the layout names exist, and are neither the root page nor each other. */
  predicate Separate(pages: Pages, rom: Rom, maxP: byte)
    requires RootOk(pages, rom)
  {
    match Named(pages, rom, maxP)
    case Local => maxP <= 32
    case OnePage(pg) => pg != 0 && (rom, pg) in pages
    case TwoPages(pg) =>
      && pg != 0
      && var d := UncachedRead(pages, rom, pg);
         d.Ok? && |d.value| == 29 && d.value[28] != 0 && d.value[28] != pg && (rom, d.value[28]) in pages
  }

  lemma ReadWrote(pages: Pages, rom: Rom, pg: byte, buf: seq<byte>, p: byte)
    requires |buf| <= 29 && (rom, pg) in pages
    ensures Wrote(pages, rom, pg, buf).Ok? && Wrote(pages, rom, pg, buf).value.Keys == pages.Keys
    ensures UncachedRead(Wrote(pages, rom, pg, buf).value, rom, p)
            == if p == pg then Ok(buf) else UncachedRead(pages, rom, p)
  {}

  /** One remote page: the stored bytes come back exactly if the length passes ReadBitMap's check. */
  lemma OnePageTrip(pages: Pages, rom: Rom, bm: Buffer, bm0: Buffer, maxP: byte, pg: byte)
    requires maxP <= 224 && (rom, pg) in pages
    ensures StoredBytes(maxP) <= 28 && Wrote(pages, rom, pg, bm[..StoredBytes(maxP)] + [0]).Ok?
    ensures LoadRemote(Wrote(pages, rom, pg, bm[..StoredBytes(maxP)] + [0]).value, rom, pg, bm0, maxP)
         == if maxP % 8 == 0 || maxP % 8 == 7 then Ok(Overwrite(bm0, 0, bm[..StoredBytes(maxP)])) else Err(FileReadErr)
  {
    hide UncachedRead, Wrote;
    var b := StoredBytes(maxP);
    ReadWrote(pages, rom, pg, bm[..b] + [0], pg);
    assert (bm[..b] + [0])[..b] == bm[..b];
  }

  /** What WriteBitMap leaves on two remote pages; the root page, if it is neither, stays. */
  lemma TwoPagesStored(pages: Pages, rom: Rom, bm: Buffer, maxP: byte, pg: byte)
    requires maxP > 224
    requires var d := UncachedRead(pages, rom, pg);
             d.Ok? && |d.value| == 29 && d.value[28] != 0 && d.value[28] != pg && (rom, d.value[28]) in pages
    ensures var pg2 := UncachedRead(pages, rom, pg).value[28];
            var stored := StoreTwo(pages, rom, pg, bm, maxP);
            && stored.Ok?
            && UncachedRead(stored.value, rom, pg) == Ok(bm[..28] + [pg2])
            && UncachedRead(stored.value, rom, pg2) == Ok(bm[28..StoredBytes(maxP)] + [0])
            && (pg != 0 ==> UncachedRead(stored.value, rom, 0) == UncachedRead(pages, rom, 0))
  {
    var d := UncachedRead(pages, rom, pg).value;
    PageIsPresent(pages, rom, pg);
    hide UncachedRead, Wrote;
    var first, second := bm[..28] + [d[28]], bm[28..StoredBytes(maxP)] + [0];
    assert d[..28] == bm[..28] ==> d == first;
    ReadWrote(pages, rom, pg, first, pg);
    ReadWrote(pages, rom, pg, first, 0);
    var pages1 := if d[..28] == bm[..28] then pages else Wrote(pages, rom, pg, first).value;
    ReadWrote(pages1, rom, d[28], second, pg);
    ReadWrote(pages1, rom, d[28], second, d[28]);
    ReadWrote(pages1, rom, d[28], second, 0);
  }

  lemma OverwriteTwo(bm: Buffer, bm0: Buffer, b: nat)
    requires 28 <= b <= 32
    ensures Overwrite(Overwrite(bm0, 0, bm[..28]), 28, bm[28..b]) == Overwrite(bm0, 0, bm[..b])
  {}

  /** What ReadBitMap makes of two remote pages. */
  lemma TwoPagesLoaded(pages: Pages, rom: Rom, bm: Buffer, bm0: Buffer, maxP: byte, pg: byte, pg2: byte)
    requires maxP > 224 && pg2 != 0
    requires UncachedRead(pages, rom, pg) == Ok(bm[..28] + [pg2])
    requires UncachedRead(pages, rom, pg2) == Ok(bm[28..StoredBytes(maxP)] + [0])
    ensures LoadRemote(pages, rom, pg, bm0, maxP)
         == if maxP % 8 == 0 || maxP % 8 == 7 then Ok(Overwrite(bm0, 0, bm[..StoredBytes(maxP)])) else Err(FileReadErr)
  {
    hide UncachedRead, Overwrite;
    var first, second := bm[..28] + [pg2], bm[28..StoredBytes(maxP)] + [0];
    assert first[..28] == bm[..28] && second[..|second| - 1] == bm[28..StoredBytes(maxP)];
    OverwriteTwo(bm, bm0, StoredBytes(maxP));
  }

  /** Two remote pages. */
  lemma TwoPagesTrip(pages: Pages, rom: Rom, bm: Buffer, bm0: Buffer, maxP: byte, pg: byte)
    requires maxP > 224
    requires var d := UncachedRead(pages, rom, pg);
             d.Ok? && |d.value| == 29 && d.value[28] != 0 && d.value[28] != pg && (rom, d.value[28]) in pages
    ensures var stored := StoreTwo(pages, rom, pg, bm, maxP);
            && stored.Ok?
            && (pg != 0 ==> UncachedRead(stored.value, rom, 0) == UncachedRead(pages, rom, 0))
            && LoadRemote(stored.value, rom, pg, bm0, maxP)
               == if maxP % 8 == 0 || maxP % 8 == 7 then Ok(Overwrite(bm0, 0, bm[..StoredBytes(maxP)]))
                 else Err(FileReadErr)
  {
    TwoPagesStored(pages, rom, bm, maxP, pg);
    hide UncachedRead, StoreTwo, LoadRemote, Overwrite;
    var pg2 := UncachedRead(pages, rom, pg).value[28];
    TwoPagesLoaded(StoreTwo(pages, rom, pg, bm, maxP).value, rom, bm, bm0, maxP, pg, pg2);
  }

  lemma PageIsPresent(pages: Pages, rom: Rom, pg: byte)
    requires UncachedRead(pages, rom, pg).Ok?
    ensures (rom, pg) in pages
  {}

  // ---------- where the bitmap lies, on the bytes of the root page ----------

  /** The two part states differ in the content of these pages of part `rom` alone. */
  ghost predicate Replaced(pages: Pages, pages': Pages, rom: Rom, now: map<byte, seq<byte>>) {
    forall r: Rom, p: byte :: UncachedRead(pages', r, p)
      == if r == rom && p in now then Ok(now[p]) else UncachedRead(pages, r, p)
  }

  lemma WroteReplaces(pages: Pages, rom: Rom, pg: byte, buf: seq<byte>)
    requires |buf| <= 29 && (rom, pg) in pages
    ensures Wrote(pages, rom, pg, buf).Ok? && Replaced(pages, Wrote(pages, rom, pg, buf).value, rom, map[pg := buf])
    ensures Wrote(pages, rom, pg, buf).value.Keys == pages.Keys
  {}

  /** Bit 7 of byte 2 clear: the map goes to the page in byte 5 and to no other page. */
  lemma StoreOnePage(pages: Pages, rom: Rom, bm: Buffer, maxP: byte, junk: Buffer, d: seq<byte>)
    requires UncachedRead(pages, rom, 0) == Ok(d) && 6 <= |d| && d[0] == 0xAA && d[1] == 0x00 && d[2] < 128
    requires maxP <= 224 && (rom, d[5]) in pages
    ensures var r := Store(pages, rom, bm, maxP, junk);
            r.Ok? && Replaced(pages, r.value, rom, map[d[5] := bm[..(maxP + 7) / 8] + [0]])
  {
    hide UncachedRead, Wrote;
    WroteReplaces(pages, rom, d[5], bm[..StoredBytes(maxP)] + [0]);
  }

  /**
   * Above page 224, the first 28 bytes go to that page, which keeps its continuation byte, the rest to the page
   * it names.
   */
  lemma StoreTwoPages(pages: Pages, rom: Rom, bm: Buffer, maxP: byte, junk: Buffer, d: seq<byte>, d1: seq<byte>)
    requires UncachedRead(pages, rom, 0) == Ok(d) && 6 <= |d| && d[0] == 0xAA && d[1] == 0x00 && d[2] < 128
    requires maxP > 224 && UncachedRead(pages, rom, d[5]) == Ok(d1) && |d1| == 29
    requires d1[28] != d[5] && (rom, d1[28]) in pages
    ensures var r := Store(pages, rom, bm, maxP, junk);
            r.Ok? && Replaced(pages, r.value, rom,
                              map[d[5] := bm[..28] + [d1[28]], d1[28] := bm[28..(maxP + 7) / 8] + [0]])
  {
    hide UncachedRead, StoreTwo, Replaced;
    StoreTwoReplaces(pages, rom, bm, maxP, d[5], d1);
  }

  lemma StoreTwoReplaces(pages: Pages, rom: Rom, bm: Buffer, maxP: byte, pg: byte, d1: seq<byte>)
    requires maxP > 224 && UncachedRead(pages, rom, pg) == Ok(d1) && |d1| == 29
    requires d1[28] != pg && (rom, d1[28]) in pages
    ensures var r := StoreTwo(pages, rom, pg, bm, maxP);
            r.Ok? && Replaced(pages, r.value, rom,
                              map[pg := bm[..28] + [d1[28]], d1[28] := bm[28..(maxP + 7) / 8] + [0]])
  {
    hide UncachedRead, Wrote, Replaced;
    PageIsPresent(pages, rom, pg);
    var first, second := bm[..28] + [d1[28]], bm[28..StoredBytes(maxP)] + [0];
    WroteReplaces(pages, rom, pg, first);
    assert d1[..28] == bm[..28] ==> d1 == first;
    var pages1 := if d1[..28] == bm[..28] then pages else Wrote(pages, rom, pg, first).value;
    WroteReplaces(pages1, rom, d1[28], second);
    ReplacedTwice(pages, pages1, Wrote(pages1, rom, d1[28], second).value, rom, pg, first, d1[28], second);
  }

  lemma ReplacedTwice(pages: Pages, pages1: Pages, pages2: Pages, rom: Rom, p: byte, x: seq<byte>, q: byte,
                      y: seq<byte>)
    requires p != q && Replaced(pages1, pages2, rom, map[q := y])
    requires Replaced(pages, pages1, rom, map[p := x]) || (pages1 == pages && UncachedRead(pages, rom, p) == Ok(x))
    ensures Replaced(pages, pages2, rom, map[p := x, q := y])
  {
    hide UncachedRead;
  }

  /** Bit 7 of byte 2 set: the map goes to bytes 3 to 6 of the root page, the rest of which stays. */
  lemma StoreInRoot(pages: Pages, rom: Rom, bm: Buffer, maxP: byte, junk: Buffer, d: seq<byte>)
    requires UncachedRead(pages, rom, 0) == Ok(d) && 7 <= |d| <= 29 && d[0] == 0xAA && d[1] == 0x00 && d[2] >= 128
    requires maxP <= 32
    ensures var r, b := Store(pages, rom, bm, maxP, junk), (maxP + 7) / 8;
            r.Ok? && Replaced(pages, r.value, rom, map[0 := d[..3] + bm[..b] + seq(4 - b, _ => 0) + d[7..]])
  {
    hide UncachedRead, Wrote, RootWith, Loaded, Replaced;
    PageIsPresent(pages, rom, 0);
    LoadedMark(junk, d);
    var buf := RootWith(Loaded(junk, d), bm, maxP)[..|d|];
    RootBytes(d, bm, maxP, junk);
    WroteReplaces(pages, rom, 0, buf);
  }

  lemma LoadedMark(junk: Buffer, d: seq<byte>)
    requires 3 <= |d| <= 29
    ensures Loaded(junk, d)[0] == d[0] && Loaded(junk, d)[1] == d[1] && Loaded(junk, d)[2] == d[2]
  {}

  /** The root page with the bitmap in it. */
  lemma RootBytes(d: seq<byte>, bm: Buffer, maxP: byte, junk: Buffer)
    requires 7 <= |d| <= 29 && maxP <= 32
    ensures var b := (maxP + 7) / 8;
            b <= 4 && RootWith(Loaded(junk, d), bm, maxP)[..|d|] == d[..3] + bm[..b] + seq(4 - b, _ => 0) + d[7..]
  {
    var root, b := Loaded(junk, d), StoredBytes(maxP);
    assert root[..3] == d[..3] && root[7..][..|d| - 7] == d[7..];
    var front := d[..3] + bm[..b] + seq(4 - b, _ => 0);
    assert RootWith(root, bm, maxP) == front + root[7..];
    assert (front + root[7..])[..|d|] == front + root[7..][..|d| - 7];
  }

  /** ReadBitMap returns what page `d[5]` holds, if it is no continued page and as long as the map. */
  lemma LoadOnePage(pages: Pages, rom: Rom, bm0: Buffer, maxP: byte, junk: Buffer, d: seq<byte>, d1: seq<byte>)
    requires UncachedRead(pages, rom, 0) == Ok(d) && 6 <= |d| && d[0] == 0xAA && d[1] == 0x00 && d[2] < 128
    requires maxP <= 224 && UncachedRead(pages, rom, d[5]) == Ok(d1) && |d1| > 0
    ensures Load(pages, rom, bm0, maxP, junk)
         == if |d1| == (maxP + 1) / 8 + 1 && d1[|d1| - 1] == 0 then Ok(d1[..|d1| - 1] + bm0[|d1| - 1..])
            else Err(FileReadErr)
  {
    hide UncachedRead, Overwrite;
    if |d1| == (maxP + 1) / 8 + 1 {
      OverwriteStart(bm0, d1[..|d1| - 1]);
    }
  }

  lemma OverwriteStart(mem: Buffer, data: seq<byte>)
    requires |data| <= 32
    ensures Overwrite(mem, 0, data) == data + mem[|data|..]
  {}

  /** Above page 224, it returns what that page and the one it names hold. */
  lemma LoadTwoPages(pages: Pages, rom: Rom, bm0: Buffer, maxP: byte, junk: Buffer, d: seq<byte>, d1: seq<byte>,
                     d2: seq<byte>)
    requires UncachedRead(pages, rom, 0) == Ok(d) && 6 <= |d| && d[0] == 0xAA && d[1] == 0x00 && d[2] < 128
    requires maxP > 224 && UncachedRead(pages, rom, d[5]) == Ok(d1) && |d1| == 29 && d1[28] != 0
    requires UncachedRead(pages, rom, d1[28]) == Ok(d2) && |d2| > 0
    ensures Load(pages, rom, bm0, maxP, junk)
         == if 27 + |d2| == (maxP + 1) / 8 then Ok(d1[..28] + d2[..|d2| - 1] + bm0[27 + |d2|..]) else Err(FileReadErr)
  {
    hide UncachedRead;
    if 27 + |d2| == (maxP + 1) / 8 {
      assert Overwrite(Overwrite(bm0, 0, d1[..28]), 28, d2[..|d2| - 1]) == d1[..28] + d2[..|d2| - 1] + bm0[27 + |d2|..];
    }
  }

  /** A local map is read from byte 3 of the root page on. */
  lemma LoadFromRoot(pages: Pages, rom: Rom, bm0: Buffer, maxP: byte, junk: Buffer, d: seq<byte>)
    requires UncachedRead(pages, rom, 0) == Ok(d) && 8 <= |d| <= 29 && d[0] == 0xAA && d[1] == 0x00 && d[2] >= 128
    requires maxP <= 32
    ensures var r, n := Load(pages, rom, bm0, maxP, junk), maxP / 8 + 1;
            r.Ok? && r.value[..n] == d[3..3 + n] && r.value[n..] == seq(|d| - n, _ => 0) + bm0[|d|..]
  {
    LocalBytes(d, maxP, junk);
    hide UncachedRead;
  }

  /** What WriteBitMap refuses: no directory mark, a local map for too many pages, missing pages, a short first page. */
  lemma StoreRefuses(pages: Pages, rom: Rom, bm: Buffer, maxP: byte, junk: Buffer, d: seq<byte>)
    requires UncachedRead(pages, rom, 0) == Ok(d) && 6 <= |d|
    ensures var r := Store(pages, rom, bm, maxP, junk);
            if d[0] != 0xAA || d[1] != 0x00 || (d[2] >= 128 && maxP > 32) then r == Err(FileReadErr)
            else if d[2] >= 128 then true
            else if maxP <= 224 then (rom, d[5]) !in pages ==> r == Err(LinkFailed)
            else
              match UncachedRead(pages, rom, d[5])
              case Err(e) => r == Err(e)
              case Ok(d1) => |d1| != 29 ==> r == Err(FileReadErr)
  {
    hide UncachedRead;
  }

  /** What ReadBitMap refuses: the same, and a first page of two that names no second one. */
  lemma LoadRefuses(pages: Pages, rom: Rom, bm0: Buffer, maxP: byte, junk: Buffer, d: seq<byte>)
    requires UncachedRead(pages, rom, 0) == Ok(d) && 6 <= |d|
    ensures var r := Load(pages, rom, bm0, maxP, junk);
            if d[0] != 0xAA || d[1] != 0x00 || (d[2] >= 128 && maxP > 32) then r == Err(FileReadErr)
            else if d[2] >= 128 then true
            else
              match UncachedRead(pages, rom, d[5])
              case Err(e) => r == Err(e)
              case Ok(d1) =>
                && (|d1| == 0 || (maxP > 224 && (|d1| != 29 || d1[28] == 0)) ==> r == Err(FileReadErr))
                && (maxP > 224 && |d1| == 29 && d1[28] != 0 ==>
                      match UncachedRead(pages, rom, d1[28]) case Err(e) => r == Err(e) case Ok(_) => true)
  {
    hide UncachedRead;
  }

  /** What ReadBitMap makes of the bitmap WriteBitMap just stored. */
  function Trip(pages: Pages, rom: Rom, bm: Buffer, bm0: Buffer, maxP: byte, junk: Buffer,
                junk': Buffer): Result<Buffer> {
    match Store(pages, rom, bm, maxP, junk)
    case Err(e) => Err(e)
    case Ok(pages') => Load(pages', rom, bm0, maxP, junk')
  }

  /** The byte ReadBitMap returns behind the stored ones. */
  function Behind(pages: Pages, rom: Rom, bm0: Buffer, maxP: byte): byte
    requires RootOk(pages, rom) && maxP % 8 == 0
  {
    if !Named(pages, rom, maxP).Local? then bm0[maxP / 8] else if maxP < 32 then 0 else Root(pages, rom)[7]
  }

  lemma RemoteTrip(pages: Pages, rom: Rom, bm: Buffer, bm0: Buffer, maxP: byte, junk: Buffer, junk': Buffer)
    requires RootOk(pages, rom) && Separate(pages, rom, maxP) && !Named(pages, rom, maxP).Local?
    ensures Trip(pages, rom, bm, bm0, maxP, junk, junk')
         == if maxP % 8 == 0 || maxP % 8 == 7 then Ok(Overwrite(bm0, 0, bm[..StoredBytes(maxP)])) else Err(FileReadErr)
  {
    var pg, b := Root(pages, rom)[5], StoredBytes(maxP);
    NamedIs(pages, rom, maxP, junk);
    NamedIs(pages, rom, maxP, junk');
    hide UncachedRead, Wrote, StoreTwo, LoadRemote, Loaded;
    if maxP > 224 {
      TwoPagesTrip(pages, rom, bm, bm0, maxP, pg);
    } else {
      OnePageTrip(pages, rom, bm, bm0, maxP, pg);
      ReadWrote(pages, rom, pg, bm[..b] + [0], 0);
    }
  }

  /** The root page with the bitmap in it. */
  lemma LocalRoot(d: seq<byte>, bm: Buffer, maxP: byte, junk: Buffer)
    requires 8 <= |d| <= 29 && maxP <= 32
    ensures var buf, b := RootWith(Loaded(junk, d), bm, maxP)[..|d|], StoredBytes(maxP);
            && |buf| == |d| && buf[..3] == d[..3] && buf[7..] == d[7..] && buf[3..3 + b] == bm[..b]
            && (maxP % 8 == 0 && maxP < 32 ==> buf[3 + maxP / 8] == 0)
  {
    RootBytes(d, bm, maxP, junk);
    hide RootWith, Loaded;
  }

  /** The bitmap bytes of a page in the page buffer. */
  lemma LocalBytes(buf: seq<byte>, maxP: byte, junk: Buffer)
    requires 8 <= |buf| <= 29 && maxP <= 32
    ensures Loaded(junk, buf)[3..maxP / 8 + 4] == buf[3..maxP / 8 + 4]
  {}

  /** The first bytes of a buffer that is overwritten from its start. */
  lemma OverwriteFront(old': Buffer, bytes: seq<byte>, n: nat)
    requires n <= |bytes| <= 32
    ensures Overwrite(old', 0, bytes)[..n] == bytes[..n]
  {}

  lemma LocalTrip(pages: Pages, rom: Rom, bm: Buffer, bm0: Buffer, maxP: byte, junk: Buffer, junk': Buffer)
    requires RootOk(pages, rom) && Separate(pages, rom, maxP) && Named(pages, rom, maxP).Local?
    ensures var r := Trip(pages, rom, bm, bm0, maxP, junk, junk');
            r.Ok? && r.value[..StoredBytes(maxP)] == bm[..StoredBytes(maxP)]
            && (maxP % 8 == 0 ==> r.value[maxP / 8] == Behind(pages, rom, bm0, maxP))
  {
    var d, b, n := Root(pages, rom), StoredBytes(maxP), maxP / 8 + 1;
    PageIsPresent(pages, rom, 0);
    NamedIs(pages, rom, maxP, junk);
    LocalRoot(d, bm, maxP, junk);
    var buf := RootWith(Loaded(junk, d), bm, maxP)[..|d|];
    LocalBytes(buf, maxP, junk');
    hide UncachedRead, Wrote, RootWith, Overwrite;
    ReadWrote(pages, rom, 0, buf, 0);
    var cleared := Overwrite(bm0, 0, seq(|d|, _ => 0));
    OverwriteFront(cleared, buf[3..n + 3], n);
    var r := Trip(pages, rom, bm, bm0, maxP, junk, junk');
    LocalLoads(Wrote(pages, rom, 0, buf).value, rom, buf, bm0, maxP, junk');
    assert r.value[..n] == buf[3..n + 3];
    assert r.value[..b] == r.value[..n][..b] == buf[3..3 + b];
    assert r.value[maxP / 8] == r.value[..n][maxP / 8];
  }

  /** A local bitmap, read. */
  lemma LocalLoads(pages: Pages, rom: Rom, buf: seq<byte>, bm0: Buffer, maxP: byte, junk: Buffer)
    requires UncachedRead(pages, rom, 0) == Ok(buf) && 8 <= |buf| <= 29 && maxP <= 32
    requires buf[0] == 0xAA && buf[1] == 0 && buf[2] >= 128
    ensures Load(pages, rom, bm0, maxP, junk)
         == Ok(Overwrite(Overwrite(bm0, 0, seq(|buf|, _ => 0)), 0, Loaded(junk, buf)[3..maxP / 8 + 4]))
  {
    hide UncachedRead, Overwrite;
  }

  /**
   * The round trip, exactly: the remote layouts need the length to pass ReadBitMap's check, and if the
   * last page's bit starts a byte of its own, that byte is not stored.
   */
  lemma BitMapTripIff(pages: Pages, rom: Rom, bm: Buffer, bm0: Buffer, maxP: byte, junk: Buffer, junk': Buffer)
    requires RootOk(pages, rom) && Separate(pages, rom, maxP)
    ensures var r := Trip(pages, rom, bm, bm0, maxP, junk, junk');
            (r.Ok? && SameBits(r.value, bm, maxP)) <==>
              (&& (Named(pages, rom, maxP).Local? || maxP % 8 == 0 || maxP % 8 == 7)
               && (maxP % 8 == 0 ==> (PageBit(bm, maxP) <==> ByteBit(Behind(pages, rom, bm0, maxP) as bv8, 0))))
  {
    hide ByteBit, Trip, UncachedRead;
    var b := StoredBytes(maxP);
    var r := Trip(pages, rom, bm, bm0, maxP, junk, junk');
    if Named(pages, rom, maxP).Local? {
      LocalTrip(pages, rom, bm, bm0, maxP, junk, junk');
      SameBitsIff(r.value, bm, maxP);
    } else {
      RemoteTrip(pages, rom, bm, bm0, maxP, junk, junk');
      if r.Ok? {
        assert r.value[..b] == bm[..b];
        SameBitsIff(r.value, bm, maxP);
      }
    }
  }

  function Full(x: byte): Buffer { seq(32, _ => x) }

  lemma FullBits(k: byte)
    ensures PageBit(Full(255), k) && !PageBit(Full(0), k)
  {}

  /**
   * Every bitmap survives exactly when the pages fill whole bytes, or the map is local and its last byte is not
   * a single bit.
   */
  lemma EveryBitMapTrips(pages: Pages, rom: Rom, maxP: byte, junk: Buffer, junk': Buffer)
    requires RootOk(pages, rom) && Separate(pages, rom, maxP)
    ensures (forall bm: Buffer, bm0: Buffer :: Survives(pages, rom, bm, bm0, maxP, junk, junk'))
       <==> maxP % 8 == 7 || (Named(pages, rom, maxP).Local? && maxP % 8 != 0)
  {
    hide ByteBit, Trip, UncachedRead, SameBits;
    forall bm: Buffer, bm0: Buffer
      ensures Survives(pages, rom, bm, bm0, maxP, junk, junk') <==>
              && (Named(pages, rom, maxP).Local? || maxP % 8 == 0 || maxP % 8 == 7)
              && (maxP % 8 == 0 ==> (PageBit(bm, maxP) <==> ByteBit(Behind(pages, rom, bm0, maxP) as bv8, 0)))
    {
      BitMapTripIff(pages, rom, bm, bm0, maxP, junk, junk');
    }
    FullBits(maxP);
    if maxP % 8 == 0 {
      var lost := ByteBit(Behind(pages, rom, Full(0), maxP) as bv8, 0);
      assert !Survives(pages, rom, if lost then Full(0) else Full(255), Full(0), maxP, junk, junk');
    } else if !Named(pages, rom, maxP).Local? && maxP % 8 != 7 {
      assert !Survives(pages, rom, Full(0), Full(0), maxP, junk, junk');
    }
  }

  ghost predicate Survives(pages: Pages, rom: Rom, bm: Buffer, bm0: Buffer, maxP: byte, junk: Buffer, junk': Buffer) {
    var r := Trip(pages, rom, bm, bm0, maxP, junk, junk');
    r.Ok? && SameBits(r.value, bm, maxP)
  }

  /** The stored map, written and read through the cache on a sound link. */
  method StoreAndLoad(io: PageIO, rom: Rom, bm: Buffer, bmap: array<byte>, maxP: byte) returns (r: Result<()>)
    requires io.Valid() && !io.flaky && RootOk(io.pages, rom) && Separate(io.pages, rom, maxP)
    requires bmap.Length == 32 && bmap as object !in io.Repr()
    modifies io.Repr(), bmap
    ensures io.Valid()
    ensures maxP % 8 == 7 || (Named(old(io.pages), rom, maxP).Local? && maxP % 8 != 0) ==>
      r.Ok? && SameBits(bmap[..], bm, maxP)
  {
    hide UncachedRead, Store, Load, SameBits, RootOk, Separate, PageIO.Valid;
    ghost var pages, bm0 := io.pages, bmap[..];
    ghost var junk, junk';
    r, junk := WriteBitMap(io, rom, bm, maxP);
    if r.Ok? {
      r, junk' := ReadBitMap(io, rom, bmap, maxP);
    } else {
      junk' := junk;
    }
    BitMapTripIff(pages, rom, bm, bm0, maxP, junk, junk');
  }
}

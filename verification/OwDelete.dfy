/**
 * Deleting a file (owDeleteFile of owfile.c) on a sound link: the search, the bitmap, the file's pages, the
 * directory edit and the bitmap again, as one operation on the part.
 */
module OwDelete {
  import opened BitMasks
  import opened Bits
  import opened Bytes
  import opened OwBitMap
  import opened OwBitMapLaws
  import opened OwBitMapStore
  import opened OwDirectory
  import opened OwExtFile
  import opened OwPageIO
  import opened Results

  // ---------- the pages a bitmap lives on ----------

  /** The pages WriteBitMap may write. */
  function BitMapPages(pages: Pages, rom: Rom, maxP: byte): seq<byte>
    requires RootOk(pages, rom) && Separate(pages, rom, maxP)
  {
    match Named(pages, rom, maxP)
    case Local => [0]
    case OnePage(pg) => [pg]
    case TwoPages(pg) => [pg, UncachedRead(pages, rom, pg).value[28]]
  }

  /** The page counts for which every bitmap survives. */
  predicate WholeBytes(pages: Pages, rom: Rom, maxP: byte)
    requires RootOk(pages, rom)
  {
    maxP % 8 == 7 || (Named(pages, rom, maxP).Local? && maxP % 8 != 0)
  }

  /** The two part states agree on every page but these. */
  ghost predicate SameBut(pages: Pages, pages': Pages, rom: Rom, ps: seq<byte>) {
    forall r: Rom, p: byte :: r != rom || p !in ps ==> UncachedRead(pages', r, p) == UncachedRead(pages, r, p)
  }

  lemma WroteFrame(pages: Pages, rom: Rom, pg: byte, buf: seq<byte>, r: Rom, p: byte)
    requires |buf| <= 29 && (rom, pg) in pages
    ensures r != rom || p != pg ==> UncachedRead(Wrote(pages, rom, pg, buf).value, r, p) == UncachedRead(pages, r, p)
  {}

  /** WriteBitMap succeeds and leaves every page but its own as it was. */
  lemma StoreFrame(pages: Pages, rom: Rom, bm: Buffer, maxP: byte, junk: Buffer, r: Rom, p: byte)
    requires RootOk(pages, rom) && Separate(pages, rom, maxP)
    ensures Store(pages, rom, bm, maxP, junk).Ok?
    ensures r != rom || p !in BitMapPages(pages, rom, maxP) ==>
      UncachedRead(Store(pages, rom, bm, maxP, junk).value, r, p) == UncachedRead(pages, r, p)
  {
    NamedIs(pages, rom, maxP, junk);
    PageIsPresent(pages, rom, 0);
    var d, b := Root(pages, rom), StoredBytes(maxP);
    hide UncachedRead, Wrote, Loaded;
    match Named(pages, rom, maxP)
    case Local =>
      var buf := RootWith(Loaded(junk, d), bm, maxP)[..|d|];
      ReadWrote(pages, rom, 0, buf, 0);
      WroteFrame(pages, rom, 0, buf, r, p);
    case OnePage(pg) =>
      ReadWrote(pages, rom, pg, bm[..b] + [0], pg);
      WroteFrame(pages, rom, pg, bm[..b] + [0], r, p);
    case TwoPages(pg) =>
      PageIsPresent(pages, rom, pg);
      var d1 := UncachedRead(pages, rom, pg).value;
      var first, second := bm[..28] + [d1[28]], bm[28..b] + [0];
      var pages1 := if d1[..28] == bm[..28] then pages else Wrote(pages, rom, pg, first).value;
      ReadWrote(pages, rom, pg, first, pg);
      WroteFrame(pages, rom, pg, first, r, p);
      ReadWrote(pages1, rom, d1[28], second, d1[28]);
      WroteFrame(pages1, rom, d1[28], second, r, p);
  }

  /** A local bitmap changes the root page in bytes 3 to 6 at most. */
  lemma StoreRoot(pages: Pages, rom: Rom, bm: Buffer, maxP: byte, junk: Buffer)
    requires RootOk(pages, rom) && Separate(pages, rom, maxP) && Named(pages, rom, maxP).Local?
    ensures Store(pages, rom, bm, maxP, junk).Ok?
    ensures var d, after := Root(pages, rom), UncachedRead(Store(pages, rom, bm, maxP, junk).value, rom, 0);
            after.Ok? && |after.value| == |d| && after.value[..3] == d[..3] && after.value[7..] == d[7..]
  {
    NamedIs(pages, rom, maxP, junk);
    PageIsPresent(pages, rom, 0);
    var d := Root(pages, rom);
    var buf := RootWith(Loaded(junk, d), bm, maxP)[..|d|];
    hide UncachedRead, Wrote;
    ReadWrote(pages, rom, 0, buf, 0);
    assert buf[..3] == d[..3] && buf[7..] == d[7..];
  }

  /** The page bits read from the part do not depend on what the buffers held before. */
  lemma LoadBits(pages: Pages, rom: Rom, maxP: byte, bm0: Buffer, junk: Buffer, bm0': Buffer, junk': Buffer)
    requires RootOk(pages, rom) && Separate(pages, rom, maxP) && WholeBytes(pages, rom, maxP)
    requires Load(pages, rom, bm0, maxP, junk).Ok?
    ensures Load(pages, rom, bm0', maxP, junk').Ok?
    ensures SameBits(Load(pages, rom, bm0, maxP, junk).value, Load(pages, rom, bm0', maxP, junk').value, maxP)
  {
    NamedIs(pages, rom, maxP, junk);
    NamedIs(pages, rom, maxP, junk');
    var n := StoredBytes(maxP);
    var d := Root(pages, rom);
    hide UncachedRead, ByteBit;
    var x, y := Load(pages, rom, bm0, maxP, junk), Load(pages, rom, bm0', maxP, junk');
    match Named(pages, rom, maxP)
    case Local =>
      LoadedHeader(d, junk, maxP);
      LoadedHeader(d, junk', maxP);
    case OnePage(pg) =>
      assert x.value[..n] == UncachedRead(pages, rom, pg).value[..n] == y.value[..n];
    case TwoPages(pg) =>
      var d1 := UncachedRead(pages, rom, pg).value;
      var d2 := UncachedRead(pages, rom, d1[28]).value;
      assert x.value[..n] == d1[..28] + d2[..n - 28] == y.value[..n];
    assert x.value[..n] == y.value[..n];
    SameBitsIff(x.value, y.value, maxP);
  }

  lemma LoadedHeader(d: seq<byte>, junk: Buffer, maxP: byte)
    requires 8 <= |d| <= 29 && maxP <= 31
    ensures Loaded(junk, d)[3..maxP / 8 + 4] == d[3..maxP / 8 + 4]
  {}

  // ---------- the bitmap buffer, as numbers and as bits ----------

  method AsBits(bmap: array<byte>) returns (bm: array<bv8>)
    requires bmap.Length == 32
    ensures fresh(bm) && bm.Length == 32 && forall k: byte :: Bit(bm[..], k) <==> PageBit(bmap[..], k)
  {
    hide ByteBit;
    bm := new bv8[32](i requires 0 <= i < 32 reads bmap => bmap[i] as bv8);
  }

  method AsNumbers(bm: array<bv8>) returns (m: Buffer)
    requires bm.Length == 32
    ensures forall k: byte :: PageBit(m, k) <==> Bit(bm[..], k)
  {
    hide ByteBit;
    var bmap := new byte[32](i requires 0 <= i < 32 reads bm => bm[i] as int);
    m := bmap[..];
    forall k: byte
      ensures PageBit(m, k) <==> Bit(bm[..], k)
    {
      BitsOfNumber(bm[k / 8]);
    }
  }

  // ---------- what a deletion leaves ----------

  /** The bitmap on the part, as a read into zeroed buffers returns it. */
  function StoredMap(pages: Pages, rom: Rom, maxP: byte): Result<Buffer> { Load(pages, rom, Full(0), maxP, Full(0)) }

  /** A file in a directory apart from the bitmap pages, whose chain ends within the part. */
  ghost predicate Deletable(pages: Pages, rom: Rom, maxP: byte, ps: seq<byte>, bodies: seq<seq<byte>>, p: Place,
                            info: FileInfo, fuel: nat)
    requires Directory(pages, rom, ps, bodies) && p.i < |ps| && p.off + RECORD <= |bodies[p.i]|
  {
    && RootOk(pages, rom) && Separate(pages, rom, maxP) && WholeBytes(pages, rom, maxP)
    && StoredMap(pages, rom, maxP).Ok?
    && (Named(pages, rom, maxP).Local? || forall i :: 0 <= i < |ps| ==> ps[i] !in BitMapPages(pages, rom, maxP))
    && (|bodies[p.i]| == RECORD ==> ps[p.i] <= maxP)
    && var t := Follow(pages, rom, info.spage, fuel);
       t.end.Complete? && !Beyond(t.ps, maxP)
  }

  /** Writing a page that is neither the root page nor one of the bitmap's, or the root page with its old header. */
  predicate Harmless(pages: Pages, rom: Rom, maxP: byte, pg: byte, buf: seq<byte>)
    requires RootOk(pages, rom) && Separate(pages, rom, maxP)
  {
    && |buf| <= 29
    && (pg == 0 ==> |buf| >= 8 && buf[..RECORD] == Root(pages, rom)[..RECORD])
    && (Named(pages, rom, maxP).Local? || pg !in BitMapPages(pages, rom, maxP))
  }

  lemma KeepsLayout(pages: Pages, rom: Rom, maxP: byte, pg: byte, buf: seq<byte>)
    requires RootOk(pages, rom) && Separate(pages, rom, maxP) && Harmless(pages, rom, maxP, pg, buf)
    ensures var pages1 := Put(pages, rom, pg, buf);
            RootOk(pages1, rom) && Named(pages1, rom, maxP) == Named(pages, rom, maxP)
  {
    ReadPut(pages, rom, pg, buf, rom, 0);
    hide UncachedRead, Put, BitMapPages;
    if pg == 0 {
      SameHeader(Root(pages, rom), buf);
    }
  }

  lemma SameHeader(d: seq<byte>, w: seq<byte>)
    requires |d| >= 8 && |w| >= 8 && w[..RECORD] == d[..RECORD]
    ensures w[0] == d[0] && w[1] == d[1] && w[2] == d[2] && w[5] == d[5]
  {
    forall i | 0 <= i < RECORD
      ensures w[i] == d[i]
    {
      assert w[i] == w[..RECORD][i] && d[i] == d[..RECORD][i];
    }
  }

  /** Such a write keeps the bitmap where it was. */
  lemma KeepsBitMap(pages: Pages, rom: Rom, maxP: byte, pg: byte, buf: seq<byte>)
    requires RootOk(pages, rom) && Separate(pages, rom, maxP) && Harmless(pages, rom, maxP, pg, buf)
    ensures var pages1 := Put(pages, rom, pg, buf);
            && RootOk(pages1, rom) && Separate(pages1, rom, maxP)
            && Named(pages1, rom, maxP) == Named(pages, rom, maxP)
            && BitMapPages(pages1, rom, maxP) == BitMapPages(pages, rom, maxP)
  {
    KeepsLayout(pages, rom, maxP, pg, buf);
    hide UncachedRead, Put, RootOk, Named;
    match Named(pages, rom, maxP)
    case Local =>
    case OnePage(q) => ReadPut(pages, rom, pg, buf, rom, q);
    case TwoPages(q) => ReadPut(pages, rom, pg, buf, rom, q);
  }

  /** The directory edit keeps the header of the root page, and with it the bitmap's layout. */
  lemma RootStays(pages: Pages, rom: Rom, maxP: byte, ps: seq<byte>, bodies: seq<seq<byte>>, p: Place, info: FileInfo,
                  fuel: nat)
    requires Directory(pages, rom, ps, bodies) && p.i < |ps| && p.off + RECORD <= |bodies[p.i]|
    requires p.i == 0 ==> p.off >= RECORD
    requires Deletable(pages, rom, maxP, ps, bodies, p, info, fuel) && (|bodies[p.i]| == RECORD ==> p.i > 0)
    ensures var w := Rewritten(ps, bodies, p.i, p.off);
            var pages1 := Put(pages, rom, w.0, w.1);
            && |w.1| <= 29 && RootOk(pages1, rom) && Separate(pages1, rom, maxP) && WholeBytes(pages1, rom, maxP)
            && Named(pages1, rom, maxP) == Named(pages, rom, maxP)
            && BitMapPages(pages1, rom, maxP) == BitMapPages(pages, rom, maxP)
  {
    RewrittenPresent(pages, rom, ps, bodies, p);
    var w := Rewritten(ps, bodies, p.i, p.off);
    if w.0 == 0 {
      RootHeader(pages, rom, ps, bodies, p);
    }
    hide UncachedRead, Put, BitMapPages, RootOk, Separate, Rewritten, Named;
    KeepsBitMap(pages, rom, maxP, w.0, w.1);
  }

  /** The root page is only rewritten as the first page of its directory. */
  lemma RootHeader(pages: Pages, rom: Rom, ps: seq<byte>, bodies: seq<seq<byte>>, p: Place)
    requires Directory(pages, rom, ps, bodies) && p.i < |ps| && p.off + RECORD <= |bodies[p.i]|
    requires p.i == 0 ==> p.off >= RECORD
    requires (|bodies[p.i]| == RECORD ==> p.i > 0) && Rewritten(ps, bodies, p.i, p.off).0 == 0
    ensures ps[0] == 0
    ensures var d, w := UncachedRead(pages, rom, 0), Rewritten(ps, bodies, p.i, p.off).1;
            d.Ok? && |d.value| >= 8 && |w| >= 8 && w[..RECORD] == d.value[..RECORD]
  {
    hide UncachedRead;
    assert PageOk(pages, rom, ps, bodies, 0) && PageOk(pages, rom, ps, bodies, p.i);
    if p.i > 0 {
      assert PageOk(pages, rom, ps, bodies, p.i - 1);
    }
    var d, w := bodies[0] + [NextOf(ps, 0)], Rewritten(ps, bodies, p.i, p.off).1;
    assert d[..RECORD] == bodies[0][..RECORD];
    assert w[..RECORD] == bodies[0][..RECORD];
  }

  /** A directory none of whose pages changed. */
  lemma DirectoryFrame(pages: Pages, pages': Pages, rom: Rom, ps: seq<byte>, bodies: seq<seq<byte>>)
    requires Directory(pages, rom, ps, bodies)
    requires forall i :: 0 <= i < |ps| ==> UncachedRead(pages', rom, ps[i]) == UncachedRead(pages, rom, ps[i])
    ensures Directory(pages', rom, ps, bodies)
  {
    hide UncachedRead;
    forall i | 0 <= i < |ps|
      ensures PageOk(pages', rom, ps, bodies, i)
    {
      assert PageOk(pages, rom, ps, bodies, i);
    }
  }

  /** A directory whose first page changed in its header alone. */
  lemma HeaderFrame(pages: Pages, pages': Pages, rom: Rom, ps: seq<byte>, bodies: seq<seq<byte>>, e: seq<byte>)
    returns (after: seq<seq<byte>>)
    requires Directory(pages, rom, ps, bodies) && UncachedRead(pages', rom, ps[0]) == Ok(e)
    requires var d := bodies[0] + [NextOf(ps, 0)]; |e| == |d| && e[..3] == d[..3] && e[RECORD..] == d[RECORD..]
    requires forall i :: 1 <= i < |ps| ==> UncachedRead(pages', rom, ps[i]) == UncachedRead(pages, rom, ps[i])
    ensures Directory(pages', rom, ps, after) && Entries(after) == Entries(bodies)
  {
    hide UncachedRead;
    var n := |bodies[0]|;
    assert PageOk(pages, rom, ps, bodies, 0);
    var d := bodies[0] + [NextOf(ps, 0)];
    after := bodies[0 := e[..n]];
    assert e[n] == e[RECORD..][n - RECORD] == d[n];
    assert e == e[..n] + [d[n]];
    assert e[0] == e[..3][0] == d[0] && e[1] == e[..3][1] == d[1];
    forall i | 0 <= i < |ps|
      ensures PageOk(pages', rom, ps, after, i)
    {
      assert PageOk(pages, rom, ps, bodies, i);
    }
    assert e[..n][RECORD..] == e[RECORD..][..n - RECORD] == d[RECORD..][..n - RECORD] == bodies[0][RECORD..];
    SameEntries(bodies, after);
  }

  /** The entries are what lies behind the header. */
  lemma SameEntries(bodies: seq<seq<byte>>, after: seq<seq<byte>>)
    requires bodies != [] && |after| == |bodies| && after[1..] == bodies[1..]
    requires |bodies[0]| >= RECORD && |after[0]| >= RECORD && after[0][RECORD..] == bodies[0][RECORD..]
    ensures Entries(after) == Entries(bodies)
  {
    hide Records;
    assert Flatten(bodies)[RECORD..] == bodies[0][RECORD..] + Flatten(bodies[1..]);
    assert Flatten(after)[RECORD..] == after[0][RECORD..] + Flatten(after[1..]);
  }

  /** Storing the bitmap leaves the directory with the same entries. */
  lemma DirectoryAfterStore(pages: Pages, rom: Rom, ps: seq<byte>, bodies: seq<seq<byte>>, bm: Buffer, maxP: byte,
                            junk: Buffer)
    returns (after: seq<seq<byte>>)
    requires Directory(pages, rom, ps, bodies) && RootOk(pages, rom) && Separate(pages, rom, maxP)
    requires Named(pages, rom, maxP).Local? || forall i :: 0 <= i < |ps| ==> ps[i] !in BitMapPages(pages, rom, maxP)
    ensures Store(pages, rom, bm, maxP, junk).Ok?
    ensures Directory(Store(pages, rom, bm, maxP, junk).value, rom, ps, after) && Entries(after) == Entries(bodies)
  {
    StoreFrame(pages, rom, bm, maxP, junk, rom, 0);
    var pages' := Store(pages, rom, bm, maxP, junk).value;
    hide UncachedRead, Store, Entries;
    forall i | 0 <= i < |ps| && ps[i] !in BitMapPages(pages, rom, maxP)
      ensures UncachedRead(pages', rom, ps[i]) == UncachedRead(pages, rom, ps[i])
    {
      StoreFrame(pages, rom, bm, maxP, junk, rom, ps[i]);
    }
    if Named(pages, rom, maxP).Local? && ps[0] == 0 {
      StoreRoot(pages, rom, bm, maxP, junk);
      assert PageOk(pages, rom, ps, bodies, 0);
      assert Root(pages, rom) == bodies[0] + [NextOf(ps, 0)];
      forall i | 1 <= i < |ps|
        ensures UncachedRead(pages', rom, ps[i]) == UncachedRead(pages, rom, ps[i])
      {
        assert PageOk(pages, rom, ps, bodies, i);
      }
      after := HeaderFrame(pages, pages', rom, ps, bodies, UncachedRead(pages', rom, 0).value);
    } else {
      forall i | 0 <= i < |ps|
        ensures ps[i] !in BitMapPages(pages, rom, maxP)
      {
        assert PageOk(pages, rom, ps, bodies, i);
      }
      DirectoryFrame(pages, pages', rom, ps, bodies);
      after := bodies;
    }
  }

  /** The bitmap `m'` is `m` without the pages `gone`. */
  ghost predicate MapWithout(m: Buffer, m': Buffer, maxP: byte, gone: seq<byte>) {
    forall k: byte :: k <= maxP ==> (PageBit(m', k) <==> PageBit(m, k) && k !in gone)
  }

  /**
   * What a deletion leaves on the part: the directory without the record, the stored bitmap without the file's
   * pages and an emptied directory page, and every page as it was but the rewritten one and the bitmap's.
   */
  ghost predicate AfterDelete(pages: Pages, pages': Pages, rom: Rom, maxP: byte, ps: seq<byte>, bodies: seq<seq<byte>>,
                              p: Place, info: FileInfo, fuel: nat, after: seq<seq<byte>>)
    requires Directory(pages, rom, ps, bodies) && p.i < |ps| && p.off + RECORD <= |bodies[p.i]|
    requires (|bodies[p.i]| == RECORD ==> p.i > 0) && Deletable(pages, rom, maxP, ps, bodies, p, info, fuel)
  {
    && Directory(pages', rom, PagesWithout(ps, bodies, p.i), after)
    && Entries(after) == Entries(BodiesWithout(bodies, p.i, p.off))
    && StoredMap(pages', rom, maxP).Ok?
    && MapWithout(StoredMap(pages, rom, maxP).value, StoredMap(pages', rom, maxP).value, maxP,
                  Follow(pages, rom, info.spage, fuel).ps + Freed(info, bodies, p.i))
    && SameBut(pages, pages', rom, [Rewritten(ps, bodies, p.i, p.off).0] + BitMapPages(pages, rom, maxP))
  }

  /** Every chain that avoids the rewritten page and the bitmap reads as before: no other file is touched. */
  lemma OtherFilesUnchanged(pages: Pages, pages': Pages, rom: Rom, maxP: byte, ps: seq<byte>, bodies: seq<seq<byte>>,
                            p: Place, info: FileInfo, fuel: nat, after: seq<seq<byte>>, rom': Rom, pg: byte, fuel': nat)
    requires Directory(pages, rom, ps, bodies) && p.i < |ps| && p.off + RECORD <= |bodies[p.i]|
    requires (|bodies[p.i]| == RECORD ==> p.i > 0) && Deletable(pages, rom, maxP, ps, bodies, p, info, fuel)
    requires AfterDelete(pages, pages', rom, maxP, ps, bodies, p, info, fuel, after)
    requires rom' == rom ==> forall q :: q in Follow(pages, rom, pg, fuel').ps ==>
               q != Rewritten(ps, bodies, p.i, p.off).0 && q !in BitMapPages(pages, rom, maxP)
    ensures Follow(pages', rom', pg, fuel') == Follow(pages, rom', pg, fuel')
  {
    hide UncachedRead, Directory, Deletable, BitMapPages, Rewritten, Follow, StoredMap;
    FollowFrame(pages, pages', rom', pg, fuel');
  }

  /** The bitmap after the deletion, from the bits cleared on the way. */
  lemma MapAfter(pages1: Pages, rom: Rom, maxP: byte, m: Buffer, m0: Buffer, a0: seq<bv8>, a1: seq<bv8>, a2: seq<bv8>,
                 m2: Buffer, junk: Buffer, ps: seq<byte>, gone: seq<byte>)
    requires RootOk(pages1, rom) && Separate(pages1, rom, maxP) && WholeBytes(pages1, rom, maxP)
    requires |a0| == 32 && SameBits(m, m0, maxP) && (forall k: byte :: Bit(a0, k) <==> PageBit(m0, k))
    requires Released(a0, a1, ps) && Released(a1, a2, gone) && forall k: byte :: PageBit(m2, k) <==> Bit(a2, k)
    ensures Store(pages1, rom, m2, maxP, junk).Ok?
    ensures var r := StoredMap(Store(pages1, rom, m2, maxP, junk).value, rom, maxP);
            r.Ok? && MapWithout(m, r.value, maxP, ps + gone)
  {
    StoreFrame(pages1, rom, m2, maxP, junk, rom, 0);
    hide UncachedRead, Bit, Store, Load, PageBit, BitMapPages;
    BitMapTripIff(pages1, rom, m2, Full(0), maxP, junk, Full(0));
  }

  lemma DeleteEffect(pages: Pages, rom: Rom, maxP: byte, ps: seq<byte>, bodies: seq<seq<byte>>, p: Place,
                     info: FileInfo, fuel: nat,
                     bm0: Buffer, junk0: Buffer, m0: Buffer, a0: seq<bv8>, a1: seq<bv8>, a2: seq<bv8>, m2: Buffer,
                       junk: Buffer)
    returns (after: seq<seq<byte>>)
    requires Directory(pages, rom, ps, bodies) && p.i < |ps| && p.off + RECORD <= |bodies[p.i]|
    requires p.i == 0 ==> p.off >= RECORD
    requires (|bodies[p.i]| == RECORD ==> p.i > 0) && Deletable(pages, rom, maxP, ps, bodies, p, info, fuel)
    requires Load(pages, rom, bm0, maxP, junk0) == Ok(m0)
    requires |a0| == |a2| == 32
    requires (forall k: byte :: Bit(a0, k) <==> PageBit(m0, k)) && forall k: byte :: PageBit(m2, k) <==> Bit(a2, k)
    requires Takes(ps, bodies, info, p)
    requires Released(a0, a1, Follow(pages, rom, info.spage, fuel).ps)
    requires Released(a1, a2, Freed(info, bodies, p.i))
    ensures var w := Rewritten(ps, bodies, p.i, p.off);
            var stored := Store(Put(pages, rom, w.0, w.1), rom, m2, maxP, junk);
            stored.Ok? && AfterDelete(pages, stored.value, rom, maxP, ps, bodies, p, info, fuel, after)
  {
    var w := Rewritten(ps, bodies, p.i, p.off);
    var pages1 := Put(pages, rom, w.0, w.1);
    RootStays(pages, rom, maxP, ps, bodies, p, info, fuel);
    StillDirectory(pages, rom, ps, bodies, p.i, p.off);
    LoadBits(pages, rom, maxP, Full(0), Full(0), bm0, junk0);
    hide UncachedRead, Put, Store, Load, Bit, PageBit, Entries, BitMapPages, Rewritten, Freed, Follow, BodiesWithout,
         Released;
    var t := Follow(pages, rom, info.spage, fuel);
    MapAfter(pages1, rom, maxP, StoredMap(pages, rom, maxP).value, m0, a0, a1, a2, m2, junk, t.ps,
             Freed(info, bodies, p.i));
    var pages2 := Store(pages1, rom, m2, maxP, junk).value;
    if !Named(pages, rom, maxP).Local? { RemainApart(pages, rom, maxP, ps, bodies, p); }
    after :=
      DirectoryAfterStore(pages1, rom, PagesWithout(ps, bodies, p.i), BodiesWithout(bodies, p.i, p.off), m2, maxP,
                          junk);
    forall r: Rom, q: byte | r != rom || q !in [w.0] + BitMapPages(pages, rom, maxP)
      ensures UncachedRead(pages2, r, q) == UncachedRead(pages, r, q)
    {
      ReadPut(pages, rom, w.0, w.1, r, q);
      StoreFrame(pages1, rom, m2, maxP, junk, r, q);
    }
  }

  /** The remaining directory pages are pages of the directory. */
  lemma RemainApart(pages: Pages, rom: Rom, maxP: byte, ps: seq<byte>, bodies: seq<seq<byte>>, p: Place)
    requires p.i < |ps| == |bodies| && RootOk(pages, rom) && Separate(pages, rom, maxP)
    requires forall i :: 0 <= i < |ps| ==> ps[i] !in BitMapPages(pages, rom, maxP)
    ensures forall i :: 0 <= i < |PagesWithout(ps, bodies, p.i)| ==>
              PagesWithout(ps, bodies, p.i)[i] !in BitMapPages(pages, rom, maxP)
  {}

  // ---------- the code ----------

  /** The file's pages are read for their bits only; a page without a packet is not an obstacle. */
  method ReleaseFile(io: PageIO, rom: Rom, spage: byte, bm: array<bv8>, maxP: byte, ghost fuel: nat)
    returns (r: Result<()>)
    requires io.Valid() && Covers(bm[..], maxP) && bm as object !in io.Repr()
    requires Ends(Follow(io.pages, rom, spage, fuel))
    modifies bm, io.Repr() - {io}
    ensures io.Valid() && |bm[..]| == |old(bm[..])|
    ensures var t := Follow(io.pages, rom, spage, fuel);
            !io.flaky && t.end.Complete? && !OwExtFile.Beyond(t.ps, maxP) ==>
              r.Ok? && Released(old(bm[..]), bm[..], t.ps)
    ensures r != Err(ReadOnly)
  {
    hide UncachedRead, PageIO.Valid, Follow;
    var file := ExtRead(io, rom, spage, -1, bm, maxP, fuel);
    if file.Ok? {
      return Ok(());
    }
    var cleared := BitMapChange(spage, false, bm, maxP);
    if cleared.Err? {
      return Err(cleared.error);
    }
    if file.error != InvalidPacketLength {
      return Err(file.error);
    }
    return Ok(());
  }

  /** From the file's pages to the stored bitmap, with the bits `bm` of the bitmap `m0` just read. */
  method Erase(io: PageIO, rom: Rom, info: FileInfo, bm: array<bv8>, maxP: byte, ghost ps: seq<byte>,
               ghost bodies: seq<seq<byte>>, ghost p: Place, ghost fuel: nat,
               ghost bm0: Buffer, ghost junk0: Buffer, ghost m0: Buffer)
    returns (r: Result<()>, ghost after: seq<seq<byte>>)
    requires io.Valid() && !io.flaky && Directory(io.pages, rom, ps, bodies) && bm.Length == 32
    requires bm as object !in io.Repr()
    requires p.i < |ps| && p.off + RECORD <= |bodies[p.i]| && (p.i == 0 ==> p.off >= RECORD)
    requires Takes(ps, bodies, info, p)
    requires (|bodies[p.i]| == RECORD ==> p.i > 0) && Ends(Follow(io.pages, rom, info.spage, fuel))
    requires Load(io.pages, rom, bm0, maxP, junk0) == Ok(m0) && forall k: byte :: Bit(bm[..], k) <==> PageBit(m0, k)
    modifies bm, io.Repr()
    ensures io.Valid()
    ensures Deletable(old(io.pages), rom, maxP, ps, bodies, p, info, fuel) ==>
      r.Ok? && AfterDelete(old(io.pages), io.pages, rom, maxP, ps, bodies, p, info, fuel, after)
    ensures r != Err(ReadOnly)
  {
    hide UncachedRead, PageIO.Valid, Follow, Directory, Deletable, AfterDelete, Released, Bit, PageBit, Rewritten,
         Freed, Store, Load, Put;
    after := [];
    ghost var pages, a0 := io.pages, bm[..];
    if Deletable(pages, rom, maxP, ps, bodies, p, info, fuel) {
      StartInside(pages, rom, maxP, ps, bodies, p, info, fuel);
    }
    r := ReleaseFile(io, rom, info.spage, bm, maxP, fuel);
    if r.Err? {
      return;
    }
    ghost var a1 := bm[..];
    r := DeleteEntry(io, rom, info, bm, maxP, ps, bodies, p);
    if r.Err? {
      return;
    }
    ghost var a2 := bm[..];
    var m2 := AsNumbers(bm);
    ghost var junk;
    r, junk := WriteBitMap(io, rom, m2, maxP);
    if Deletable(pages, rom, maxP, ps, bodies, p, info, fuel) {
      after := DeleteEffect(pages, rom, maxP, ps, bodies, p, info, fuel, bm0, junk0, m0, a0, a1, a2, m2, junk);
    }
  }

  /** The bitmap of a part with a deletable file can be read. */
  lemma MapLoads(pages: Pages, rom: Rom, maxP: byte, ps: seq<byte>, bodies: seq<seq<byte>>, p: Place, info: FileInfo,
                 fuel: nat,
                 bm0: Buffer, junk0: Buffer)
    requires Directory(pages, rom, ps, bodies) && p.i < |ps| && p.off + RECORD <= |bodies[p.i]|
    ensures Deletable(pages, rom, maxP, ps, bodies, p, info, fuel) ==> Load(pages, rom, bm0, maxP, junk0).Ok?
  {
    hide UncachedRead, Follow, Load;
    if Deletable(pages, rom, maxP, ps, bodies, p, info, fuel) {
      LoadBits(pages, rom, maxP, Full(0), Full(0), bm0, junk0);
    }
  }

  /** From the bitmap on, once the record is found. */
  method EraseFound(io: PageIO, rom: Rom, info: FileInfo, maxP: byte, ghost ps: seq<byte>, ghost bodies: seq<seq<byte>>,
                    ghost p: Place, ghost fuel: nat)
    returns (r: Result<()>, ghost after: seq<seq<byte>>)
    requires io.Valid() && !io.flaky && Directory(io.pages, rom, ps, bodies)
    requires p.i < |ps| && p.off + RECORD <= |bodies[p.i]| && (p.i == 0 ==> p.off >= RECORD)
    requires Takes(ps, bodies, info, p)
    requires (|bodies[p.i]| == RECORD ==> p.i > 0) && Ends(Follow(io.pages, rom, info.spage, fuel))
    modifies io.Repr()
    ensures io.Valid()
    ensures Deletable(old(io.pages), rom, maxP, ps, bodies, p, info, fuel) ==>
      r.Ok? && AfterDelete(old(io.pages), io.pages, rom, maxP, ps, bodies, p, info, fuel, after)
    ensures r != Err(ReadOnly)
  {
    hide UncachedRead, PageIO.Valid, Follow, Directory, Deletable, AfterDelete, Bit, PageBit, Rewritten, Load;
    ghost var pages := io.pages;
    after := [];
    var bmap := new byte[32];
    ghost var bm0, junk0 := bmap[..], bmap[..];
    r, junk0 := ReadBitMap(io, rom, bmap, maxP);
    if r.Err? {
      MapLoads(pages, rom, maxP, ps, bodies, p, info, fuel, bm0, junk0);
      return;
    }
    var bm := AsBits(bmap);
    r, after := Erase(io, rom, info, bm, maxP, ps, bodies, p, fuel, bm0, junk0, bmap[..]);
  }

  /** The start page of a chain within the part is within the part. */
  lemma StartInside(pages: Pages, rom: Rom, maxP: byte, ps: seq<byte>, bodies: seq<seq<byte>>, p: Place,
                    info: FileInfo, fuel: nat)
    requires Directory(pages, rom, ps, bodies) && p.i < |ps| && p.off + RECORD <= |bodies[p.i]|
    requires Takes(ps, bodies, info, p) && Deletable(pages, rom, maxP, ps, bodies, p, info, fuel)
    ensures var t := Follow(pages, rom, info.spage, fuel);
            t.end.Complete? && !OwExtFile.Beyond(t.ps, maxP)
    ensures info.spage <= maxP && (|bodies[p.i]| == RECORD ==> info.dpage <= maxP)
  {
    hide UncachedRead, BitMapPages, StoredMap;
    assert Follow(pages, rom, info.spage, fuel).ps[0] == info.spage;
  }

  // ---------- what a search leads to ----------

  /** The record a deletion takes for the place a search reported. */
  function Victim(bodies: seq<seq<byte>>, p: Place): (v: Place)
    requires p.i < |bodies| && RECORD <= |bodies[p.i]|
    ensures v.i == p.i && v.off + RECORD <= |bodies[p.i]|
  {
    if p.off + RECORD <= |bodies[p.i]| then p else Place(p.i, |bodies[p.i]| - RECORD)
  }

  /** The page has a record to lose: always so where the search is right. */
  predicate Losable(bodies: seq<seq<byte>>, p: Place)
    requires p.i < |bodies|
  {
    (if p.i == 0 then 2 * RECORD else RECORD) <= |bodies[p.i]|
  }

  /** What the deletion knows about its victim. */
  lemma VictimTaken(ps: seq<byte>, bodies: seq<seq<byte>>, stack: Scratch, name: Name, ext: byte)
    requires Formed(ps, bodies) && Target(ps, bodies, stack, name, ext).Some?
    requires Losable(bodies, Target(ps, bodies, stack, name, ext).value)
    ensures var p := Target(ps, bodies, stack, name, ext).value;
            var v := Victim(bodies, p);
            && Found(ps, bodies, stack, name, ext) == Ok(FoundInfo(ps, bodies, stack, p))
            && Takes(ps, bodies, FoundInfo(ps, bodies, stack, p), v)
            && (v.i == 0 ==> v.off >= RECORD) && (|bodies[v.i]| == RECORD ==> v.i > 0)
  {
    hide BufferAt, Search, FindFrom;
    SearchIs(ps, bodies, stack, 0, RECORD, name, ext);
  }

  /** Where the search is right, the deletion takes the first record of the name and the pages of its file. */
  lemma TargetRight(ps: seq<byte>, bodies: seq<seq<byte>>, stack: Scratch, name: Name, ext: byte)
    requires Formed(ps, bodies) && NoDuplicates(ps)
    requires Found(ps, bodies, stack, name, ext) == Lookup(ps, bodies, name, ext)
    ensures Target(ps, bodies, stack, name, ext) == FindFrom(bodies, 0, RECORD, name, ext)
    ensures Target(ps, bodies, stack, name, ext).Some? ==>
              var p := Target(ps, bodies, stack, name, ext).value;
              Losable(bodies, p) && Victim(bodies, p) == p && FoundInfo(ps, bodies, stack, p) == InfoAt(ps, bodies, p)
  {
    hide BufferAt, Search, FindFrom, Mistaken;
    SearchRightIff(ps, bodies, stack, name, ext);
    SearchIs(ps, bodies, stack, 0, RECORD, name, ext);
    if Target(ps, bodies, stack, name, ext).Some? {
      FoundIsInfo(ps, bodies, stack, Target(ps, bodies, stack, name, ext).value);
    }
  }

  /** Where the search for the file to delete ends. */
  function Target(ps: seq<byte>, bodies: seq<seq<byte>>, stack: Scratch, name: Name, ext: byte): Option<Place>
    requires Formed(ps, bodies)
  {
    Search(ps, bodies, stack, 0, RECORD, name, ext)
  }

  /** A file may not be deleted if its flag, bit 7 of the byte behind the name, is set; a directory may. */
  lemma MayDeleteIff(ps: seq<byte>, bodies: seq<seq<byte>>, stack: Scratch, name: Name, ext: byte)
    requires Formed(ps, bodies) && Target(ps, bodies, stack, name, ext).Some?
    ensures var p := Target(ps, bodies, stack, name, ext).value;
            var flags := BufferAt(ps, bodies, stack, p.i)[p.off + 4];
            MayDelete(FoundInfo(ps, bodies, stack, p)) <==> flags < 128 || flags % 128 == 0x7F
  {
    hide BufferAt, Search;
  }

  predicate MayDelete(info: FileInfo) { info.attrib != 1 || info.ext == 0x7F }

  /** The extension of add-files, which exist on write-once parts alone. */
  const ADD_FILE: byte := 100

  /**
   * owDeleteFile on a rewritable part: on a sound link the record the search led to, the pages of the file it
   * names and an emptied directory page are gone, and nothing else is. `stack` is what the search's buffer held.
   */
  method DeleteFile(io: PageIO, rom: Rom, start: byte, name: Name, ext: byte, maxP: byte, stack: Scratch,
                    ghost ps: seq<byte>, ghost bodies: seq<seq<byte>>, ghost fuel: nat)
    returns (r: Result<()>, ghost after: seq<seq<byte>>)
    requires io.Valid() && !io.flaky && Directory(io.pages, rom, ps, bodies) && ps[0] == start && Formed(ps, bodies)
    requires Target(ps, bodies, stack, name, ext).Some? ==>
      var p := Target(ps, bodies, stack, name, ext).value;
      Losable(bodies, p) && Ends(Follow(io.pages, rom, FoundInfo(ps, bodies, stack, p).spage, fuel))
    modifies io.Repr()
    ensures io.Valid()
    ensures ext == 100 ==> r == Err(WrongType) && io.pages == old(io.pages)
    ensures ext != 100 && Target(ps, bodies, stack, name, ext) == None ==>
      r == Err(FileNotFound) && io.pages == old(io.pages)
    ensures ext != 100 && Target(ps, bodies, stack, name, ext).Some? ==>
      var p := Target(ps, bodies, stack, name, ext).value;
      var info, v := FoundInfo(ps, bodies, stack, p), Victim(bodies, p);
      var flags := BufferAt(ps, bodies, stack, p.i)[p.off + 4];
      && (flags >= 128 && flags % 128 != 0x7F ==> r == Err(ReadOnly) && io.pages == old(io.pages))
      && (flags < 128 || flags % 128 == 0x7F ==> r != Err(ReadOnly))
      && (|bodies[v.i]| == RECORD ==> v.i > 0)
      && ((flags < 128 || flags % 128 == 0x7F) && Deletable(old(io.pages), rom, maxP, ps, bodies, v, info, fuel) ==>
            r.Ok? && AfterDelete(old(io.pages), io.pages, rom, maxP, ps, bodies, v, info, fuel, after))
  {
    hide UncachedRead, PageIO.Valid, Search, BufferAt, Follow, Directory, Deletable, AfterDelete, Rewritten, Found;
    after := [];
    if ext == ADD_FILE {
      return Err(WrongType), [];
    }
    ghost var p := Target(ps, bodies, stack, name, ext);
    if p.Some? {
      VictimTaken(ps, bodies, stack, name, ext);
      MayDeleteIff(ps, bodies, stack, name, ext);
    } else {
      NoTarget(ps, bodies, stack, name, ext);
    }
    var found := FindDirectoryInfo(io, rom, start, name, ext, stack, ps, bodies);
    if found.Err? {
      return Err(FileNotFound), [];
    }
    var info := found.value;
    if info.attrib == 1 && info.ext != 0x7F {
      return Err(ReadOnly), [];
    }
    r, after := EraseFound(io, rom, info, maxP, ps, bodies, Victim(bodies, p.value), fuel);
  }

  lemma NoTarget(ps: seq<byte>, bodies: seq<seq<byte>>, stack: Scratch, name: Name, ext: byte)
    requires Formed(ps, bodies) && Target(ps, bodies, stack, name, ext).None?
    ensures Found(ps, bodies, stack, name, ext).Err?
  {}

  /**
   * What a deletion does on the directory of WrongFile: asked for a name that no record on its first two pages has,
   * it reports success, frees the pages of the file of `r1`, which stays in the directory, and takes out `r4`.
   */
  method DeleteWrongFile(io: PageIO, rom: Rom, header: Record, r1: Record, r2: Record, r3: Record, r4: Record,
                         rest: seq<byte>, maxP: byte, stack: Scratch, ghost fuel: nat)
    returns (r: Result<()>, ghost after: seq<seq<byte>>)
    requires io.Valid() && !io.flaky
    requires Directory(io.pages, rom, WrongPages(), WrongBodies(header, r1, r2, r3, r4, rest))
    requires FirstMatch([r1, r2, r3, r4], WrongName(r1), r1[4] % 128) == None && r1[4] < 128 && r1[4] != 100
    requires Deletable(io.pages, rom, maxP, WrongPages(), WrongBodies(header, r1, r2, r3, r4, rest), Place(1, 0),
                       InfoOf([0x21] + r1[1..], 5, RECORD, 0), fuel)
    modifies io.Repr()
    ensures r.Ok? && Directory(io.pages, rom, [0, 0x21], after)
    ensures Entries(after) == Entries([header + r1 + r2 + r3, rest])
    ensures StoredMap(old(io.pages), rom, maxP).Ok? && StoredMap(io.pages, rom, maxP).Ok?
    ensures MapWithout(StoredMap(old(io.pages), rom, maxP).value, StoredMap(io.pages, rom, maxP).value, maxP,
                       Follow(old(io.pages), rom, r1[5], fuel).ps + [5, r1[5]])
  {
    hide UncachedRead, PageIO.Valid, Search, BufferAt, Follow, Directory, Deletable, Rewritten, Found, Entries;
    ghost var pages, ps, bodies := io.pages, WrongPages(), WrongBodies(header, r1, r2, r3, r4, rest);
    DirectoryFormed(pages, rom, ps, bodies);
    assert bodies[2] == rest;
    WrongFile(header, r1, r2, r3, r4, rest, stack);
    WrongBytes(header, r1, r2, r3, r4, rest, stack);
    WrongVictim(pages, rom, maxP, header, r1, r2, r3, r4, rest, fuel);
    r, after := DeleteFile(io, rom, 0, WrongName(r1), r1[4], maxP, stack, ps, bodies, fuel);
  }

  /** What is taken out of that directory, and that its file and its map are sound. */
  lemma WrongVictim(pages: Pages, rom: Rom, maxP: byte, header: Record, r1: Record, r2: Record, r3: Record, r4: Record,
                    rest: seq<byte>, fuel: nat)
    requires Directory(pages, rom, WrongPages(), WrongBodies(header, r1, r2, r3, r4, rest))
    requires Deletable(pages, rom, maxP, WrongPages(), WrongBodies(header, r1, r2, r3, r4, rest), Place(1, 0),
                       InfoOf([0x21] + r1[1..], 5, RECORD, 0), fuel)
    ensures var ps, bodies := WrongPages(), WrongBodies(header, r1, r2, r3, r4, rest);
            && PagesWithout(ps, bodies, 1) == [0, 0x21] && BodiesWithout(bodies, 1, 0) == [header + r1 + r2 + r3, rest]
            && Freed(InfoOf([0x21] + r1[1..], 5, RECORD, 0), bodies, 1) == [5, r1[5]]
    ensures Ends(Follow(pages, rom, r1[5], fuel)) && StoredMap(pages, rom, maxP).Ok?
  {
    hide UncachedRead, Follow, StoredMap, BitMapPages;
    assert ([0x21] + r1[1..])[5] == r1[5];
  }
}

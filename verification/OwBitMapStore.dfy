/**
 * Where the page bitmap lives on the part (ReadBitMap and WriteBitMap of owfile.c): in the root page
 * itself, on one remote page, or on a chain of two.
 */
module OwBitMapStore {
  import opened Bytes
  import opened OwPageIO
  import opened Results

  /** The client's bitmap buffer, and its page buffers. */
  type Buffer = s: seq<byte> | |s| == 32 witness seq(32, _ => 0)

  /** A page buffer after a read: what lies behind the page data was there before. */
  function Loaded(junk: Buffer, data: seq<byte>): Buffer
    requires |data| <= 32
  {
    data + junk[|data|..]
  }

  datatype Layout = Local | OnePage(pg: byte) | TwoPages(pg: byte)

  /** The layout the root page names. */
  function LayoutOf(root: Buffer, maxP: byte): Layout {
    if root[2] >= 128 then Local else if maxP > 224 then TwoPages(root[5]) else OnePage(root[5])
  }

  predicate IsDirectory(root: Buffer) { root[0] == 0xAA && root[1] == 0 }

  /** The number of bitmap bytes WriteBitMap stores. */
  function StoredBytes(maxP: byte): (b: nat)
    ensures 8 * b <= maxP + 7 && maxP <= 8 * b && b <= 32
  {
    maxP / 8 + (if maxP % 8 != 0 then 1 else 0)
  }

  /** Write_Page on a sound link. */
  function Wrote(pages: Pages, rom: Rom, pg: byte, buf: seq<byte>): Result<Pages> {
    if |buf| > 29 then Err(InvalidPacketLength)
    else if (rom, pg) !in pages then Err(LinkFailed)
    else Ok(Written(pages, rom, pg, buf))
  }

  /** The root page with the bitmap in it. */
  function RootWith(root: Buffer, bm: Buffer, maxP: byte): (r: Buffer)
    requires maxP <= 32
  {
    root[..3] + bm[..StoredBytes(maxP)] + seq(4 - StoredBytes(maxP), _ => 0) + root[7..]
  }

  /** Two bitmap pages: the first is only rewritten if it changes, and names the second. */
  function StoreTwo(pages: Pages, rom: Rom, pg: byte, bm: Buffer, maxP: byte): Result<Pages>
    requires maxP > 224
  {
    match UncachedRead(pages, rom, pg)
    case Err(e) => Err(e)
    case Ok(d1) =>
      if |d1| != 29 then Err(FileReadErr)
      else
        var first := if d1[..28] == bm[..28] then Ok(pages) else Wrote(pages, rom, pg, bm[..28] + [d1[28]]);
        match first
        case Err(e) => Err(e)
        case Ok(pages1) => Wrote(pages1, rom, d1[28], bm[28..StoredBytes(maxP)] + [0])
  }

  /** WriteBitMap on a sound link. */
  function Store(pages: Pages, rom: Rom, bm: Buffer, maxP: byte, junk: Buffer): Result<Pages> {
    match UncachedRead(pages, rom, 0)
    case Err(e) => Err(e)
    case Ok(d) =>
      var root := Loaded(junk, d);
      var b := StoredBytes(maxP);
      if !IsDirectory(root) then Err(FileReadErr)
      else
        match LayoutOf(root, maxP)
        case Local => if maxP > 32 then Err(FileReadErr) else Wrote(pages, rom, 0, RootWith(root, bm, maxP)[..|d|])
        case OnePage(pg) => Wrote(pages, rom, pg, bm[..b] + [0])
        case TwoPages(pg) => StoreTwo(pages, rom, pg, bm, maxP)
  }

  /** The remote bitmap pages; they are accepted if they hold (maxP + 1) / 8 bytes. */
  function LoadRemote(pages: Pages, rom: Rom, pg: byte, bm0: Buffer, maxP: byte): Result<Buffer> {
    match UncachedRead(pages, rom, pg)
    case Err(e) => Err(e)
    case Ok(d1) =>
      if maxP <= 224 then
        if (maxP + 1) / 8 != |d1| - 1 || d1[|d1| - 1] != 0 then Err(FileReadErr)
        else Ok(Overwrite(bm0, 0, d1[..|d1| - 1]))
      else if |d1| != 29 || d1[28] == 0 then Err(FileReadErr)
      else
        match UncachedRead(pages, rom, d1[28])
        case Err(e) => Err(e)
        case Ok(d2) =>
          if 27 + |d2| != (maxP + 1) / 8 then Err(FileReadErr)
          else Ok(Overwrite(Overwrite(bm0, 0, d1[..28]), 28, d2[..|d2| - 1]))
  }

  /** ReadBitMap on a sound link, into a buffer that held `bm0`. */
  function Load(pages: Pages, rom: Rom, bm0: Buffer, maxP: byte, junk: Buffer): Result<Buffer> {
    match UncachedRead(pages, rom, 0)
    case Err(e) => Err(e)
    case Ok(d) =>
      var root := Loaded(junk, d);
      if !IsDirectory(root) then Err(FileReadErr)
      else
        match LayoutOf(root, maxP)
        case Local =>
          if maxP > 32 then Err(FileReadErr)
          else
            var cleared := Overwrite(bm0, 0, seq(|d|, _ => 0));
            Ok(Overwrite(cleared, 0, root[3..maxP / 8 + 4]))
        case OnePage(pg) => LoadRemote(pages, rom, pg, bm0, maxP)
        case TwoPages(pg) => LoadRemote(pages, rom, pg, bm0, maxP)
  }

  // ---------- the code ----------

  /** Read_Page into the page buffer. */
  method ReadInto(io: PageIO, rom: Rom, pg: byte, pgbuf: array<byte>) returns (r: Result<nat>)
    requires io.Valid() && pgbuf.Length == 32 && pgbuf as object !in io.Repr()
    modifies io.Repr() - {io}, pgbuf
    ensures io.Valid()
    ensures r.Ok? || !io.flaky ==>
      match UncachedRead(io.pages, rom, pg)
      case Ok(d) => r == Ok(|d|) && |d| < 32 && pgbuf[..] == Loaded(old(pgbuf[..]), d)
      case Err(e) => r == Err(e)
    ensures r.Err? ==> r.error != ReadOnly
  {
    var t: Ticks := *;
    var page := io.ReadPage(rom, pg, t);
    if page.Err? {
      return Err(page.error);
    }
    CopyIn(pgbuf, 0, page.value);
    return Ok(|page.value|);
  }

  /** Write_Page from the page buffer. */
  method WriteFrom(io: PageIO, rom: Rom, pg: byte, buf: seq<byte>) returns (r: Result<()>)
    requires io.Valid()
    modifies io.Repr()
    ensures io.Valid()
    ensures r.Ok? ==> Wrote(old(io.pages), rom, pg, buf) == Ok(io.pages)
    ensures r.Err? ==> io.pages == old(io.pages)
    ensures !io.flaky ==> match Wrote(old(io.pages), rom, pg, buf) case Ok(_) => r.Ok? case Err(e) => r == Err(e)
    ensures r != Err(ReadOnly)
  {
    var t: Ticks := *;
    r := io.WritePage(rom, buf, pg, t);
  }

  /** The bitmap page of a one-page map, built in the page buffer. */
  method BuildOnly(pgbuf: array<byte>, bm: Buffer, maxP: byte) returns (len: nat)
    requires pgbuf.Length == 32 && maxP <= 224
    modifies pgbuf
    ensures len <= 32 && pgbuf[..len] == bm[..StoredBytes(maxP)] + [0]
  {
    var b := StoredBytes(maxP);
    CopyIn(pgbuf, 0, bm[..b]);
    pgbuf[b] := 0;
    len := b + 1;
  }

  /** The second page of a two-page map. */
  method BuildSecond(pgbuf: array<byte>, bm: Buffer, maxP: byte) returns (len: nat)
    requires pgbuf.Length == 32 && maxP > 224
    modifies pgbuf
    ensures len <= 32 && pgbuf[..len] == bm[28..StoredBytes(maxP)] + [0]
  {
    var b := StoredBytes(maxP);
    CopyIn(pgbuf, 0, bm[28..b]);
    pgbuf[b - 28] := 0;
    len := b - 27;
  }

  /** The root page with the bitmap in it, built in the page buffer. */
  method BuildRoot(pgbuf: array<byte>, bm: Buffer, maxP: byte)
    requires pgbuf.Length == 32 && maxP <= 32
    modifies pgbuf
    ensures pgbuf[..] == RootWith(old(pgbuf[..]), bm, maxP)
  {
    var b := StoredBytes(maxP);
    ghost var root := pgbuf[..];
    CopyIn(pgbuf, 3, seq(4, _ => 0));
    CopyIn(pgbuf, 3, bm[..b]);
    assert pgbuf[..] == RootWith(root, bm, maxP);
  }

  /** The comparing copy over the first page of a two-page map. */
  method Refresh(pgbuf: array<byte>, bm: Buffer) returns (flag: bool)
    requires pgbuf.Length == 32
    modifies pgbuf
    ensures flag <==> old(pgbuf[..28]) != bm[..28]
    ensures pgbuf[..] == Overwrite(old(pgbuf[..]), 0, bm[..28])
  {
    flag := false;
    ghost var was := pgbuf[..];
    for i := 0 to 28
      invariant pgbuf[..i] == bm[..i] && pgbuf[i..] == was[i..]
      invariant flag <==> was[..i] != bm[..i]
    {
      assert was[..i + 1] == was[..i] + [was[i]] && bm[..i + 1] == bm[..i] + [bm[i]];
      if pgbuf[i] != bm[i] {
        flag := true;
        pgbuf[i] := bm[i];
      }
    }
    OverwriteFrame(was, pgbuf[..], 0, bm[..28]);
  }

  /** What a failed WriteTwo may leave behind: nothing new, or page `tpg` rewritten with its old continuation byte. */
  predicate PartialTwo(pages: Pages, pages': Pages, rom: Rom, tpg: byte, bm: Buffer) {
    || pages' == pages
    || (var d := UncachedRead(pages, rom, tpg);
        d.Ok? && |d.value| == 29 && Wrote(pages, rom, tpg, bm[..28] + [d.value[28]]) == Ok(pages'))
  }

  /** What a failed WriteBitMap may leave behind: only with two bitmap pages, the first of them rewritten. */
  predicate Partial(pages: Pages, pages': Pages, rom: Rom, bm: Buffer, maxP: byte, junk: Buffer) {
    || pages' == pages
    || (var d := UncachedRead(pages, rom, 0);
        d.Ok? && LayoutOf(Loaded(junk, d.value), maxP).TwoPages? && IsDirectory(Loaded(junk, d.value))
        && PartialTwo(pages, pages', rom, LayoutOf(Loaded(junk, d.value), maxP).pg, bm))
  }

  /** WriteBitMap's part for two bitmap pages. */
  method WriteTwo(io: PageIO, rom: Rom, tpg: byte, bm: Buffer, maxP: byte, pgbuf: array<byte>) returns (r: Result<()>)
    requires io.Valid() && maxP > 224 && pgbuf.Length == 32 && pgbuf as object !in io.Repr()
    modifies io.Repr(), pgbuf
    ensures io.Valid()
    ensures r.Ok? ==> StoreTwo(old(io.pages), rom, tpg, bm, maxP) == Ok(io.pages)
    ensures !io.flaky ==>
              match StoreTwo(old(io.pages), rom, tpg, bm, maxP) case Ok(_) => r.Ok? case Err(e) => r == Err(e)
    ensures r.Err? ==> PartialTwo(old(io.pages), io.pages, rom, tpg, bm)
    ensures r != Err(ReadOnly)
  {
    hide UncachedRead, Wrote, PageIO.Valid;
    ghost var pages := io.pages;
    var got := ReadInto(io, rom, tpg, pgbuf);
    if got.Err? {
      return Err(got.error);
    }
    var len := got.value;
    if len != 29 {
      return Err(FileReadErr);
    }
    var pg := pgbuf[len - 1];
    ghost var d := UncachedRead(pages, rom, tpg).value;
    assert pgbuf[..28] == d[..28] && pgbuf[28] == d[28];
    var flag := Refresh(pgbuf, bm);
    if flag {
      assert pgbuf[..len] == bm[..28] + [pg];
      r := WriteFrom(io, rom, tpg, pgbuf[..len]);
      if r.Err? {
        return;
      }
    }
    len := BuildSecond(pgbuf, bm, maxP);
    r := WriteFrom(io, rom, pg, pgbuf[..len]);
  }

  /** WriteBitMap; `junk` is what the uninitialised page buffer held. */
  method WriteBitMap(io: PageIO, rom: Rom, bm: Buffer, maxP: byte) returns (r: Result<()>, ghost junk: Buffer)
    requires io.Valid()
    modifies io.Repr()
    ensures io.Valid()
    ensures r.Ok? ==> Store(old(io.pages), rom, bm, maxP, junk) == Ok(io.pages)
    ensures !io.flaky ==> match Store(old(io.pages), rom, bm, maxP, junk) case Ok(_) => r.Ok? case Err(e) => r == Err(e)
    ensures r.Err? ==> Partial(old(io.pages), io.pages, rom, bm, maxP, junk)
    ensures r != Err(ReadOnly)
  {
    hide UncachedRead, Wrote, PageIO.Valid, StoreTwo, RootWith, PartialTwo;
    var pgbuf := new byte[32];
    junk := pgbuf[..];
    var got := ReadInto(io, rom, 0, pgbuf);
    if got.Err? {
      r := Err(got.error);
      return;
    }
    var len := got.value;
    if pgbuf[0] != 0xAA || pgbuf[1] != 0x00 {
      r := Err(FileReadErr);
      return;
    }
    if pgbuf[2] >= 128 {
      if maxP > 32 {
        r := Err(FileReadErr);
        return;
      }
      BuildRoot(pgbuf, bm, maxP);
      r := WriteFrom(io, rom, 0, pgbuf[..len]);
    } else {
      var pg := pgbuf[5];
      if maxP > 224 {
        r := WriteTwo(io, rom, pg, bm, maxP, pgbuf);
      } else {
        len := BuildOnly(pgbuf, bm, maxP);
        r := WriteFrom(io, rom, pg, pgbuf[..len]);
      }
    }
  }

  /** ReadBitMap's copy of one or two bitmap pages. */
  method ReadRemote(io: PageIO, rom: Rom, pg: byte, bmap: array<byte>, maxP: byte, pgbuf: array<byte>)
    returns (r: Result<()>)
    requires io.Valid() && bmap.Length == 32 && pgbuf.Length == 32 && pgbuf != bmap
    requires pgbuf as object !in io.Repr() && bmap as object !in io.Repr()
    modifies io.Repr() - {io}, bmap, pgbuf
    ensures io.Valid()
    ensures r.Ok? || !io.flaky ==>
      match LoadRemote(io.pages, rom, pg, old(bmap[..]), maxP)
      case Ok(m) => r.Ok? && bmap[..] == m
      case Err(e) => r == Err(e)
    ensures r != Err(ReadOnly)
  {
    hide UncachedRead, PageIO.Valid;
    var got := ReadInto(io, rom, pg, pgbuf);
    if got.Err? {
      return Err(got.error);
    }
    var len: int := got.value;
    if maxP > 224 {
      if len != 29 || pgbuf[len - 1] == 0 {
        return Err(FileReadErr);
      }
    } else if (maxP + 1) / 8 != len - 1 || pgbuf[len - 1] != 0 {
      return Err(FileReadErr);
    }
    ghost var d1 := UncachedRead(io.pages, rom, pg).value;
    assert pgbuf[..len - 1] == d1[..len - 1] && pgbuf[len - 1] == d1[len - 1];
    CopyIn(bmap, 0, pgbuf[..len - 1]);
    var next := pgbuf[len - 1];
    if next != 0 {
      got := ReadInto(io, rom, next, pgbuf);
      if got.Err? {
        return Err(got.error);
      }
      len := got.value;
      if 27 + len != (maxP + 1) / 8 {
        return Err(FileReadErr);
      }
      ghost var d2 := UncachedRead(io.pages, rom, next).value;
      assert pgbuf[..len - 1] == d2[..len - 1];
      CopyIn(bmap, 28, pgbuf[..len - 1]);
    }
    return Ok(());
  }

  /** ReadBitMap; `junk` is what the uninitialised page buffer held. */
  method ReadBitMap(io: PageIO, rom: Rom, bmap: array<byte>, maxP: byte) returns (r: Result<()>, ghost junk: Buffer)
    requires io.Valid() && bmap.Length == 32 && bmap as object !in io.Repr()
    modifies io.Repr() - {io}, bmap
    ensures io.Valid()
    ensures r.Ok? || !io.flaky ==>
      match Load(io.pages, rom, old(bmap[..]), maxP, junk)
      case Ok(m) => r.Ok? && bmap[..] == m
      case Err(e) => r == Err(e)
    ensures r != Err(ReadOnly)
  {
    hide UncachedRead, PageIO.Valid, LoadRemote;
    var pgbuf := new byte[32];
    junk := pgbuf[..];
    var got := ReadInto(io, rom, 0, pgbuf);
    if got.Err? {
      r := Err(got.error);
      return;
    }
    var len := got.value;
    if pgbuf[0] != 0xAA || pgbuf[1] != 0x00 {
      r := Err(FileReadErr);
      return;
    }
    if pgbuf[2] >= 128 {
      if maxP > 32 {
        r := Err(FileReadErr);
        return;
      }
      CopyIn(bmap, 0, seq(len, _ => 0));
      CopyIn(bmap, 0, pgbuf[3..maxP / 8 + 4]);
      r := Ok(());
    } else {
      r := ReadRemote(io, rom, pgbuf[5], bmap, maxP, pgbuf);
    }
  }
}

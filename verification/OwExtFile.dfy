/**
 * Extended files (owpgrw.c): a file is a chain of pages, 28 data bytes each, whose last byte names
 * the next page; 0 ends the chain.
 */
module OwExtFile {
  import opened Bytes
  import opened OwCache
  import opened OwPageIO
  import opened OwBitMap
  import opened Results

  const CHUNK: nat := 28

  /** Number of pages a non-empty file takes. */
  function PageCount(len: nat): (n: nat)
    ensures n > 0
  {
    len / CHUNK + (if len % CHUNK != 0 || len == 0 then 1 else 0)
  }

  /** The data bytes of page `i` of a file. */
  function Chunk(file: seq<byte>, i: nat): seq<byte>
    requires i < PageCount(|file|)
  {
    var len := |file| - i * CHUNK;
    file[i * CHUNK..i * CHUNK + if len > CHUNK then CHUNK else len]
  }

  /** The chunks of a non-empty file follow each other and make up the file. */
  lemma ChunkFacts(file: seq<byte>, i: nat)
    requires |file| > 0 && i < PageCount(|file|)
    ensures i * CHUNK < |file| && 0 < |Chunk(file, i)| <= CHUNK
    ensures i + 1 < PageCount(|file|) ==>
              (i + 1) * CHUNK < |file| && file[i * CHUNK..] == Chunk(file, i) + file[(i + 1) * CHUNK..]
    ensures i + 1 == PageCount(|file|) ==> file[i * CHUNK..] == Chunk(file, i)
  {}

  // ---------- reading chains ----------

  /** How a chain of pages ends. */
  datatype End = Complete | Broken(error: Error) | NoPointer | OutOfFuel

  /** The pages of a chain, the bytes on them without the continuation bytes, and its end. */
  datatype Trail = Trail(ps: seq<byte>, content: seq<byte>, end: End)

  /** The chain that starts at page `pg`, followed for at most `fuel` pages. */
  function Follow(pages: Pages, rom: Rom, pg: byte, fuel: nat): Trail
    decreases fuel
  {
    if fuel == 0 then Trail([], [], OutOfFuel)
    else
      match UncachedRead(pages, rom, pg)
      case Err(e) => Trail([pg], [], Broken(e))
      case Ok(d) =>
        if |d| == 0 then Trail([pg], [], NoPointer)
        else
          var data := d[..|d| - 1];
          if Last(d) == 0 then Trail([pg], data, Complete)
          else
            var t := Follow(pages, rom, Last(d), fuel - 1);
            Trail([pg] + t.ps, data + t.content, t.end)
  }

  /** The chain ends within `fuel` pages, and each of its pages has a continuation byte. */
  predicate Ends(t: Trail) { t.end.Complete? || t.end.Broken? }

  /** The page has a continuation byte that names another page. */
  predicate GoesOn(pages: Pages, rom: Rom, pg: byte) {
    var d := UncachedRead(pages, rom, pg);
    d.Ok? && |d.value| > 0 && Last(d.value) != 0
  }

  /** A chain that goes on. */
  lemma FollowNext(pages: Pages, rom: Rom, pg: byte, fuel: nat)
    requires fuel > 0 && GoesOn(pages, rom, pg)
    ensures var d, t := UncachedRead(pages, rom, pg).value,
              Follow(pages, rom, Last(UncachedRead(pages, rom, pg).value), fuel - 1);
            Follow(pages, rom, pg, fuel) == Trail([pg] + t.ps, d[..|d| - 1] + t.content, t.end)
  {
    hide UncachedRead;
  }

  /** The last page of a chain. */
  lemma FollowLast(pages: Pages, rom: Rom, pg: byte)
    requires var d := UncachedRead(pages, rom, pg); d.Ok? && |d.value| > 0 && Last(d.value) == 0
    ensures var d := UncachedRead(pages, rom, pg).value;
            Follow(pages, rom, pg, 1) == Trail([pg], d[..|d| - 1], Complete)
  {
    hide UncachedRead;
  }

  /** A chain that ends with this page. */
  lemma FollowEnd(pages: Pages, pages': Pages, rom: Rom, pg: byte, fuel: nat)
    requires fuel == 0 || (!GoesOn(pages, rom, pg) && UncachedRead(pages', rom, pg) == UncachedRead(pages, rom, pg))
    ensures Follow(pages', rom, pg, fuel) == Follow(pages, rom, pg, fuel)
  {
    hide UncachedRead;
  }

  lemma FollowFirst(pages: Pages, rom: Rom, pg: byte, fuel: nat)
    requires fuel > 0
    ensures var ps := Follow(pages, rom, pg, fuel).ps; ps != [] && ps[0] == pg
  {
    hide UncachedRead;
  }

  /** Reading only looks at the pages of the chain. */
  lemma {:induction false} FollowFrame(pages: Pages, pages': Pages, rom: Rom, pg: byte, fuel: nat)
    requires forall p :: p in Follow(pages, rom, pg, fuel).ps ==>
               UncachedRead(pages', rom, p) == UncachedRead(pages, rom, p)
    ensures Follow(pages', rom, pg, fuel) == Follow(pages, rom, pg, fuel)
    decreases fuel
  {
    hide UncachedRead, Follow;
    if fuel > 0 {
      FollowFirst(pages, rom, pg, fuel);
    }
    if fuel > 0 && GoesOn(pages, rom, pg) {
      FollowNext(pages, rom, pg, fuel);
      FollowNext(pages', rom, pg, fuel);
      FollowFrame(pages, pages', rom, Last(UncachedRead(pages, rom, pg).value), fuel - 1);
    } else {
      FollowEnd(pages, pages', rom, pg, fuel);
    }
  }

  // ---------- writing chains ----------

  function Put(pages: Pages, rom: Rom, pg: byte, buf: seq<byte>): Pages {
    if (rom, pg) in pages && |buf| <= 29 then Written(pages, rom, pg, buf) else pages
  }

  /** The pages after writing `segs[i]` to page `ps[i]`, in order. */
  ghost function WriteAll(pages: Pages, rom: Rom, ps: seq<byte>, segs: seq<seq<byte>>): Pages
    requires |ps| == |segs|
    decreases |ps|
  {
    if ps == [] then pages
    else Put(WriteAll(pages, rom, ps[..|ps| - 1], segs[..|ps| - 1]), rom, Last(ps), Last(segs))
  }

  lemma ReadPut(pages: Pages, rom: Rom, pg: byte, buf: seq<byte>, r: Rom, p: byte)
    requires |buf| <= 29
    ensures UncachedRead(Put(pages, rom, pg, buf), r, p)
         == if (r, p) == (rom, pg) && (rom, pg) in pages then Ok(buf) else UncachedRead(pages, r, p)
    ensures Put(pages, rom, pg, buf).Keys == pages.Keys
  {}

  /** Pages that are not written read as before. */
  lemma {:induction false} WriteAllFrame(pages: Pages, rom: Rom, ps: seq<byte>, segs: seq<seq<byte>>, r: Rom, p: byte)
    requires |ps| == |segs| && forall i :: 0 <= i < |segs| ==> |segs[i]| <= 29
    ensures WriteAll(pages, rom, ps, segs).Keys == pages.Keys
    ensures r != rom || p !in ps ==> UncachedRead(WriteAll(pages, rom, ps, segs), r, p) == UncachedRead(pages, r, p)
    decreases |ps|
  {
    hide UncachedRead, Put;
    if ps != [] {
      var n := |ps| - 1;
      WriteAllFrame(pages, rom, ps[..n], segs[..n], r, p);
      ReadPut(WriteAll(pages, rom, ps[..n], segs[..n]), rom, Last(ps), Last(segs), r, p);
    }
  }

  /** Distinct pages read back what was written to them. */
  lemma {:induction false} ReadWriteAll(pages: Pages, rom: Rom, ps: seq<byte>, segs: seq<seq<byte>>, k: nat)
    requires |ps| == |segs| && forall i :: 0 <= i < |segs| ==> |segs[i]| <= 29
    requires NoDuplicates(ps) && k < |ps| && (rom, ps[k]) in pages
    ensures UncachedRead(WriteAll(pages, rom, ps, segs), rom, ps[k]) == Ok(segs[k])
    decreases |ps|
  {
    hide UncachedRead, Put;
    var n := |ps| - 1;
    var before := WriteAll(pages, rom, ps[..n], segs[..n]);
    WriteAllFrame(pages, rom, ps[..n], segs[..n], rom, ps[k]);
    ReadPut(before, rom, Last(ps), Last(segs), rom, ps[k]);
    if k < n {
      ReadWriteAll(pages, rom, ps[..n], segs[..n], k);
    }
  }

  /** Each page of the chain holds its chunk of the file and the number of the next page. */
  ghost predicate Laid(pages: Pages, rom: Rom, ps: seq<byte>, file: seq<byte>) {
    && |ps| == PageCount(|file|)
    && forall i :: 0 <= i < |ps| ==> UncachedRead(pages, rom, ps[i]) == Ok(Chunk(file, i) + [NextOf(ps, i)])
  }

  function NextOf(ps: seq<byte>, i: nat): byte { if i + 1 < |ps| then ps[i + 1] else 0 }

  /** A laid-out file is read back whole. */
  lemma {:induction false} FollowLaid(pages: Pages, rom: Rom, ps: seq<byte>, file: seq<byte>, j: nat)
    requires Laid(pages, rom, ps, file) && j < |ps| && |file| > 0
    requires forall i :: 1 <= i < |ps| ==> ps[i] != 0
    ensures j * CHUNK <= |file|
    ensures Follow(pages, rom, ps[j], |ps| - j) == Trail(ps[j..], file[j * CHUNK..], Complete)
    decreases |ps| - j
  {
    hide UncachedRead, Chunk, PageCount, Follow;
    ChunkFacts(file, j);
    var d := Chunk(file, j) + [NextOf(ps, j)];
    assert UncachedRead(pages, rom, ps[j]) == Ok(d);
    assert d[..|d| - 1] == Chunk(file, j);
    if j + 1 < |ps| {
      FollowNext(pages, rom, ps[j], |ps| - j);
      FollowLaid(pages, rom, ps, file, j + 1);
      assert ps[j..] == [ps[j]] + ps[j + 1..];
    } else {
      FollowLast(pages, rom, ps[j]);
      assert ps[j..] == [ps[j]];
    }
  }

  // ---------- ExtWrite ----------

  /** The pages ExtWrite uses, in order: the start page, then the lowest free pages, as many as there are. */
  function PlanOf(free: seq<byte>, strt: byte, n: nat): (plan: seq<byte>)
    requires n > 0
    ensures |plan| == (if n <= |Remove(free, strt)| + 1 then n else |Remove(free, strt)| + 1)
  {
    var rest := Remove(free, strt);
    [strt] + if n - 1 <= |rest| then rest[..n - 1] else rest
  }

  /** What ExtWrite puts on page `i`: a chunk and a continuation byte computed before the page is claimed. */
  function SegOf(file: seq<byte>, free: seq<byte>, strt: byte, i: nat): seq<byte>
    requires i < PageCount(|file|)
  {
    Chunk(file, i)
      + [if i == PageCount(|file|) - 1 then 0 else if i == 0 then At(free, 0) else At(Remove(free, strt), i)]
  }

  function SegsOf(file: seq<byte>, free: seq<byte>, strt: byte, m: nat): (segs: seq<seq<byte>>)
    requires m <= PageCount(|file|)
    ensures |segs| == m
  {
    seq(m, i requires 0 <= i < m => SegOf(file, free, strt, i))
  }

  /** `bm'` is `bm` with the pages `ps` claimed. */
  ghost predicate Claimed(bm: seq<bv8>, bm': seq<bv8>, ps: seq<byte>) {
    |bm'| == |bm| && forall j: nat :: j < 8 * |bm| ==> (Bit(bm', j) <==> Bit(bm, j) || j in ps)
  }

  /** `bm'` is `bm` with the pages `ps` released. */
  ghost predicate Released(bm: seq<bv8>, bm': seq<bv8>, ps: seq<byte>) {
    |bm'| == |bm| && forall j: nat :: j < 8 * |bm| ==> (Bit(bm', j) <==> Bit(bm, j) && j !in ps)
  }

  lemma ClaimOne(bm: seq<bv8>, bm1: seq<bv8>, bm2: seq<bv8>, ps: seq<byte>, p: byte)
    requires Covers(bm, p) && Claimed(bm, bm1, ps) && Changed(bm1, bm2, p, true)
    ensures Claimed(bm, bm2, ps + [p])
  {
    hide Bit;
  }

  lemma ReleaseOne(bm: seq<bv8>, bm1: seq<bv8>, bm2: seq<bv8>, ps: seq<byte>, p: byte)
    requires Covers(bm, p) && Released(bm, bm1, ps) && Changed(bm1, bm2, p, false)
    ensures Released(bm, bm2, ps + [p])
  {
    hide Bit;
  }

  /** The loop of ExtWrite is out of space. */
  predicate NoSpace(free: seq<byte>, strt: byte, n: nat) {
    free == [] || free[0] == 0 || n > |Remove(free, strt)| + 1
  }

  /** The free list after the first `i` pages of the plan have been claimed, and the page claimed next. */
  lemma ClaimNext(free: seq<byte>, strt: byte, n: nat, i: nat)
    requires n > 0 && i < |PlanOf(free, strt, n)|
    ensures Remove(FreeAfter(free, strt, i), PlanOf(free, strt, n)[i]) == FreeAfter(free, strt, i + 1)
    ensures i > 0 ==> PlanOf(free, strt, n)[i] == FreeAfter(free, strt, i)[0]
  {
    if i > 0 {
      var rest := Remove(free, strt);
      assert rest[i - 1..][1..] == rest[i..];
    }
  }

  function FreeAfter(free: seq<byte>, strt: byte, i: nat): seq<byte>
    requires i <= |Remove(free, strt)| + 1
  {
    if i == 0 then free else Remove(free, strt)[i - 1..]
  }

  /** What holds after `i` pages of the plan have been written and claimed. */
  ghost predicate Progress(pages0: Pages, pages: Pages, rom: Rom, bm0: seq<bv8>, bm: seq<bv8>, maxP: byte,
                           strt: byte, file: seq<byte>, i: nat)
    requires |file| > 0 && Covers(bm0, maxP)
  {
    var free := FreeList(bm0, maxP);
    var plan := PlanOf(free, strt, PageCount(|file|));
    var segs := SegsOf(file, free, strt, |plan|);
    && i <= |plan| && |bm| == |bm0|
    && pages == WriteAll(pages0, rom, plan[..i], segs[..i]) && pages.Keys == pages0.Keys
    && Claimed(bm0, bm, plan[..i])
    && FreeList(bm, maxP) == FreeAfter(free, strt, i)
  }

  lemma Start(pages0: Pages, rom: Rom, bm0: seq<bv8>, maxP: byte, strt: byte, file: seq<byte>)
    requires |file| > 0 && Covers(bm0, maxP)
    ensures Progress(pages0, pages0, rom, bm0, bm0, maxP, strt, file, 0)
  {}

  lemma FreeNow(pages0: Pages, pages: Pages, rom: Rom, bm0: seq<bv8>, bm: seq<bv8>, maxP: byte, strt: byte,
                file: seq<byte>, i: nat)
    requires |file| > 0 && Covers(bm0, maxP) && Progress(pages0, pages, rom, bm0, bm, maxP, strt, file, i)
    ensures i <= |PlanOf(FreeList(bm0, maxP), strt, PageCount(|file|))| && |bm| == |bm0| && pages.Keys == pages0.Keys
    ensures FreeList(bm, maxP) == FreeAfter(FreeList(bm0, maxP), strt, i)
  {}

  /** Writing and claiming the next page of the plan. */
  lemma Advance(pages0: Pages, pages: Pages, pages': Pages, rom: Rom, bm0: seq<bv8>, bm: seq<bv8>, bm': seq<bv8>,
                maxP: byte,
                strt: byte, file: seq<byte>, i: nat)
    requires |file| > 0 && Covers(bm0, maxP) && Progress(pages0, pages, rom, bm0, bm, maxP, strt, file, i)
    requires var free := FreeList(bm0, maxP);
             var plan := PlanOf(free, strt, PageCount(|file|));
             && i < |plan| && plan[i] <= maxP
             && pages' == Put(pages, rom, plan[i], SegOf(file, free, strt, i)) && pages'.Keys == pages.Keys
             && Changed(bm, bm', plan[i], true)
    ensures Progress(pages0, pages', rom, bm0, bm', maxP, strt, file, i + 1)
  {
    hide Bit, Put, SegOf, FreeAfter;
    var free := FreeList(bm0, maxP);
    var plan := PlanOf(free, strt, PageCount(|file|));
    var segs := SegsOf(file, free, strt, |plan|);
    ClaimNext(free, strt, PageCount(|file|), i);
    ClaimOne(bm0, bm, bm', plan[..i], plan[i]);
    assert plan[..i + 1] == plan[..i] + [plan[i]];
    assert segs[..i + 1] == segs[..i] + [segs[i]];
    MarkFree(bm, bm', plan[i], 0, maxP);
  }

  /** What FindEmpties reports after `i` pages: the next page of the plan and the one after it, or the lack of space. */
  lemma Upcoming(bm0: seq<bv8>, maxP: byte, strt: byte, file: seq<byte>, i: nat)
    requires |file| > 0 && Covers(bm0, maxP)
    requires var free := FreeList(bm0, maxP);
             free != [] && free[0] != 0 && 0 < i < PageCount(|file|) && i <= |PlanOf(free, strt, PageCount(|file|))|
    ensures var n, free := PageCount(|file|), FreeList(bm0, maxP);
            var plan, left := PlanOf(free, strt, n), FreeAfter(free, strt, i);
            && (At(left, 0) == 0 <==> i == |plan|)
            && (i == |plan| ==> NoSpace(free, strt, n))
            && (i < |plan| ==> plan[i] == At(left, 0) && plan[i] <= maxP
                               && SegOf(file, free, strt, i)
                                 == Chunk(file, i) + [if i == n - 1 then 0 else At(left, 1)])
  {
    hide Chunk, PageCount;
    var free := FreeList(bm0, maxP);
    var rest := Remove(free, strt);
    FreeFromIs(bm0, 0, maxP);
    RemoveSubset(free, strt);
    if i - 1 < |rest| {
      assert rest[i - 1] in rest && rest[i - 1] in free;
    }
  }

  /** One turn of ExtWrite's loop: write a page, then claim it. */
  method WriteSegment(io: PageIO, rom: Rom, pg: byte, seg: seq<byte>, bm: array<bv8>, maxP: byte)
    returns (r: Result<()>, ghost written: bool)
    requires io.Valid() && Covers(bm[..], maxP) && |seg| <= 29 && bm as object !in io.Repr()
    modifies bm, io.Repr()
    ensures io.Valid()
    ensures io.pages == (if written then Put(old(io.pages), rom, pg, seg) else old(io.pages))
    ensures io.pages.Keys == old(io.pages).Keys
    ensures !written ==> r == Err(LinkFailed) && bm[..] == old(bm[..])
    ensures written && pg > maxP ==> r == Err(TooLargeBitNum) && bm[..] == old(bm[..])
    ensures written && pg <= maxP ==> r == Ok(()) && Changed(old(bm[..]), bm[..], pg, true)
    ensures written ==> (rom, pg) in old(io.pages)
    ensures !io.flaky && (rom, pg) in old(io.pages) ==> written
  {
    hide UncachedRead, NoOverlong, Coherent, PageCache.Valid;
    var t: Ticks := *;
    r := io.WritePage(rom, seg, pg, t);
    written := r.Ok?;
    if r.Err? {
      return;
    }
    r := BitMapChange(pg, true, bm, maxP);
  }

  /** The outcome of writing a non-empty file. */
  ghost predicate Outcome(pages0: Pages, pages: Pages, rom: Rom, bm0: seq<bv8>, bm: seq<bv8>, maxP: byte,
                          strt: byte, file: seq<byte>, r: Result<()>, done: nat, sound: bool)
    requires |file| > 0 && Covers(bm0, maxP)
  {
    var n, free := PageCount(|file|), FreeList(bm0, maxP);
    && (strt <= maxP ==> Progress(pages0, pages, rom, bm0, bm, maxP, strt, file, done))
    && (strt > maxP ==> r.Err? && bm == bm0)
    && (strt > maxP ==> pages == pages0 || pages == Put(pages0, rom, strt, SegOf(file, free, strt, 0)))
    && (r.Ok? ==> done == n && !NoSpace(free, strt, n) && forall p :: p in PlanOf(free, strt, n) ==> (rom, p) in pages0)
    && (r == Err(OutOfSpace) ==> NoSpace(free, strt, n))
    && (sound && strt <= maxP && (forall p: byte :: p <= maxP ==> (rom, p) in pages0) ==>
          r == if NoSpace(free, strt, n) then Err(OutOfSpace) else Ok(()))
  }

  /** On a part with a page 255, two pages must stay free, or FindEmpties never returns. */
  predicate Countable(bm: seq<bv8>, maxP: byte, strt: byte, n: nat)
    requires Covers(bm, maxP)
  {
    maxP <= 254 || |Remove(FreeList(bm, maxP), strt)| >= n + 1
  }

  lemma {:induction false} RemoveShorter(s: seq<byte>, x: byte)
    ensures |Remove(s, x)| <= |s|
  {
    if s != [] && s[0] != x {
      RemoveShorter(s[1..], x);
    }
  }

  lemma TwoFree(bm: seq<bv8>, maxP: byte, strt: byte, n: nat)
    requires Covers(bm, maxP) && n > 0 && Countable(bm, maxP, strt, n)
    ensures maxP <= 254 || |FreeList(bm, maxP)| >= 2
  {
    RemoveShorter(FreeList(bm, maxP), strt);
  }

  /** So they do while the pages are claimed. */
  lemma StillTwo(bm: seq<bv8>, maxP: byte, strt: byte, n: nat, i: nat)
    requires Covers(bm, maxP) && Countable(bm, maxP, strt, n) && 0 < i <= n
    requires i <= |Remove(FreeList(bm, maxP), strt)| + 1
    ensures maxP <= 254 || |FreeAfter(FreeList(bm, maxP), strt, i)| >= 2
  {}

  /** The bytes for page `i`. */
  method BuildSegment(file: seq<byte>, i: nat, pgs: nat, next: byte) returns (wrStr: seq<byte>)
    requires |file| > 0 && pgs == PageCount(|file|) && i < pgs
    ensures wrStr == Chunk(file, i) + [if i == pgs - 1 then 0 else next] && |wrStr| <= 29
  {
    ChunkFacts(file, i);
    var len := |file| - i * CHUNK;
    if len > CHUNK {
      len := CHUNK;
    }
    wrStr := file[i * CHUNK..i * CHUNK + len];
    if i == pgs - 1 {
      wrStr := wrStr + [0];
    } else {
      wrStr := wrStr + [next];
    }
  }

  /** ExtWrite's loop over the pages of the file. */
  method WriteChain(io: PageIO, rom: Rom, strt: byte, first: byte, file: seq<byte>, pgs: nat, bm: array<bv8>,
                    maxP: byte)
    returns (r: Result<()>, ghost done: nat)
    requires io.Valid() && Covers(bm[..], maxP) && bm as object !in io.Repr()
    requires |file| > 0 && pgs == PageCount(|file|) && Countable(bm[..], maxP, strt, pgs)
    requires FreeList(bm[..], maxP) != [] && first == FreeList(bm[..], maxP)[0] != 0
    modifies bm, io.Repr()
    ensures io.Valid()
    ensures Outcome(old(io.pages), io.pages, rom, old(bm[..]), bm[..], maxP, strt, file, r, done, !io.flaky)
  {
    hide Changed, Claimed, Put, WriteAll, Written, FreeAfter, Bit, PageIO.Valid, Progress, Chunk, PageCount, FreeList,
         Countable;
    ghost var bm0, pages0, free := bm[..], io.pages, FreeList(bm[..], maxP);
    ghost var plan := PlanOf(free, strt, pgs);
    Start(pages0, rom, bm0, maxP, strt, file);
    var avail, next := strt, first;
    var i := 0;
    while i < pgs
      invariant 0 <= i <= pgs && i <= |plan| && io.Valid() && |bm[..]| == |bm0| && io.pages.Keys == pages0.Keys
      invariant Progress(pages0, io.pages, rom, bm0, bm[..], maxP, strt, file, i)
      invariant i < pgs ==> i < |plan| && avail == plan[i] && (i > 0 ==> avail <= maxP)
      invariant i < pgs ==> SegOf(file, free, strt, i) == Chunk(file, i) + [if i == pgs - 1 then 0 else next]
      invariant forall k :: 0 <= k < i ==> (rom, plan[k]) in pages0
      invariant if i > 0 then strt <= maxP else bm[..] == bm0 && io.pages == pages0
    {
      var wrStr := BuildSegment(file, i, pgs, next);
      ghost var bm1, pages1, written := bm[..], io.pages, false;
      r, written := WriteSegment(io, rom, avail, wrStr, bm, maxP);
      if r.Err? {
        return r, i;
      }
      Advance(pages0, pages1, io.pages, rom, bm0, bm1, bm[..], maxP, strt, file, i);
      i := i + 1;
      StillTwo(bm0, maxP, strt, pgs, i);
      FreeNow(pages0, io.pages, rom, bm0, bm[..], maxP, strt, file, i);
      if i < pgs {
        Upcoming(bm0, maxP, strt, file, i);
      }
      avail, next := FindEmpties(bm, maxP);
      if avail == 0 && i != pgs {
        return Err(OutOfSpace), i;
      }
    }
    return Ok(()), i;
  }

  /** ExtWrite. */
  method ExtWrite(io: PageIO, rom: Rom, strt: byte, file: seq<byte>, bm: array<bv8>, maxP: byte)
    returns (r: Result<()>, ghost done: nat)
    requires io.Valid() && Covers(bm[..], maxP) && bm as object !in io.Repr()
    requires file == [] || Countable(bm[..], maxP, strt, PageCount(|file|))
    modifies bm, io.Repr()
    ensures io.Valid()
    ensures file == [] ==> io.pages == old(io.pages)
    ensures file == [] && strt <= maxP ==> r == Ok(()) && Changed(old(bm[..]), bm[..], strt, true)
    ensures file == [] && strt > maxP ==> r == Err(TooLargeBitNum) && bm[..] == old(bm[..])
    ensures file != [] ==>
              Outcome(old(io.pages), io.pages, rom, old(bm[..]), bm[..], maxP, strt, file, r, done, !io.flaky)
  {
    if |file| == 0 {
      done := 0;
      r := BitMapChange(strt, true, bm, maxP);
      return;
    }
    var pgs := |file| / CHUNK;
    if |file| % CHUNK != 0 || |file| == 0 {
      pgs := pgs + 1;
    }
    Start(io.pages, rom, bm[..], maxP, strt, file);
    hide Changed, Claimed, Put, WriteAll, Written, FreeAfter, Bit, PageIO.Valid, Progress,
         Chunk, FreeList;
    TwoFree(bm[..], maxP, strt, pgs);
    var avail, next := FindEmpties(bm, maxP);
    if avail == 0 {
      return Err(OutOfSpace), 0;
    }
    r, done := WriteChain(io, rom, strt, avail, file, pgs, bm, maxP);
  }

  // ---------- ExtRead ----------

  /** Some page of the list is beyond the bitmap. */
  predicate Beyond(ps: seq<byte>, maxP: byte) {
    exists i :: 0 <= i < |ps| && ps[i] > maxP
  }

  /** The chain ends, or overflows the buffer within the pages followed. */
  predicate Readable(t: Trail, maxlen: int) {
    Ends(t) || (t.end.OutOfFuel? && t.ps != [] && maxlen != -1 && |t.content| + 1 > maxlen)
  }

  /** The outcome of reading such a chain. */
  ghost predicate ReadOutcome(t: Trail, bm0: seq<bv8>, bm: seq<bv8>, maxP: byte, maxlen: int, r: Result<seq<byte>>,
                              sound: bool) {
    var fits := maxlen == -1 || |t.content| + 1 <= maxlen;
    && (r.Ok? ==> t.end.Complete? && !Beyond(t.ps, maxP) && fits)
    && (r.Ok? ==> r.value == (if maxlen == -1 then [] else t.content) && Released(bm0, bm, t.ps))
    && (sound && t.end.Complete? && !Beyond(t.ps, maxP) ==> if fits then r.Ok? else r == Err(BufferTooSmall))
    && (sound && t.end.OutOfFuel? && !Beyond(t.ps, maxP) ==> r == Err(BufferTooSmall))
  }

  /** `u` is what remains of trail `t` after `i` pages within the bitmap, with `read` on them. */
  ghost predicate Remaining(t: Trail, u: Trail, i: nat, read: seq<byte>, maxP: byte) {
    && i <= |t.ps| && u.end == t.end
    && t.ps == t.ps[..i] + u.ps && t.content == read + u.content
    && forall k :: 0 <= k < i ==> t.ps[k] <= maxP
  }

  lemma RemainingStart(t: Trail, maxP: byte)
    ensures Remaining(t, t, 0, [], maxP)
  {}

  lemma RemainingEnds(t: Trail, u: Trail, i: nat, read: seq<byte>, maxP: byte)
    requires Remaining(t, u, i, read, maxP)
    ensures u.end == t.end && i <= |t.ps| && |t.content| == |read| + |u.content|
    ensures |u.ps| > 0 && u.ps[0] > maxP ==> Beyond(t.ps, maxP)
  {
    if |u.ps| > 0 {
      assert t.ps[i] == u.ps[0];
    }
  }

  /** As long as the buffer has not overflown, there is a page left to read. */
  lemma RemainingMore(t: Trail, u: Trail, i: nat, read: seq<byte>, maxP: byte, maxlen: int)
    requires Remaining(t, u, i, read, maxP) && Readable(t, maxlen) && (i > 0 && maxlen != -1 ==> |read| + 1 <= maxlen)
    ensures u != Trail([], [], OutOfFuel) && !u.end.NoPointer?
  {}

  /** Reading one more page `pg` with `data` on it leaves `v`. */
  lemma RemainingNext(t: Trail, u: Trail, i: nat, read: seq<byte>, maxP: byte, pg: byte, data: seq<byte>, v: Trail)
    requires Remaining(t, u, i, read, maxP) && u == Trail([pg] + v.ps, data + v.content, v.end) && pg <= maxP
    ensures Remaining(t, v, i + 1, read + data, maxP)
    ensures t.ps[..i + 1] == t.ps[..i] + [pg]
  {
    assert t.ps[i] == u.ps[0];
    assert read + (data + v.content) == (read + data) + v.content;
  }

  /** Nothing remains. */
  lemma RemainingNone(t: Trail, i: nat, read: seq<byte>, maxP: byte)
    requires Remaining(t, Trail([], [], Complete), i, read, maxP)
    ensures t.end.Complete? && read == t.content && t.ps[..i] == t.ps && !Beyond(t.ps, maxP)
  {}

  /** One turn of ExtRead's loop: read a page that has a continuation byte, check the room, release the page. */
  method ReadSegment(io: PageIO, rom: Rom, pg: byte, filled: nat, maxlen: int, bm: array<bv8>, maxP: byte)
    returns (r: Result<seq<byte>>)
    requires io.Valid() && Covers(bm[..], maxP) && bm as object !in io.Repr()
    modifies bm, io.Repr() - {io}
    ensures io.Valid()
    ensures var p := UncachedRead(io.pages, rom, pg);
            && (r.Ok? ==> r == p && (maxlen == -1 || filled + |p.value| <= maxlen) && pg <= maxP)
            && (r.Ok? ==> Changed(old(bm[..]), bm[..], pg, false))
            && (!io.flaky && p.Ok? && pg <= maxP ==>
                  r == if maxlen != -1 && filled + |p.value| > maxlen then Err(BufferTooSmall) else p)
    ensures r.Err? ==> r.error != ReadOnly
  {
    hide UncachedRead, PageIO.Valid, Bit;
    var t: Ticks := *;
    r := io.ReadPage(rom, pg, t);
    if r.Err? {
      return;
    }
    if maxlen != -1 && filled + |r.value| > maxlen {
      return Err(BufferTooSmall);
    }
    var b := BitMapChange(pg, false, bm, maxP);
    if b.Err? {
      return Err(b.error);
    }
  }

  /**
   * ExtRead, for a chain that ends or overflows the buffer: reads it into a buffer of `maxlen` bytes (or
   * nowhere, for -1) and releases its pages in the bitmap.
   */
  method ExtRead(io: PageIO, rom: Rom, start: byte, maxlen: int, bm: array<bv8>, maxP: byte, ghost fuel: nat)
    returns (r: Result<seq<byte>>)
    requires io.Valid() && Covers(bm[..], maxP) && bm as object !in io.Repr()
    requires Readable(Follow(io.pages, rom, start, fuel), maxlen)
    modifies bm, io.Repr() - {io}
    ensures io.Valid()
    ensures ReadOutcome(Follow(io.pages, rom, start, fuel), old(bm[..]), bm[..], maxP, maxlen, r, !io.flaky)
    ensures r.Err? ==> r.error != ReadOnly
  {
    hide UncachedRead, PageIO.Valid, Bit, Released, Follow, Changed, Remaining, Beyond;
    ghost var t := Follow(io.pages, rom, start, fuel);
    ghost var bm0, i, left, u, read: seq<byte> := bm[..], 0, fuel, t, [];
    var file: seq<byte> := [];
    var pg := start;
    ReleaseNone(bm0);
    RemainingStart(t, maxP);
    while true
      invariant io.Valid()
      invariant u == Follow(io.pages, rom, pg, left) && i <= |t.ps|
      invariant Remaining(t, u, i, read, maxP)
      invariant file == if maxlen == -1 then [] else read
      invariant Released(bm0, bm[..], t.ps[..i])
      invariant i > 0 && maxlen != -1 ==> |read| + 1 <= maxlen
      decreases left
    {
      RemainingEnds(t, u, i, read, maxP);
      FollowMore(io.pages, rom, pg, left);
      RemainingMore(t, u, i, read, maxP, maxlen);
      FollowStep(io.pages, rom, pg, left);
      ghost var bm1 := bm[..];
      var page := ReadSegment(io, rom, pg, |file|, maxlen, bm, maxP);
      if page.Err? {
        return page;
      }
      var pgbuf := page.value;
      ghost var data := pgbuf[..|pgbuf| - 1];
      if maxlen != -1 {
        file := file + pgbuf[..|pgbuf| - 1];
      }
      ReleaseOne(bm0, bm1, bm[..], t.ps[..i], pg);
      left := left - 1;
      ghost var v := if Last(pgbuf) == 0 then Trail([], [], Complete) else Follow(io.pages, rom, Last(pgbuf), left);
      RemainingNext(t, u, i, read, maxP, pg, data, v);
      i, u, read := i + 1, v, read + data;
      if Last(pgbuf) == 0 {
        RemainingNone(t, i, read, maxP);
        return Ok(file);
      }
      pg := Last(pgbuf);
    }
  }

  lemma FollowMore(pages: Pages, rom: Rom, pg: byte, fuel: nat)
    ensures fuel == 0 <==> Follow(pages, rom, pg, fuel) == Trail([], [], OutOfFuel)
    ensures fuel == 0 <==> Follow(pages, rom, pg, fuel).ps == []
  {
    hide UncachedRead;
  }

  /** One page of a chain of pages with continuation bytes. */
  lemma FollowStep(pages: Pages, rom: Rom, pg: byte, fuel: nat)
    requires fuel > 0 && !Follow(pages, rom, pg, fuel).end.NoPointer?
    ensures var u, p := Follow(pages, rom, pg, fuel), UncachedRead(pages, rom, pg);
            && |u.ps| > 0 && u.ps[0] == pg
            && (p.Err? ==> u.end.Broken?)
            && (p.Ok? ==> |p.value| > 0)
            && (p.Ok? && Last(p.value) == 0 ==> u == Trail([pg], p.value[..|p.value| - 1], Complete))
            && (p.Ok? && Last(p.value) != 0 ==>
                  var v := Follow(pages, rom, Last(p.value), fuel - 1);
                  v.end == u.end && u == Trail([pg] + v.ps, p.value[..|p.value| - 1] + v.content, v.end))
  {
    hide UncachedRead;
  }

  /** A chain of pages with data on them gets longer with every page. */
  lemma {:induction false} DataGrows(pages: Pages, rom: Rom, pg: byte, fuel: nat)
    requires forall p :: p in Follow(pages, rom, pg, fuel).ps ==> CarriesData(pages, rom, p)
    ensures var t := Follow(pages, rom, pg, fuel);
            !t.end.NoPointer? && (t.end.OutOfFuel? ==> |t.content| >= fuel)
    decreases fuel
  {
    hide UncachedRead, Follow;
    if fuel > 0 {
      FollowFirst(pages, rom, pg, fuel);
      if GoesOn(pages, rom, pg) {
        FollowNext(pages, rom, pg, fuel);
        DataGrows(pages, rom, Last(UncachedRead(pages, rom, pg).value), fuel - 1);
      } else {
        FollowStops(pages, rom, pg, fuel);
      }
    } else {
      FollowMore(pages, rom, pg, 0);
    }
  }

  predicate CarriesData(pages: Pages, rom: Rom, pg: byte) {
    var d := UncachedRead(pages, rom, pg);
    d.Ok? ==> |d.value| > 1
  }

  lemma FollowStops(pages: Pages, rom: Rom, pg: byte, fuel: nat)
    requires fuel > 0 && !GoesOn(pages, rom, pg) && CarriesData(pages, rom, pg)
    ensures Ends(Follow(pages, rom, pg, fuel))
  {
    hide UncachedRead;
  }

  /** So ExtRead returns on every chain of pages with data, circles included, if its buffer is finite. */
  lemma DataReadable(pages: Pages, rom: Rom, pg: byte, fuel: nat, maxlen: nat)
    requires fuel > maxlen && forall p :: p in Follow(pages, rom, pg, fuel).ps ==> CarriesData(pages, rom, p)
    ensures Readable(Follow(pages, rom, pg, fuel), maxlen)
  {
    hide Follow, CarriesData;
    DataGrows(pages, rom, pg, fuel);
    FollowMore(pages, rom, pg, fuel);
  }

  lemma ReleaseNone(bm: seq<bv8>)
    ensures Released(bm, bm, [])
  {}

  // ---------- what ExtWrite and ExtRead promise together ----------

  /**
   * The condition ExtWrite needs of its caller for more than one page: the start page is claimed,
   * or at least is not the lowest free page. Otherwise the first page is made to point to itself.
   */
  predicate StartSafe(bm: seq<bv8>, maxP: byte, strt: byte, n: nat)
    requires Covers(bm, maxP)
  {
    n == 1 || FreeList(bm, maxP) == [] || FreeList(bm, maxP)[0] != strt
  }

  /** A claimed start page is safe. */
  lemma ClaimedStartSafe(bm: seq<bv8>, maxP: byte, strt: byte, n: nat)
    requires Covers(bm, maxP) && strt <= maxP && Bit(bm, strt)
    ensures StartSafe(bm, maxP, strt, n)
  {
    hide Bit;
    FreeFromIs(bm, 0, maxP);
  }

  /** The pages of the plan are distinct; all but the first were free. */
  lemma PlanFacts(bm: seq<bv8>, maxP: byte, strt: byte, n: nat)
    requires Covers(bm, maxP) && n > 0
    ensures var free := FreeList(bm, maxP);
            var plan := PlanOf(free, strt, n);
            && NoDuplicates(plan) && plan[0] == strt
            && (forall i :: 1 <= i < |plan| ==> plan[i] <= maxP && !Bit(bm, plan[i]) && plan[i] != strt)
            && (free != [] && free[0] != 0 ==> forall i :: 1 <= i < |plan| ==> plan[i] != 0)
  {
    hide Bit;
    var free := FreeList(bm, maxP);
    var rest, plan := Remove(free, strt), PlanOf(free, strt, n);
    FreeFromIs(bm, 0, maxP);
    RemoveGone(free, strt);
    RemoveSubset(free, strt);
    forall i | 1 <= i < |plan|
      ensures plan[i] == rest[i - 1] && plan[i] in rest && plan[i] in free
    {}
    forall i, j | 0 <= i < j < |plan|
      ensures plan[i] != plan[j]
    {
      assert plan[j] == rest[j - 1] && plan[j] in rest;
      if i > 0 { assert plan[i] == rest[i - 1]; }
    }
  }

  /** The continuation bytes ExtWrite wrote are those of the plan, exactly when the start was safe. */
  lemma SegFacts(bm: seq<bv8>, maxP: byte, strt: byte, file: seq<byte>, i: nat)
    requires Covers(bm, maxP) && |file| > 0
    requires var n, free := PageCount(|file|), FreeList(bm, maxP); i < n && !NoSpace(free, strt, n)
    ensures var n, free := PageCount(|file|), FreeList(bm, maxP);
            var plan, seg := PlanOf(free, strt, n), SegOf(file, free, strt, i);
            && |seg| <= 29 && |seg| > 1
            && (i > 0 || StartSafe(bm, maxP, strt, n) ==> seg == Chunk(file, i) + [NextOf(plan, i)])
            && (!StartSafe(bm, maxP, strt, n) && i == 0 ==> Last(seg) == strt != 0)
  {
    hide Bit, Chunk, PageCount;
    ChunkFacts(file, i);
    var free := FreeList(bm, maxP);
    if i == 0 && free[0] != strt {
      assert Remove(free, strt)[0] == free[0];
    }
  }

  /** A successful ExtWrite lays the file out on the plan, if the start was safe. */
  lemma WrittenIsLaid(pages0: Pages, pages: Pages, rom: Rom, bm0: seq<bv8>, bm: seq<bv8>, maxP: byte,
                      strt: byte, file: seq<byte>, done: nat, sound: bool)
    requires |file| > 0 && Covers(bm0, maxP) && strt <= maxP
    requires Outcome(pages0, pages, rom, bm0, bm, maxP, strt, file, Ok(()), done, sound)
    ensures var n := PageCount(|file|);
            var plan := PlanOf(FreeList(bm0, maxP), strt, n);
            && (StartSafe(bm0, maxP, strt, n) ==> Laid(pages, rom, plan, file))
            && (!StartSafe(bm0, maxP, strt, n) ==>
                UncachedRead(pages, rom, strt).Ok? && |UncachedRead(pages, rom, strt).value| > 1
                                                   && Last(UncachedRead(pages, rom, strt).value) == strt != 0)
  {
    hide Bit, UncachedRead, Put, SegOf, PageCount, Chunk, FreeList, StartSafe;
    var n, free := PageCount(|file|), FreeList(bm0, maxP);
    var plan, segs := PlanOf(free, strt, n), SegsOf(file, free, strt, n);
    PlanFacts(bm0, maxP, strt, n);
    assert plan[..n] == plan && segs[..n] == segs;
    forall i | 0 <= i < n
      ensures UncachedRead(pages, rom, plan[i]) == Ok(segs[i]) && segs[i] == SegOf(file, free, strt, i)
    {
      forall k | 0 <= k < n
        ensures |segs[k]| <= 29
      {
        SegFacts(bm0, maxP, strt, file, k);
      }
      assert plan[i] in plan;
      ReadWriteAll(pages0, rom, plan, segs, i);
    }
    forall i | 0 <= i < n
      ensures i > 0 || StartSafe(bm0, maxP, strt, n) ==> segs[i] == Chunk(file, i) + [NextOf(plan, i)]
    {
      SegFacts(bm0, maxP, strt, file, i);
    }
    SegFacts(bm0, maxP, strt, file, 0);
    assert plan[0] == strt;
  }

  /** A page that points to itself is an endless chain. */
  lemma {:induction false} SelfLoop(pages: Pages, rom: Rom, pg: byte, fuel: nat)
    requires var p := UncachedRead(pages, rom, pg); p.Ok? && |p.value| > 0 && Last(p.value) == pg != 0
    ensures Follow(pages, rom, pg, fuel).end == OutOfFuel
    ensures forall p :: p in Follow(pages, rom, pg, fuel).ps ==> p == pg
    decreases fuel
  {
    hide UncachedRead;
    if fuel > 0 {
      SelfLoop(pages, rom, pg, fuel - 1);
    }
  }

  /**
   * Round trip: after a successful ExtWrite the chain from the start page is the plan and carries
   * exactly the file, if and only if the start was safe; otherwise the chain never ends.
   */
  lemma WriteThenFollow(pages0: Pages, pages: Pages, rom: Rom, bm0: seq<bv8>, bm: seq<bv8>, maxP: byte,
                        strt: byte, file: seq<byte>, done: nat, sound: bool)
    requires |file| > 0 && Covers(bm0, maxP) && strt <= maxP
    requires Outcome(pages0, pages, rom, bm0, bm, maxP, strt, file, Ok(()), done, sound)
    ensures var n := PageCount(|file|);
            && (StartSafe(bm0, maxP, strt, n) ==>
                  Follow(pages, rom, strt, n) == Trail(PlanOf(FreeList(bm0, maxP), strt, n), file, Complete))
            && (!StartSafe(bm0, maxP, strt, n) ==> forall fuel: nat :: Follow(pages, rom, strt, fuel).end == OutOfFuel)
  {
    hide Bit, UncachedRead, Put, SegOf, PageCount, Chunk, FreeList, StartSafe, Progress, Laid, Follow;
    var n := PageCount(|file|);
    var plan := PlanOf(FreeList(bm0, maxP), strt, n);
    WrittenIsLaid(pages0, pages, rom, bm0, bm, maxP, strt, file, done, sound);
    PlanFacts(bm0, maxP, strt, n);
    if StartSafe(bm0, maxP, strt, n) {
      LaidLength(pages, rom, plan, file);
      FollowLaid(pages, rom, plan, file, 0);
      assert plan[0..] == plan && file[0..] == file;
    } else {
      forall fuel: nat
        ensures Follow(pages, rom, strt, fuel).end == OutOfFuel
      {
        SelfLoop(pages, rom, strt, fuel);
      }
    }
  }

  /**
   * The failing run: with only page 0 claimed, 29 bytes written from page 1 on take pages 1 and 2. The write
   * succeeds, page 1 names itself as the next page, and reading the file overflows every buffer.
   */
  method UnsafeStart(io: PageIO, rom: Rom, bm: array<bv8>, maxlen: nat) returns (r: Result<()>, back: Result<seq<byte>>)
    requires io.Valid() && !io.flaky && bm[..] == [0x01] && bm as object !in io.Repr()
    requires forall p: byte :: p <= 7 ==> (rom, p) in io.pages
    modifies bm, io.Repr()
    ensures r == Ok(()) && forall fuel: nat :: Follow(io.pages, rom, 1, fuel).end == OutOfFuel
    ensures back == Err(BufferTooSmall)
  {
    ghost var pages0, bm0 := io.pages, bm[..];
    OnlyRootClaimed(bm0);
    hide UncachedRead, Put, SegOf, PageCount, Chunk, FreeList, Follow, PageIO.Valid, Progress;
    var file: seq<byte> := seq(29, _ => 0);
    ghost var done;
    assert PageCount(29) == 2 by { TwoPages(); }
    r, done := ExtWrite(io, rom, 1, file, bm, 7);
    WriteThenFollow(pages0, io.pages, rom, bm0, bm[..], 7, 1, file, done, true);
    WrittenIsLaid(pages0, io.pages, rom, bm0, bm[..], 7, 1, file, done, true);
    back := ReadSelfLoop(io, rom, 1, maxlen, bm, 7);
  }

  /** A page that points to itself overflows every finite buffer. */
  method ReadSelfLoop(io: PageIO, rom: Rom, pg: byte, maxlen: nat, bm: array<bv8>, maxP: byte)
    returns (back: Result<seq<byte>>)
    requires io.Valid() && !io.flaky && Covers(bm[..], maxP) && pg <= maxP && bm as object !in io.Repr()
    requires var p := UncachedRead(io.pages, rom, pg); p.Ok? && |p.value| > 1 && Last(p.value) == pg != 0
    modifies bm, io.Repr() - {io}
    ensures io.Valid() && back == Err(BufferTooSmall)
  {
    hide UncachedRead, Follow, PageIO.Valid;
    SelfLoop(io.pages, rom, pg, maxlen + 1);
    DataReadable(io.pages, rom, pg, maxlen + 1, maxlen);
    NotBeyond(Follow(io.pages, rom, pg, maxlen + 1).ps, pg, maxP);
    back := ExtRead(io, rom, pg, maxlen, bm, maxP, maxlen + 1);
  }

  lemma NotBeyond(ps: seq<byte>, pg: byte, maxP: byte)
    requires pg <= maxP && forall p :: p in ps ==> p == pg
    ensures !Beyond(ps, maxP)
  {
    forall i | 0 <= i < |ps|
      ensures ps[i] == pg
    {
      assert ps[i] in ps;
    }
  }

  lemma TwoPages()
    ensures PageCount(29) == 2
  {}

  lemma OnlyRootClaimed(bm: seq<bv8>)
    requires bm == [0x01]
    ensures Covers(bm, 7) && !StartSafe(bm, 7, 1, 2) && !NoSpace(FreeList(bm, 7), 1, 2)
  {
    var free := FreeList(bm, 7);
    assert Bit(bm, 0) && !Bit(bm, 1) && !Bit(bm, 2);
    hide Bit;
    assert free == FreeFrom(bm, 1, 7) == [1] + FreeFrom(bm, 2, 7);
    assert Remove(free, 1) == FreeFrom(bm, 2, 7) == [2] + FreeFrom(bm, 3, 7);
  }

  lemma LaidLength(pages: Pages, rom: Rom, ps: seq<byte>, file: seq<byte>)
    requires Laid(pages, rom, ps, file)
    ensures |ps| == PageCount(|file|)
  {}

  lemma SegLength(file: seq<byte>, free: seq<byte>, strt: byte, i: nat)
    requires |file| > 0 && i < PageCount(|file|)
    ensures |SegOf(file, free, strt, i)| <= 29
  {
    ChunkFacts(file, i);
  }

  /**
   * Non-interference: however ExtWrite ends, every chain of another part, and every chain of this
   * part that avoids the start page and whose pages were marked, reads back unchanged.
   */
  lemma OthersUnchanged(pages0: Pages, pages: Pages, rom: Rom, bm0: seq<bv8>, bm: seq<bv8>, maxP: byte,
                        strt: byte, file: seq<byte>, r: Result<()>, done: nat, sound: bool,
                        rom': Rom, pg: byte, fuel: nat)
    requires |file| > 0 && Covers(bm0, maxP) && Outcome(pages0, pages, rom, bm0, bm, maxP, strt, file, r, done, sound)
    requires rom' == rom ==> forall p :: p in Follow(pages0, rom, pg, fuel).ps ==>
               p != strt && (p <= maxP ==> Bit(bm0, p))
    ensures Follow(pages, rom', pg, fuel) == Follow(pages0, rom', pg, fuel)
  {
    hide Bit, UncachedRead, Put, SegOf, PageCount, Chunk, FreeList, Follow, Claimed, NoSpace;
    var n, free := PageCount(|file|), FreeList(bm0, maxP);
    var plan := PlanOf(free, strt, n);
    var segs := SegsOf(file, free, strt, |plan|);
    PlanFacts(bm0, maxP, strt, n);
    forall k | 0 <= k < n
      ensures |SegOf(file, free, strt, k)| <= 29
    {
      SegLength(file, free, strt, k);
    }
    forall p | p in Follow(pages0, rom', pg, fuel).ps
      ensures UncachedRead(pages, rom', p) == UncachedRead(pages0, rom', p)
    {
      if strt <= maxP {
        WriteAllFrame(pages0, rom, plan[..done], segs[..done], rom', p);
      } else {
        ReadPut(pages0, rom, strt, SegOf(file, free, strt, 0), rom', p);
      }
    }
    FollowFrame(pages0, pages, rom', pg, fuel);
  }

  /** Conservation: releasing the pages of a file just written leaves the old bitmap minus the start page. */
  lemma ReleaseRestores(pages0: Pages, pages: Pages, rom: Rom, bm0: seq<bv8>, bm1: seq<bv8>, bm2: seq<bv8>, maxP: byte,
                        strt: byte, file: seq<byte>, done: nat, sound: bool)
    requires |file| > 0 && Covers(bm0, maxP) && strt <= maxP
    requires Outcome(pages0, pages, rom, bm0, bm1, maxP, strt, file, Ok(()), done, sound)
    requires Released(bm1, bm2, PlanOf(FreeList(bm0, maxP), strt, PageCount(|file|)))
    ensures Released(bm0, bm2, [strt])
  {
    hide Bit, Put, SegOf, PageCount, Chunk, FreeList, NoSpace;
    var n := PageCount(|file|);
    var plan := PlanOf(FreeList(bm0, maxP), strt, n);
    PlanFacts(bm0, maxP, strt, n);
    assert plan[..n] == plan;
  }

  /**
   * Space accounting is exact: with page 0 and another page claimed as the start page, and a page
   * free, a file fits if and only if it is no longer than GetMaxWrite says.
   */
  lemma MaxWriteIsExact(bm: seq<bv8>, maxP: byte, strt: byte, len: nat)
    requires Covers(bm, maxP) && 0 < strt <= maxP && Bit(bm, 0) && Bit(bm, strt)
    requires FreeList(bm, maxP) != [] && len > 0
    ensures NoSpace(FreeList(bm, maxP), strt, PageCount(len)) <==> len > MaxWrite(bm, maxP)
  {
    hide Bit;
    var free := FreeList(bm, maxP);
    FreeFromIs(bm, 0, maxP);
    FreeCount(bm, 0, maxP, 0, strt);
    RemoveAbsent(free, strt);
    assert free[0] in free;
  }

  /** A file written within GetMaxWrite over a sound link is read back whole, and deleting it frees what it took. */
  method WriteThenDelete(io: PageIO, rom: Rom, strt: byte, file: seq<byte>, maxlen: nat, bm: array<bv8>, maxP: byte)
    returns (r: Result<seq<byte>>)
    requires io.Valid() && !io.flaky && Covers(bm[..], maxP) && bm as object !in io.Repr()
    requires Countable(bm[..], maxP, strt, PageCount(|file|))
    requires forall p: byte :: p <= maxP ==> (rom, p) in io.pages
    requires 0 < strt <= maxP && Bit(bm[..], 0) && Bit(bm[..], strt) && FreeList(bm[..], maxP) != []
    requires 0 < |file| <= MaxWrite(bm[..], maxP) && |file| + 1 <= maxlen
    modifies bm, io.Repr()
    ensures io.Valid() && r == Ok(file)
    ensures Released(old(bm[..]), bm[..], [strt])
  {
    hide Bit, UncachedRead, Put, SegOf, PageCount, Chunk, FreeList, Follow, Claimed, MaxWrite, Released,
         PageIO.Valid, NoSpace, Progress;
    ghost var bm0, pages0, n := bm[..], io.pages, PageCount(|file|);
    MaxWriteIsExact(bm0, maxP, strt, |file|);
    ClaimedStartSafe(bm0, maxP, strt, n);
    var w, done := ExtWrite(io, rom, strt, file, bm, maxP);
    ghost var bm1 := bm[..];
    WriteThenFollow(pages0, io.pages, rom, bm0, bm1, maxP, strt, file, done, true);
    PlanFacts(bm0, maxP, strt, n);
    r := ExtRead(io, rom, strt, maxlen, bm, maxP, n);
    ReleaseRestores(pages0, io.pages, rom, bm0, bm1, bm[..], maxP, strt, file, done, true);
  }
}

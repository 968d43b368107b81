/**
 * Directories (owfile.c): a chain of pages of 7-byte records behind a 7-byte header, searched by name,
 * from which one record is deleted in place or with its page.
 */
module OwDirectory {
  import opened Bytes
  import opened OwBitMap
  import opened OwExtFile
  import opened OwPageIO
  import opened Results

  const RECORD: nat := 7

  // ---------- records ----------

  type Record = s: seq<byte> | |s| == 7 witness [0, 0, 0, 0, 0, 0, 0]

  type Name = s: seq<byte> | |s| == 4 witness [0x20, 0x20, 0x20, 0x20]

  /** toupper. */
  function Upper(c: byte): byte { if 97 <= c <= 122 then c - 32 else c }

  predicate CharMatches(c: byte, n: byte) { Upper(c) == n || (c == 0x20 && n == 0xCC) }

  predicate Matches(raw: Record, name: Name, ext: byte) {
    && CharMatches(raw[0], name[0]) && CharMatches(raw[1], name[1])
    && CharMatches(raw[2], name[2]) && CharMatches(raw[3], name[3])
    && raw[4] % 128 == ext
  }

  /**
   * What it means, byte by byte: each character is the name's, or its small letter, or 0x20 where the name has 0xCC;
   * the extension is that of the record without the flag in bit 7.
   */
  lemma MatchesIff(raw: Record, name: Name, ext: byte)
    ensures Matches(raw, name, ext)
       <==> && raw[4] % 128 == ext
            && forall j :: 0 <= j < 4 ==>
                 || (97 <= raw[j] <= 122 && name[j] == raw[j] - 32)
                 || (!(97 <= raw[j] <= 122) && name[j] == raw[j])
                 || (raw[j] == 0x20 && name[j] == 0xCC)
  {}

  /** The records in the data of a directory. */
  function Records(data: seq<byte>): seq<Record> {
    if |data| < RECORD then [] else [data[..RECORD]] + Records(data[RECORD..])
  }

  lemma {:induction false} RecordsConcat(a: seq<byte>, b: seq<byte>)
    requires |a| % RECORD == 0
    ensures Records(a + b) == Records(a) + Records(b)
    decreases |a|
  {
    if a == [] {
      assert a + b == b;
    } else {
      assert (a + b)[..RECORD] == a[..RECORD] && (a + b)[RECORD..] == a[RECORD..] + b;
      RecordsConcat(a[RECORD..], b);
    }
  }

  datatype Option<+T> = None | Some(value: T)

  /** The first record of that name. */
  function FirstMatch(rs: seq<Record>, name: Name, ext: byte): Option<Record> {
    if rs == [] then None
    else if Matches(rs[0], name, ext) then Some(rs[0])
    else FirstMatch(rs[1..], name, ext)
  }

  /** Taking out a record of another name makes no difference to a search. */
  lemma {:induction false} OthersStillFound(pre: seq<Record>, r: Record, post: seq<Record>, name: Name, ext: byte)
    requires !Matches(r, name, ext)
    ensures FirstMatch(pre + [r] + post, name, ext) == FirstMatch(pre + post, name, ext)
    decreases |pre|
  {
    if pre == [] {
      assert ([] + [r] + post)[1..] == post && [] + post == post;
    } else {
      assert (pre + [r] + post)[1..] == pre[1..] + [r] + post && (pre + post)[1..] == pre[1..] + post;
      OthersStillFound(pre[1..], r, post, name, ext);
    }
  }

  /** Without the first record of a name, the search finds the next one, if there is any. */
  lemma {:induction false} NextFound(pre: seq<Record>, post: seq<Record>, name: Name, ext: byte)
    requires FirstMatch(pre, name, ext) == None
    ensures FirstMatch(pre + post, name, ext) == FirstMatch(post, name, ext)
    decreases |pre|
  {
    if pre == [] {
      assert pre + post == post;
    } else {
      assert (pre + post)[1..] == pre[1..] + post;
      NextFound(pre[1..], post, name, ext);
    }
  }

  // ---------- directories as chains of pages ----------

  /** Page `i` of the chain `ps` holds `bodies[i]` and the number of the next page. */
  ghost predicate PageOk(pages: Pages, rom: Rom, ps: seq<byte>, bodies: seq<seq<byte>>, i: nat)
    requires i < |ps| == |bodies|
  {
    && UncachedRead(pages, rom, ps[i]) == Ok(bodies[i] + [NextOf(ps, i)])
    && |bodies[i]| % RECORD == 0 && |bodies[i]| <= 28
    && (i > 0 ==> ps[i] != 0)
  }

  /** A well-formed directory: a header and records, on a chain of different pages. */
  ghost predicate Directory(pages: Pages, rom: Rom, ps: seq<byte>, bodies: seq<seq<byte>>) {
    && 0 < |ps| == |bodies| && NoDuplicates(ps)
    && (forall i :: 0 <= i < |ps| ==> PageOk(pages, rom, ps, bodies, i))
    && |bodies[0]| >= RECORD && bodies[0][0] == 0xAA && bodies[0][1] == 0
  }

  function Flatten(bodies: seq<seq<byte>>): seq<byte> {
    if bodies == [] then [] else bodies[0] + Flatten(bodies[1..])
  }

  lemma {:induction false} FlattenAt(bodies: seq<seq<byte>>, i: nat)
    requires i < |bodies|
    ensures Flatten(bodies) == Flatten(bodies[..i]) + bodies[i] + Flatten(bodies[i + 1..])
  {
    if i == 0 {
      assert bodies[..0] == [];
    } else {
      FlattenAt(bodies[1..], i - 1);
      assert bodies[..i][1..] == bodies[1..][..i - 1] && bodies[1..][i..] == bodies[i + 1..];
    }
  }

  lemma {:induction false} FlattenConcat(a: seq<seq<byte>>, b: seq<seq<byte>>)
    ensures Flatten(a + b) == Flatten(a) + Flatten(b)
    decreases |a|
  {
    if a == [] {
      assert a + b == b;
    } else {
      assert (a + b)[1..] == a[1..] + b;
      FlattenConcat(a[1..], b);
    }
  }

  lemma {:induction false} FlattenRecords(bodies: seq<seq<byte>>)
    requires forall i :: 0 <= i < |bodies| ==> |bodies[i]| % RECORD == 0
    ensures |Flatten(bodies)| % RECORD == 0
  {
    if bodies != [] {
      FlattenRecords(bodies[1..]);
      FlattenFrom(bodies, 0);
      assert bodies[0..] == bodies;
      WholeSum(|bodies[0]|, |Flatten(bodies[1..])|);
    }
  }

  lemma WholeSum(a: nat, b: nat)
    requires a % RECORD == 0 && b % RECORD == 0
    ensures (a + b) % RECORD == 0
  {}

  /** The entries of a directory: the records behind the header. */
  function Entries(bodies: seq<seq<byte>>): seq<Record> {
    var data := Flatten(bodies);
    if |data| < RECORD then [] else Records(data[RECORD..])
  }

  /** The data of the directory before and behind the record at `off` on page `i`. */
  function Before(bodies: seq<seq<byte>>, i: nat, off: nat): seq<byte>
    requires i < |bodies| && off <= |bodies[i]|
  {
    Flatten(bodies[..i]) + bodies[i][..off]
  }

  function Behind(bodies: seq<seq<byte>>, i: nat, off: nat): seq<byte>
    requires i < |bodies| && off <= |bodies[i]|
  {
    bodies[i][off..] + Flatten(bodies[i + 1..])
  }

  lemma SplitAt(bodies: seq<seq<byte>>, i: nat, off: nat)
    requires i < |bodies| && off <= |bodies[i]|
    ensures Flatten(bodies) == Before(bodies, i, off) + Behind(bodies, i, off)
  {
    hide Flatten;
    FlattenAt(bodies, i);
    SplitMiddle(Flatten(bodies[..i]), bodies[i], Flatten(bodies[i + 1..]), off);
  }

  lemma SplitMiddle(x: seq<byte>, y: seq<byte>, z: seq<byte>, off: nat)
    requires off <= |y|
    ensures x + y + z == (x + y[..off]) + (y[off..] + z)
  {}

  // ---------- finding ----------

  /** Where FindDirectoryInfo finds a record, searching from offset `off` of page `i` on. */
  datatype Place = Place(i: nat, off: nat)

  function FindFrom(bodies: seq<seq<byte>>, i: nat, off: nat, name: Name, ext: byte): (p: Option<Place>)
    requires i <= |bodies|
    ensures p.Some? ==> i <= p.value.i < |bodies| && p.value.off + RECORD <= |bodies[p.value.i]|
    ensures p.Some? ==> p.value.i > i || p.value.off >= off
    decreases |bodies| - i, if i < |bodies| && off <= |bodies[i]| then |bodies[i]| - off else 0
  {
    if i == |bodies| then None
    else if off + RECORD > |bodies[i]| then FindFrom(bodies, i + 1, 0, name, ext)
    else if Matches(bodies[i][off..off + RECORD], name, ext) then Some(Place(i, off))
    else FindFrom(bodies, i, off + RECORD, name, ext)
  }

  /** The search finds the first record of the name, in directory order. */
  lemma {:induction false} FindFromIsFirst(bodies: seq<seq<byte>>, i: nat, off: nat, name: Name, ext: byte)
    requires i < |bodies| && off <= |bodies[i]| && off % RECORD == 0
    requires forall k :: 0 <= k < |bodies| ==> |bodies[k]| % RECORD == 0
    ensures var p := FindFrom(bodies, i, off, name, ext);
            match p
            case None => FirstMatch(Records(Behind(bodies, i, off)), name, ext) == None
            case Some(Place(k, o)) =>
              && o % RECORD == 0
              && FirstMatch(Records(Behind(bodies, i, off)), name, ext) == Some(bodies[k][o..o + RECORD])
              && Matches(bodies[k][o..o + RECORD], name, ext)
    decreases |bodies| - i, |bodies[i]| - off
  {
    hide Matches;
    var data := Behind(bodies, i, off);
    if off + RECORD > |bodies[i]| {
      assert data == Flatten(bodies[i + 1..]);
      if i + 1 < |bodies| {
        FindFromIsFirst(bodies, i + 1, 0, name, ext);
        assert bodies[i + 1..][1..] == bodies[i + 2..];
        assert data == Behind(bodies, i + 1, 0);
      }
    } else {
      assert data[..RECORD] == bodies[i][off..off + RECORD];
      assert data[RECORD..] == Behind(bodies, i, off + RECORD);
      if !Matches(bodies[i][off..off + RECORD], name, ext) {
        FindFromIsFirst(bodies, i, off + RECORD, name, ext);
        assert Records(data)[1..] == Records(Behind(bodies, i, off + RECORD));
      }
    }
  }

  // ---------- deleting ----------

  /**
   * The pages of the directory after its record at `off` on page `i` is gone: shifted over, or unlinked with
   * its page.
   */
  function PagesWithout(ps: seq<byte>, bodies: seq<seq<byte>>, i: nat): seq<byte>
    requires i < |ps| == |bodies|
  {
    if |bodies[i]| == RECORD then ps[..i] + ps[i + 1..] else ps
  }

  function BodiesWithout(bodies: seq<seq<byte>>, i: nat, off: nat): seq<seq<byte>>
    requires i < |bodies| && off + RECORD <= |bodies[i]|
  {
    if |bodies[i]| == RECORD then bodies[..i] + bodies[i + 1..]
    else bodies[i := bodies[i][..off] + bodies[i][off + RECORD..]]
  }

  lemma WithoutData(bodies: seq<seq<byte>>, i: nat, off: nat)
    requires i < |bodies| && off + RECORD <= |bodies[i]|
    ensures Flatten(BodiesWithout(bodies, i, off)) == Before(bodies, i, off) + Behind(bodies, i, off + RECORD)
  {
    var x, y, z := Flatten(bodies[..i]), bodies[i], Flatten(bodies[i + 1..]);
    var bodies' := BodiesWithout(bodies, i, off);
    hide Flatten;
    if |y| == RECORD {
      FlattenConcat(bodies[..i], bodies[i + 1..]);
      assert y[..off] == [] && y[off + RECORD..] == [];
      assert x + [] == x && [] + z == z;
    } else {
      var y' := y[..off] + y[off + RECORD..];
      FlattenAt(bodies', i);
      assert bodies'[..i] == bodies[..i] && bodies'[i + 1..] == bodies[i + 1..];
      SplitMiddle(x, y', z, off);
      assert y'[..off] == y[..off] && y'[off..] == y[off + RECORD..];
    }
  }

  /** Deleting takes exactly one record out of the entries and keeps the order of the others. */
  lemma DeleteRefines(bodies: seq<seq<byte>>, i: nat, off: nat) returns (pre: seq<Record>, post: seq<Record>)
    requires i < |bodies| && off + RECORD <= |bodies[i]| && off % RECORD == 0 && (i == 0 ==> off >= RECORD)
    requires |bodies[0]| >= RECORD && forall k :: 0 <= k < |bodies| ==> |bodies[k]| % RECORD == 0
    ensures Entries(bodies) == pre + [bodies[i][off..off + RECORD]] + post
    ensures Entries(BodiesWithout(bodies, i, off)) == pre + post
    ensures Before(bodies, i, off)[..RECORD] == bodies[0][..RECORD] && |Before(bodies, i, off)| >= RECORD
    ensures pre == Records(Before(bodies, i, off)[RECORD..]) && post == Records(Behind(bodies, i, off + RECORD))
  {
    var raw := bodies[i][off..off + RECORD];
    var front, back := Before(bodies, i, off), Behind(bodies, i, off + RECORD);
    FrontHasHeader(bodies, i, off);
    SplitAt(bodies, i, off);
    WithoutData(bodies, i, off);
    hide Flatten, BodiesWithout, Before, Behind, Records;
    pre, post := Records(front[RECORD..]), Records(back);
    RawFirst(bodies, i, off);
    CutRecord(front, raw, back);
  }

  lemma CutRecord(front: seq<byte>, raw: Record, back: seq<byte>)
    requires |front| % RECORD == 0 && |front| >= RECORD
    ensures Records((front + (raw + back))[RECORD..]) == Records(front[RECORD..]) + [raw] + Records(back)
    ensures Records((front + back)[RECORD..]) == Records(front[RECORD..]) + Records(back)
  {
    hide Records;
    assert (front + (raw + back))[RECORD..] == front[RECORD..] + (raw + back);
    assert (front + back)[RECORD..] == front[RECORD..] + back;
    RecordsConcat(front[RECORD..], raw + back);
    RecordsConcat(front[RECORD..], back);
    RecordsConcat(raw, back);
    OneRecord(raw);
  }

  lemma RawFirst(bodies: seq<seq<byte>>, i: nat, off: nat)
    requires i < |bodies| && off + RECORD <= |bodies[i]|
    ensures Behind(bodies, i, off) == bodies[i][off..off + RECORD] + Behind(bodies, i, off + RECORD)
  {
    hide Flatten;
    assert bodies[i][off..] == bodies[i][off..off + RECORD] + bodies[i][off + RECORD..];
  }

  lemma OneRecord(raw: Record)
    ensures Records(raw) == [raw]
  {
    assert raw[..RECORD] == raw && raw[RECORD..] == [];
    assert Records([]) == [];
  }

  lemma FrontHasHeader(bodies: seq<seq<byte>>, i: nat, off: nat)
    requires i < |bodies| && off <= |bodies[i]| && off % RECORD == 0 && (i == 0 ==> off >= RECORD)
    requires |bodies[0]| >= RECORD && forall k :: 0 <= k < |bodies| ==> |bodies[k]| % RECORD == 0
    ensures var front := Before(bodies, i, off);
            |front| % RECORD == 0 && |front| >= RECORD && front[..RECORD] == bodies[0][..RECORD]
  {
    FlattenRecords(bodies[..i]);
    if i == 0 {
      assert bodies[..0] == [];
      assert Before(bodies, i, off) == bodies[0][..off];
      assert bodies[0][..off][..RECORD] == bodies[0][..RECORD];
    } else {
      var front := Before(bodies, i, off);
      assert Flatten(bodies[..i]) == bodies[0] + Flatten(bodies[..i][1..]);
      assert front == bodies[0] + (Flatten(bodies[..i][1..]) + bodies[i][..off]);
    }
  }

  /**
   * Directory refinement: after deleting the first record of one name, a search for any other name
   * gives what it gave before, and a search for that name finds the next record of it, if any.
   */
  lemma OthersUnaffected(bodies: seq<seq<byte>>, name: Name, ext: byte, other: Name, otherExt: byte)
    requires bodies != [] && |bodies[0]| >= RECORD && forall k :: 0 <= k < |bodies| ==> |bodies[k]| % RECORD == 0
    requires FindFrom(bodies, 0, RECORD, name, ext).Some?
    ensures var p := FindFrom(bodies, 0, RECORD, name, ext).value;
            var raw, bodies' := bodies[p.i][p.off..p.off + RECORD], BodiesWithout(bodies, p.i, p.off);
            && FirstMatch(Entries(bodies), name, ext) == Some(raw)
            && (!Matches(raw, other, otherExt) ==>
                  FirstMatch(Entries(bodies'), other, otherExt) == FirstMatch(Entries(bodies), other, otherExt))
            && FirstMatch(Entries(bodies'), name, ext)
              == FirstMatch(Records(Behind(bodies, p.i, p.off + RECORD)), name, ext)
  {
    hide Matches, Flatten, Behind, BodiesWithout;
    var p := FindFrom(bodies, 0, RECORD, name, ext).value;
    var raw := bodies[p.i][p.off..p.off + RECORD];
    FindFromIsFirst(bodies, 0, RECORD, name, ext);
    EntriesAre(bodies);
    var pre, post := DeleteRefines(bodies, p.i, p.off);
    if !Matches(raw, other, otherExt) {
      OthersStillFound(pre, raw, post, other, otherExt);
    }
    FoundBefore(bodies, name, ext);
    NextFound(pre, post, name, ext);
  }

  lemma EntriesAre(bodies: seq<seq<byte>>)
    requires bodies != [] && |bodies[0]| >= RECORD
    ensures Entries(bodies) == Records(Behind(bodies, 0, RECORD))
  {
    SplitAt(bodies, 0, RECORD);
    assert bodies[..0] == [];
    assert Before(bodies, 0, RECORD) == bodies[0][..RECORD];
  }

  /** The data between two places. */
  function Between(bodies: seq<seq<byte>>, i: nat, off: nat, k: nat, o: nat): seq<byte>
    requires i <= k < |bodies| && off <= |bodies[i]| && o <= |bodies[k]| && (i == k ==> off <= o)
  {
    if i == k then bodies[i][off..o] else bodies[i][off..] + Flatten(bodies[i + 1..k]) + bodies[k][..o]
  }

  /** Nothing between the start of a search and the place it finds has the name. */
  lemma {:induction false} NothingBefore(bodies: seq<seq<byte>>, i: nat, off: nat, name: Name, ext: byte)
    requires i < |bodies| && off <= |bodies[i]| && off % RECORD == 0
    requires forall k :: 0 <= k < |bodies| ==> |bodies[k]| % RECORD == 0
    requires FindFrom(bodies, i, off, name, ext).Some?
    ensures var p := FindFrom(bodies, i, off, name, ext).value;
            && (p.i == i ==> off <= p.off)
            && FirstMatch(Records(Between(bodies, i, off, p.i, p.off)), name, ext) == None
    decreases |bodies| - i, |bodies[i]| - off
  {
    hide Matches, Flatten, Between, Records, FirstMatch, FindFrom;
    FindStep(bodies, i, off, name, ext);
    var p := FindFrom(bodies, i, off, name, ext).value;
    if off + RECORD > |bodies[i]| {
      NothingBefore(bodies, i + 1, 0, name, ext);
      NextPage(bodies, i, p.i, p.off);
      assert off == |bodies[i]|;
    } else if !Matches(bodies[i][off..off + RECORD], name, ext) {
      NothingBefore(bodies, i, off + RECORD, name, ext);
      NextRecord(bodies, i, off, p.i, p.off);
      OneMoreRecord(bodies[i][off..off + RECORD], Between(bodies, i, off + RECORD, p.i, p.off), name, ext);
    } else {
      NoRecords(bodies, i, off, name, ext);
    }
  }

  /** One step of the search among the records. */
  lemma FindStep(bodies: seq<seq<byte>>, i: nat, off: nat, name: Name, ext: byte)
    requires i < |bodies| && off <= |bodies[i]| && off % RECORD == 0 && |bodies[i]| % RECORD == 0
    ensures off == |bodies[i]| || off + RECORD <= |bodies[i]|
    ensures FindFrom(bodies, i, off, name, ext)
         == if off == |bodies[i]| then FindFrom(bodies, i + 1, 0, name, ext)
            else if Matches(bodies[i][off..off + RECORD], name, ext) then Some(Place(i, off))
            else FindFrom(bodies, i, off + RECORD, name, ext)
    ensures i + 1 == |bodies| ==> FindFrom(bodies, i + 1, 0, name, ext) == None
  {
    hide Matches;
  }

  lemma NoRecords(bodies: seq<seq<byte>>, i: nat, off: nat, name: Name, ext: byte)
    requires i < |bodies| && off <= |bodies[i]|
    ensures FirstMatch(Records(Between(bodies, i, off, i, off)), name, ext) == None
  {}

  lemma NextRecord(bodies: seq<seq<byte>>, i: nat, off: nat, k: nat, o: nat)
    requires i <= k < |bodies| && off + RECORD <= |bodies[i]| && o <= |bodies[k]| && (i == k ==> off + RECORD <= o)
    ensures Between(bodies, i, off, k, o) == bodies[i][off..off + RECORD] + Between(bodies, i, off + RECORD, k, o)
  {
    hide Flatten;
    if i < k {
      assert bodies[i][off..] == bodies[i][off..off + RECORD] + bodies[i][off + RECORD..];
    }
  }

  lemma OneMoreRecord(raw: Record, data: seq<byte>, name: Name, ext: byte)
    requires !Matches(raw, name, ext)
    ensures FirstMatch(Records(raw + data), name, ext) == FirstMatch(Records(data), name, ext)
  {
    hide Matches;
    assert (raw + data)[..RECORD] == raw && (raw + data)[RECORD..] == data;
    assert Records(raw + data)[1..] == Records(data);
  }

  lemma NextPage(bodies: seq<seq<byte>>, i: nat, k: nat, o: nat)
    requires i < k < |bodies| && o <= |bodies[k]|
    ensures Between(bodies, i, |bodies[i]|, k, o) == Between(bodies, i + 1, 0, k, o)
  {
    if k == i + 1 {
      assert bodies[i + 1..k] == [];
    } else {
      assert bodies[i + 1..k][0] == bodies[i + 1] && bodies[i + 1..k][1..] == bodies[i + 2..k];
    }
  }

  lemma FoundBefore(bodies: seq<seq<byte>>, name: Name, ext: byte)
    requires bodies != [] && |bodies[0]| >= RECORD
    requires forall k :: 0 <= k < |bodies| ==> |bodies[k]| % RECORD == 0
    requires FindFrom(bodies, 0, RECORD, name, ext).Some?
    ensures var p := FindFrom(bodies, 0, RECORD, name, ext).value;
            |Before(bodies, p.i, p.off)| >= RECORD
              && FirstMatch(Records(Before(bodies, p.i, p.off)[RECORD..]), name, ext) == None
  {
    NothingBefore(bodies, 0, RECORD, name, ext);
    var p := FindFrom(bodies, 0, RECORD, name, ext).value;
    var front := Before(bodies, p.i, p.off);
    if p.i == 0 {
      assert bodies[..0] == [];
      assert front == bodies[0][..p.off];
      assert front[RECORD..] == bodies[0][RECORD..p.off];
    } else {
      assert bodies[..p.i][0] == bodies[0] && bodies[..p.i][1..] == bodies[1..p.i];
      assert front == bodies[0] + Flatten(bodies[1..p.i]) + bodies[p.i][..p.off];
      assert front[RECORD..] == bodies[0][RECORD..] + Flatten(bodies[1..p.i]) + bodies[p.i][..p.off];
    }
  }

  /** The page DeleteEntry writes: the one before an emptied page, or the record's own. */
  function Rewritten(ps: seq<byte>, bodies: seq<seq<byte>>, i: nat, off: nat): (byte, seq<byte>)
    requires i < |ps| == |bodies| && off + RECORD <= |bodies[i]| && (|bodies[i]| == RECORD ==> i > 0)
  {
    if |bodies[i]| == RECORD then (ps[i - 1], bodies[i - 1] + [NextOf(ps, i)])
    else (ps[i], bodies[i][..off] + bodies[i][off + RECORD..] + [NextOf(ps, i)])
  }

  lemma PresentPage(pages: Pages, rom: Rom, pg: byte)
    requires UncachedRead(pages, rom, pg).Ok?
    ensures (rom, pg) in pages
  {}

  lemma RemoveIndex(ps: seq<byte>, i: nat)
    requires NoDuplicates(ps) && i < |ps|
    ensures NoDuplicates(ps[..i] + ps[i + 1..])
  {
    RemoveAt(ps, i);
  }

  /** The pages after a shift, one by one. */
  lemma ShiftStays(pages: Pages, rom: Rom, ps: seq<byte>, bodies: seq<seq<byte>>, i: nat, off: nat, j: nat)
    requires i < |ps| == |bodies| && off + RECORD <= |bodies[i]| && |bodies[i]| != RECORD && NoDuplicates(ps)
    requires PageOk(pages, rom, ps, bodies, i) && j < |ps| && PageOk(pages, rom, ps, bodies, j)
    ensures var w := Rewritten(ps, bodies, i, off);
            |w.1| <= 29 && PageOk(Put(pages, rom, w.0, w.1), rom, ps, BodiesWithout(bodies, i, off), j)
  {
    hide UncachedRead, Put, NextOf;
    var w := Rewritten(ps, bodies, i, off);
    PresentPage(pages, rom, w.0);
    ReadPut(pages, rom, w.0, w.1, rom, ps[j]);
  }

  /** The pages after an unlinking, one by one: page `j` was page `k` before. */
  lemma UnlinkStays(pages: Pages, rom: Rom, ps: seq<byte>, bodies: seq<seq<byte>>, i: nat, j: nat, k: nat)
    requires 0 < i < |ps| == |bodies| && |bodies[i]| == RECORD && NoDuplicates(ps)
    requires PageOk(pages, rom, ps, bodies, i) && PageOk(pages, rom, ps, bodies, i - 1)
    requires k < |ps| && k != i && j == (if k < i then k else k - 1) && PageOk(pages, rom, ps, bodies, k)
    ensures var w := Rewritten(ps, bodies, i, 0);
            |w.1| <= 29
              && PageOk(Put(pages, rom, w.0, w.1), rom, ps[..i] + ps[i + 1..], bodies[..i] + bodies[i + 1..], j)
  {
    hide UncachedRead, Put;
    var w := Rewritten(ps, bodies, i, 0);
    PresentPage(pages, rom, w.0);
    ReadPut(pages, rom, w.0, w.1, rom, ps[k]);
    var ps', bodies' := ps[..i] + ps[i + 1..], bodies[..i] + bodies[i + 1..];
    assert ps'[j] == ps[k] && bodies'[j] == bodies[k];
    assert NextOf(ps', j) == if k == i - 1 then NextOf(ps, i) else NextOf(ps, k);
  }

  /** Deleting leaves a well-formed directory. */
  lemma StillDirectory(pages: Pages, rom: Rom, ps: seq<byte>, bodies: seq<seq<byte>>, i: nat, off: nat)
    requires Directory(pages, rom, ps, bodies) && i < |ps| && off + RECORD <= |bodies[i]| && (i == 0 ==> off >= RECORD)
    ensures |bodies[i]| == RECORD ==> i > 0
    ensures var w := Rewritten(ps, bodies, i, off);
            |w.1| <= 29
              && Directory(Put(pages, rom, w.0, w.1), rom, PagesWithout(ps, bodies, i), BodiesWithout(bodies, i, off))
  {
    hide UncachedRead, Put, PageOk, Rewritten;
    var w, ps', bodies' := Rewritten(ps, bodies, i, off), PagesWithout(ps, bodies, i), BodiesWithout(bodies, i, off);
    RemoveIndex(ps, i);
    forall j | 0 <= j < |ps'|
      ensures |w.1| <= 29 && PageOk(Put(pages, rom, w.0, w.1), rom, ps', bodies', j)
    {
      assert PageOk(pages, rom, ps, bodies, i);
      if |bodies[i]| == RECORD {
        var k := if j >= i then j + 1 else j;
        assert PageOk(pages, rom, ps, bodies, k) && PageOk(pages, rom, ps, bodies, i - 1);
        UnlinkStays(pages, rom, ps, bodies, i, j, k);
      } else {
        assert PageOk(pages, rom, ps, bodies, j);
        ShiftStays(pages, rom, ps, bodies, i, off, j);
      }
    }
    assert PageOk(Put(pages, rom, w.0, w.1), rom, ps', bodies', 0);
    HeaderStays(bodies, i, off);
  }

  lemma HeaderStays(bodies: seq<seq<byte>>, i: nat, off: nat)
    requires i < |bodies| && off + RECORD <= |bodies[i]| && (i == 0 ==> off >= RECORD) && |bodies[0]| >= RECORD
    ensures var bodies' := BodiesWithout(bodies, i, off);
            bodies' != [] && |bodies'[0]| >= RECORD && bodies'[0][..RECORD] == bodies[0][..RECORD]
            && bodies'[0][0] == bodies[0][0] && bodies'[0][1] == bodies[0][1]
  {
    if i == 0 {
      var b := bodies[0][..off] + bodies[0][off + RECORD..];
      assert b[..RECORD] == bodies[0][..off][..RECORD] == bodies[0][..RECORD];
    }
  }

  lemma FlattenFrom(bodies: seq<seq<byte>>, j: nat)
    requires j < |bodies|
    ensures Flatten(bodies[j..]) == bodies[j] + Flatten(bodies[j + 1..])
    ensures j + 1 == |bodies| ==> Flatten(bodies[j..]) == bodies[j]
  {
    assert bodies[j..][0] == bodies[j] && bodies[j..][1..] == bodies[j + 1..];
  }

  /** A directory read as a file: its pages' data in order. */
  lemma {:induction false} FollowDirectory(pages: Pages, rom: Rom, ps: seq<byte>, bodies: seq<seq<byte>>, j: nat)
    requires Directory(pages, rom, ps, bodies) && j < |ps|
    ensures Follow(pages, rom, ps[j], |ps| - j) == Trail(ps[j..], Flatten(bodies[j..]), Complete)
    decreases |ps| - j
  {
    hide UncachedRead, Follow;
    assert PageOk(pages, rom, ps, bodies, j);
    var d := bodies[j] + [NextOf(ps, j)];
    assert d[..|d| - 1] == bodies[j];
    FlattenFrom(bodies, j);
    if j + 1 < |ps| {
      assert PageOk(pages, rom, ps, bodies, j + 1);
      FollowNext(pages, rom, ps[j], |ps| - j);
      FollowDirectory(pages, rom, ps, bodies, j + 1);
      assert ps[j..] == [ps[j]] + ps[j + 1..];
    } else {
      FollowLast(pages, rom, ps[j]);
      assert ps[j..] == [ps[j]];
    }
  }

  // ---------- the code ----------

  /** FileInfo, without the name. */
  datatype FileInfo = FileInfo(ext: byte, spage: byte, numPgs: byte, attrib: nat, dpage: byte, offset: nat,
                               pdpage: byte)

  function InfoOf(raw: Record, dpage: byte, offset: nat, pdpage: byte): FileInfo {
    var ext := raw[4] % 128;
    var attrib := if raw[4] >= 128 then 1 else 0;
    FileInfo(ext, raw[5], raw[6], if ext == 0x7F then 2 * attrib else attrib, dpage, offset, pdpage)
  }

  function InfoAt(ps: seq<byte>, bodies: seq<seq<byte>>, p: Place): FileInfo
    requires p.i < |ps| == |bodies| && p.off + RECORD <= |bodies[p.i]|
  {
    InfoOf(bodies[p.i][p.off..p.off + RECORD], ps[p.i], p.off, if p.i == 0 then ps[0] else ps[p.i - 1])
  }

  /** What a search of a directory ends with on a sound link. */
  function Lookup(ps: seq<byte>, bodies: seq<seq<byte>>, name: Name, ext: byte): Result<FileInfo>
    requires 0 < |ps| == |bodies|
  {
    match FindFrom(bodies, 0, RECORD, name, ext)
    case Some(p) => Ok(InfoAt(ps, bodies, p))
    case None => Err(NoDirectoryEntry)
  }

  predicate SameFile(a: Result<FileInfo>, b: Result<FileInfo>) {
    if a.Ok? && b.Ok? then
      a.value.ext == b.value.ext && a.value.spage == b.value.spage && a.value.numPgs == b.value.numPgs
        && a.value.attrib == b.value.attrib
    else a == b
  }

  /** A lookup is decided by the first record of the name among the entries. */
  lemma LookupIs(ps: seq<byte>, bodies: seq<seq<byte>>, name: Name, ext: byte)
    requires 0 < |ps| == |bodies| && |bodies[0]| >= RECORD
    requires forall k :: 0 <= k < |bodies| ==> |bodies[k]| % RECORD == 0
    ensures match FirstMatch(Entries(bodies), name, ext)
            case None => Lookup(ps, bodies, name, ext) == Err(NoDirectoryEntry)
            case Some(raw) => SameFile(Lookup(ps, bodies, name, ext), Ok(InfoOf(raw, 0, 0, 0)))
  {
    hide Matches, Behind;
    EntriesAre(bodies);
    FindFromIsFirst(bodies, 0, RECORD, name, ext);
  }

  lemma BodiesStayWhole(bodies: seq<seq<byte>>, i: nat, off: nat)
    requires i < |bodies| && off + RECORD <= |bodies[i]| && forall k :: 0 <= k < |bodies| ==> |bodies[k]| % RECORD == 0
    ensures forall k :: 0 <= k < |BodiesWithout(bodies, i, off)| ==> |BodiesWithout(bodies, i, off)[k]| % RECORD == 0
  {}

  /** After a deletion every file of another name is found as before: same start page, size and attributes. */
  lemma LookupAfterDelete(ps: seq<byte>, bodies: seq<seq<byte>>, name: Name, ext: byte, other: Name, otherExt: byte)
    requires 0 < |ps| == |bodies| && |bodies[0]| >= RECORD
    requires forall k :: 0 <= k < |bodies| ==> |bodies[k]| % RECORD == 0
    requires FindFrom(bodies, 0, RECORD, name, ext).Some?
    requires var p := FindFrom(bodies, 0, RECORD, name, ext).value;
             !Matches(bodies[p.i][p.off..p.off + RECORD], other, otherExt)
    ensures var p := FindFrom(bodies, 0, RECORD, name, ext).value;
            var ps', bodies' := PagesWithout(ps, bodies, p.i), BodiesWithout(bodies, p.i, p.off);
            0 < |ps'| == |bodies'|
              && SameFile(Lookup(ps', bodies', other, otherExt), Lookup(ps, bodies, other, otherExt))
  {
    hide Matches, Behind, Entries;
    var p := FindFrom(bodies, 0, RECORD, name, ext).value;
    OthersUnaffected(bodies, name, ext, other, otherExt);
    HeaderStays(bodies, p.i, p.off);
    BodiesStayWhole(bodies, p.i, p.off);
    LookupIs(ps, bodies, other, otherExt);
    hide FindFrom;
    LookupIs(PagesWithout(ps, bodies, p.i), BodiesWithout(bodies, p.i, p.off), other, otherExt);
  }

  // ---------- the search as it runs in its buffer ----------

  /** FindDirectoryInfo's buffer and the bytes behind it that a comparison at its last byte reaches. */
  type Scratch = s: seq<byte> | |s| == 35 witness seq(35, _ => 0)

  lemma DirectoryParts(pages: Pages, rom: Rom, ps: seq<byte>, bodies: seq<seq<byte>>)
    requires Directory(pages, rom, ps, bodies)
    ensures 0 < |ps| == |bodies|
  {}

  /** The pages of a directory without regard to a part. */
  predicate Formed(ps: seq<byte>, bodies: seq<seq<byte>>) {
    && 0 < |ps| == |bodies| && |bodies[0]| >= RECORD
    && forall k :: 0 <= k < |bodies| ==> |bodies[k]| % RECORD == 0 && |bodies[k]| <= 28
  }

  lemma DirectoryFormed(pages: Pages, rom: Rom, ps: seq<byte>, bodies: seq<seq<byte>>)
    requires Directory(pages, rom, ps, bodies)
    ensures Formed(ps, bodies)
  {
    forall k | 0 <= k < |bodies|
      ensures |bodies[k]| % RECORD == 0 && |bodies[k]| <= 28
    {
      assert PageOk(pages, rom, ps, bodies, k);
    }
  }

  /** The buffer with page `n` in it, behind which the earlier pages show, and `stack` behind them. */
  function BufferAt(ps: seq<byte>, bodies: seq<seq<byte>>, stack: Scratch, n: nat): Scratch
    requires Formed(ps, bodies) && n < |ps|
    decreases n
  {
    Overwrite(if n == 0 then stack else BufferAt(ps, bodies, stack, n - 1), 0, bodies[n] + [NextOf(ps, n)])
  }

  /** The search, which compares the continuation byte of page `n` and what lies behind it like a record. */
  function Search(ps: seq<byte>, bodies: seq<seq<byte>>, stack: Scratch, n: nat, i: nat, name: Name, ext: byte)
    : (p: Option<Place>)
    requires Formed(ps, bodies) && n < |ps| && i <= |bodies[n]|
    ensures p.Some? ==>
              n <= p.value.i < |ps| && p.value.off <= |bodies[p.value.i]| && (p.value.i > n || p.value.off >= i)
    decreases |ps| - n, |bodies[n]| - i
  {
    hide Matches, BufferAt;
    if Matches(BufferAt(ps, bodies, stack, n)[i..i + RECORD], name, ext) then Some(Place(n, i))
    else if i + RECORD <= |bodies[n]| then Search(ps, bodies, stack, n, i + RECORD, name, ext)
    else SearchOn(ps, bodies, stack, n + 1, name, ext)
  }

  /** The search from page `n` on, if there is one. */
  function SearchOn(ps: seq<byte>, bodies: seq<seq<byte>>, stack: Scratch, n: nat, name: Name, ext: byte)
    : (p: Option<Place>)
    requires Formed(ps, bodies) && n <= |ps|
    ensures p.Some? ==> n <= p.value.i < |ps| && p.value.off <= |bodies[p.value.i]|
    decreases |ps| - n, 30
  {
    if n < |ps| then Search(ps, bodies, stack, n, 0, name, ext) else None
  }

  /** What FindDirectoryInfo reports for a place: the seven bytes there, whether they are a record or not. */
  function FoundInfo(ps: seq<byte>, bodies: seq<seq<byte>>, stack: Scratch, p: Place): FileInfo
    requires Formed(ps, bodies) && p.i < |ps| && p.off <= |bodies[p.i]|
  {
    var raw := BufferAt(ps, bodies, stack, p.i)[p.off..p.off + RECORD];
    InfoOf(raw, ps[p.i], p.off, if p.i == 0 then ps[0] else ps[p.i - 1])
  }

  /** What the search ends with on a sound link. */
  function Found(ps: seq<byte>, bodies: seq<seq<byte>>, stack: Scratch, name: Name, ext: byte): Result<FileInfo>
    requires Formed(ps, bodies)
  {
    match Search(ps, bodies, stack, 0, RECORD, name, ext)
    case Some(p) => Ok(FoundInfo(ps, bodies, stack, p))
    case None => Err(NoDirectoryEntry)
  }

  /** The continuation byte of page `n` and the bytes behind it match. */
  predicate Mistaken(ps: seq<byte>, bodies: seq<seq<byte>>, stack: Scratch, n: nat, name: Name, ext: byte)
    requires Formed(ps, bodies) && n < |ps|
  {
    Matches(BufferAt(ps, bodies, stack, n)[|bodies[n]|..|bodies[n]| + RECORD], name, ext)
  }

  /** The first page from `n` on where they do. */
  function FirstMistaken(ps: seq<byte>, bodies: seq<seq<byte>>, stack: Scratch, n: nat, name: Name, ext: byte): (k: nat)
    requires Formed(ps, bodies) && n <= |ps|
    ensures n <= k <= |ps| && (k < |ps| ==> Mistaken(ps, bodies, stack, k, name, ext))
    ensures forall j :: n <= j < k ==> !Mistaken(ps, bodies, stack, j, name, ext)
    decreases |ps| - n
  {
    hide Mistaken;
    if n == |ps| || Mistaken(ps, bodies, stack, n, name, ext) then n
    else FirstMistaken(ps, bodies, stack, n + 1, name, ext)
  }

  /** The buffer shows the records of the page just read. */
  lemma BufferShows(ps: seq<byte>, bodies: seq<seq<byte>>, stack: Scratch, n: nat, i: nat)
    requires Formed(ps, bodies) && n < |ps| && i + RECORD <= |bodies[n]|
    ensures BufferAt(ps, bodies, stack, n)[i..i + RECORD] == bodies[n][i..i + RECORD]
  {
    hide BufferAt;
    forall j | i <= j < i + RECORD
      ensures BufferAt(ps, bodies, stack, n)[j] == bodies[n][j]
    {
      BufferByte(ps, bodies, stack, n, j);
    }
  }

  /** The bytes of page `n` and its continuation byte. */
  lemma BufferByte(ps: seq<byte>, bodies: seq<seq<byte>>, stack: Scratch, n: nat, j: nat)
    requires Formed(ps, bodies) && n < |ps| && j < 35
    ensures BufferAt(ps, bodies, stack, n)[j]
         == if j < |bodies[n]| then bodies[n][j]
            else if j == |bodies[n]| then NextOf(ps, n)
            else if n == 0 then stack[j]
            else BufferAt(ps, bodies, stack, n - 1)[j]
  {
    hide Overwrite;
    var held := if n == 0 then stack else BufferAt(ps, bodies, stack, n - 1);
    OverwriteByte(held, bodies[n] + [NextOf(ps, n)], j);
  }

  /** What the search finds: the first record of the name, unless some page left before it is mistaken for a match. */
  lemma {:induction false} SearchIs(ps: seq<byte>, bodies: seq<seq<byte>>, stack: Scratch, n: nat, i: nat,
                                    name: Name, ext: byte)
    requires Formed(ps, bodies) && n < |ps| && i % RECORD == 0 && i <= |bodies[n]|
    ensures var f, k := FindFrom(bodies, n, i, name, ext), FirstMistaken(ps, bodies, stack, n, name, ext);
            Search(ps, bodies, stack, n, i, name, ext)
              == if k < |ps| && (f.None? || k < f.value.i) then Some(Place(k, |bodies[k]|)) else f
    decreases |ps| - n, |bodies[n]| - i
  {
    hide Matches, BufferAt;
    if i < |bodies[n]| {
      BufferShows(ps, bodies, stack, n, i);
      if !Matches(bodies[n][i..i + RECORD], name, ext) {
        SearchIs(ps, bodies, stack, n, i + RECORD, name, ext);
      }
    } else if n + 1 < |ps| && !Mistaken(ps, bodies, stack, n, name, ext) {
      SearchIs(ps, bodies, stack, n + 1, 0, name, ext);
    }
  }

  /**
   * The search is right exactly if no page it leaves before the file (all of them, if there is no such file)
   * ends in bytes that match; otherwise it reports the first such page as the file's place.
   */
  lemma SearchRightIff(ps: seq<byte>, bodies: seq<seq<byte>>, stack: Scratch, name: Name, ext: byte)
    requires Formed(ps, bodies) && NoDuplicates(ps)
    ensures var f, k := FindFrom(bodies, 0, RECORD, name, ext), FirstMistaken(ps, bodies, stack, 0, name, ext);
            var left := if f.Some? then f.value.i else |ps|;
            && (Found(ps, bodies, stack, name, ext) == Lookup(ps, bodies, name, ext) <==>
                  forall j :: 0 <= j < left ==> !Mistaken(ps, bodies, stack, j, name, ext))
            && (k < left ==> Found(ps, bodies, stack, name, ext)
                             == Ok(FoundInfo(ps, bodies, stack, Place(k, |bodies[k]|))))
  {
    hide Matches, BufferAt, FindFrom, Search, Mistaken;
    SearchIs(ps, bodies, stack, 0, RECORD, name, ext);
    var f, k := FindFrom(bodies, 0, RECORD, name, ext), FirstMistaken(ps, bodies, stack, 0, name, ext);
    if f.Some? {
      FoundIsInfo(ps, bodies, stack, f.value);
      if k < f.value.i {
        assert ps[k] != ps[f.value.i];
      }
    }
  }

  /** The search only ends at bytes that match. */
  lemma {:induction false} SearchMatches(ps: seq<byte>, bodies: seq<seq<byte>>, stack: Scratch, n: nat, i: nat,
                                         name: Name, ext: byte)
    requires Formed(ps, bodies) && n < |ps| && i <= |bodies[n]|
    ensures var p := Search(ps, bodies, stack, n, i, name, ext);
            p.Some? ==> Matches(BufferAt(ps, bodies, stack, p.value.i)[p.value.off..p.value.off + RECORD], name, ext)
    decreases |ps| - n, |bodies[n]| - i
  {
    hide Matches, BufferAt;
    if i + RECORD <= |bodies[n]| {
      SearchMatches(ps, bodies, stack, n, i + RECORD, name, ext);
    } else if n + 1 < |ps| {
      SearchMatches(ps, bodies, stack, n + 1, 0, name, ext);
    }
  }

  lemma {:induction false} NoneMatches(rs: seq<Record>, name: Name, ext: byte)
    requires FirstMatch(rs, name, ext) == None
    ensures forall k :: 0 <= k < |rs| ==> !Matches(rs[k], name, ext)
  {
    hide Matches;
    if rs != [] {
      NoneMatches(rs[1..], name, ext);
      forall k | 0 <= k < |rs|
        ensures !Matches(rs[k], name, ext)
      {
        if k > 0 { assert rs[k] == rs[1..][k - 1]; }
      }
    }
  }

  /**
   * What the search reports, on the bytes of the directory: seven bytes with the name and the extension, and what
   * they say about the file; nothing exactly if no entry has that name and extension.
   */
  lemma FoundBytes(ps: seq<byte>, bodies: seq<seq<byte>>, stack: Scratch, name: Name, ext: byte)
    requires Formed(ps, bodies)
    ensures Found(ps, bodies, stack, name, ext).Ok? ==>
      var p, info := Search(ps, bodies, stack, 0, RECORD, name, ext), Found(ps, bodies, stack, name, ext).value;
      && p.Some? && info.dpage == ps[p.value.i] && info.offset == p.value.off
      && var raw := BufferAt(ps, bodies, stack, p.value.i)[p.value.off..p.value.off + 7];
         && raw[4] % 128 == ext == info.ext && info.spage == raw[5] && info.numPgs == raw[6]
         && info.attrib == (if raw[4] < 128 then 0 else if ext == 0x7F then 2 else 1)
         && forall j :: 0 <= j < 4 ==>
              || (97 <= raw[j] <= 122 && name[j] == raw[j] - 32)
              || (!(97 <= raw[j] <= 122) && name[j] == raw[j])
              || (raw[j] == 0x20 && name[j] == 0xCC)
    ensures Found(ps, bodies, stack, name, ext).Err? ==>
      forall k :: 0 <= k < |Entries(bodies)| ==>
        !(&& Entries(bodies)[k][4] % 128 == ext
          && forall j :: 0 <= j < 4 ==>
               || (97 <= Entries(bodies)[k][j] <= 122 && name[j] == Entries(bodies)[k][j] - 32)
               || (!(97 <= Entries(bodies)[k][j] <= 122) && name[j] == Entries(bodies)[k][j])
               || (Entries(bodies)[k][j] == 0x20 && name[j] == 0xCC))
  {
    hide Matches, BufferAt, FindFrom, Search, Entries, Behind;
    var p := Search(ps, bodies, stack, 0, RECORD, name, ext);
    if p.Some? {
      SearchMatches(ps, bodies, stack, 0, RECORD, name, ext);
      MatchesIff(BufferAt(ps, bodies, stack, p.value.i)[p.value.off..p.value.off + RECORD], name, ext);
    } else {
      SearchIs(ps, bodies, stack, 0, RECORD, name, ext);
      FindFromIsFirst(bodies, 0, RECORD, name, ext);
      EntriesAre(bodies);
      NoneMatches(Entries(bodies), name, ext);
      forall k | 0 <= k < |Entries(bodies)|
        ensures !(&& Entries(bodies)[k][4] % 128 == ext
                  && forall j :: 0 <= j < 4 ==>
                       || (97 <= Entries(bodies)[k][j] <= 122 && name[j] == Entries(bodies)[k][j] - 32)
                       || (!(97 <= Entries(bodies)[k][j] <= 122) && name[j] == Entries(bodies)[k][j])
                       || (Entries(bodies)[k][j] == 0x20 && name[j] == 0xCC))
      {
        MatchesIff(Entries(bodies)[k], name, ext);
      }
    }
  }

  /** A file is told from those with another extension: it is found by its own name with its own start page. */
  lemma ExtensionsApart(ps: seq<byte>, bodies: seq<seq<byte>>, pre: seq<Record>, raw: Record, post: seq<Record>)
    requires Formed(ps, bodies) && Entries(bodies) == pre + [raw] + post
    requires forall k :: 0 <= k < |pre| ==> pre[k][4] % 128 != raw[4] % 128
    ensures var r := Lookup(ps, bodies, OwnName(raw), raw[4] % 128);
            r.Ok? && r.value.spage == raw[5] && r.value.numPgs == raw[6] && r.value.ext == raw[4] % 128
  {
    hide Entries, FindFrom, Matches, FirstMatch;
    LookupIs(ps, bodies, OwnName(raw), raw[4] % 128);
    OwnMatches(raw);
    FirstOfExtension(pre, raw, post);
  }

  /** The name of a record, in capitals. */
  function OwnName(raw: Record): Name { [Upper(raw[0]), Upper(raw[1]), Upper(raw[2]), Upper(raw[3])] }

  lemma OwnMatches(raw: Record)
    ensures Matches(raw, OwnName(raw), raw[4] % 128)
  {}

  lemma {:induction false} FirstOfExtension(pre: seq<Record>, raw: Record, post: seq<Record>)
    requires forall k :: 0 <= k < |pre| ==> pre[k][4] % 128 != raw[4] % 128
    ensures FirstMatch(pre + [raw] + post, OwnName(raw), raw[4] % 128) == Some(raw)
    decreases |pre|
  {
    hide Matches, OwnName;
    var all := pre + [raw] + post;
    if pre == [] {
      OwnMatches(raw);
      assert all[0] == raw;
    } else {
      MatchesIff(pre[0], OwnName(raw), raw[4] % 128);
      assert all[0] == pre[0] && all[1..] == pre[1..] + [raw] + post;
      FirstOfExtension(pre[1..], raw, post);
    }
  }

  /** Where there is a record, it is what the search reports. */
  lemma FoundIsInfo(ps: seq<byte>, bodies: seq<seq<byte>>, stack: Scratch, p: Place)
    requires Formed(ps, bodies) && p.i < |ps| && p.off + RECORD <= |bodies[p.i]|
    ensures FoundInfo(ps, bodies, stack, p) == InfoAt(ps, bodies, p)
  {
    BufferShows(ps, bodies, stack, p.i, p.off);
  }

  /** A page can only be mistaken for the file if its continuation byte matches the first character. */
  lemma ContinuationDecides(ps: seq<byte>, bodies: seq<seq<byte>>, stack: Scratch, n: nat, name: Name, ext: byte)
    requires Formed(ps, bodies) && n < |ps| && !CharMatches(NextOf(ps, n), name[0])
    ensures !Mistaken(ps, bodies, stack, n, name, ext)
  {
    BufferByte(ps, bodies, stack, n, |bodies[n]|);
  }

  /** With page numbers below 0x20 the search is right for every name without control characters. */
  lemma SmallPartsRight(ps: seq<byte>, bodies: seq<seq<byte>>, stack: Scratch, name: Name, ext: byte)
    requires Formed(ps, bodies) && NoDuplicates(ps) && (forall i :: 0 <= i < |ps| ==> ps[i] < 0x20) && name[0] >= 0x20
    ensures Found(ps, bodies, stack, name, ext) == Lookup(ps, bodies, name, ext)
  {
    hide Mistaken, FindFrom, Search, FoundInfo;
    SearchRightIff(ps, bodies, stack, name, ext);
    forall j | 0 <= j < |ps|
      ensures !Mistaken(ps, bodies, stack, j, name, ext)
    {
      ContinuationDecides(ps, bodies, stack, j, name, ext);
    }
  }

  /**
   * The failing run, whatever the stack held: a directory on pages 0, 5 and 0x21 with three records, one and the
   * rest. When page 5 is left, its continuation byte 0x21 stands in front of all but the first byte of the first
   * record, which page 0 left in the buffer: the name `!` and that record's other characters. The search reports
   * that record's start page for it, on page 5.
   */
  lemma WrongFile(header: Record, r1: Record, r2: Record, r3: Record, r4: Record, rest: seq<byte>, stack: Scratch)
    requires |rest| % RECORD == 0 && |rest| <= 28
    ensures var ps, bodies := WrongPages(), WrongBodies(header, r1, r2, r3, r4, rest);
            var name, ext := WrongName(r1), r1[4] % 128;
            && Formed(ps, bodies)
            && (FirstMatch([r1, r2, r3, r4], name, ext) == None ==>
                  && Search(ps, bodies, stack, 0, RECORD, name, ext) == Some(Place(1, RECORD))
                  && FoundInfo(ps, bodies, stack, Place(1, RECORD)).spage == r1[5]
                  && Found(ps, bodies, stack, name, ext) != Lookup(ps, bodies, name, ext))
  {
    hide Matches, BufferAt, FindFrom, Search, Lookup, FirstMistaken;
    var name, ext := WrongName(r1), r1[4] % 128;
    var ps, bodies := WrongPages(), WrongBodies(header, r1, r2, r3, r4, rest);
    WrongBytes(header, r1, r2, r3, r4, rest, stack);
    WrongMatches([0x21] + r1[1..], name, ext);
    ContinuationDecides(ps, bodies, stack, 0, name, ext);
    FirstMistakenIs(ps, bodies, stack, 1, name, ext);
    if FirstMatch([r1, r2, r3, r4], name, ext) == None {
      NotBefore(header, r1, r2, r3, r4, rest, name, ext);
      SearchIs(ps, bodies, stack, 0, RECORD, name, ext);
      SearchRightIff(ps, bodies, stack, name, ext);
    }
  }

  function WrongPages(): seq<byte> { [0, 5, 0x21] }

  function WrongName(r1: Record): Name { [0x21, Upper(r1[1]), Upper(r1[2]), Upper(r1[3])] }

  function WrongBodies(header: Record, r1: Record, r2: Record, r3: Record, r4: Record,
                       rest: seq<byte>): seq<seq<byte>>
  {
    [header + r1 + r2 + r3, r4, rest]
  }

  lemma WrongMatches(raw: Record, name: Name, ext: byte)
    requires name == [raw[0], Upper(raw[1]), Upper(raw[2]), Upper(raw[3])] && Upper(raw[0]) == raw[0]
    requires ext == raw[4] % 128
    ensures Matches(raw, name, ext)
  {}

  lemma FirstMistakenIs(ps: seq<byte>, bodies: seq<seq<byte>>, stack: Scratch, k: nat, name: Name, ext: byte)
    requires Formed(ps, bodies) && k < |ps| && Mistaken(ps, bodies, stack, k, name, ext)
    requires forall j :: 0 <= j < k ==> !Mistaken(ps, bodies, stack, j, name, ext)
    ensures FirstMistaken(ps, bodies, stack, 0, name, ext) == k
  {
    hide Mistaken;
  }

  lemma WrongBytes(header: Record, r1: Record, r2: Record, r3: Record, r4: Record, rest: seq<byte>, stack: Scratch)
    requires |rest| % RECORD == 0 && |rest| <= 28
    ensures var ps, bodies := WrongPages(), WrongBodies(header, r1, r2, r3, r4, rest);
            Formed(ps, bodies) && BufferAt(ps, bodies, stack, 1)[RECORD..2 * RECORD] == [0x21] + r1[1..]
  {
    hide BufferAt;
    var ps, bodies := WrongPages(), WrongBodies(header, r1, r2, r3, r4, rest);
    forall j | 0 <= j < RECORD
      ensures BufferAt(ps, bodies, stack, 1)[RECORD + j] == ([0x21] + r1[1..])[j]
    {
      BufferByte(ps, bodies, stack, 1, RECORD + j);
      BufferByte(ps, bodies, stack, 0, RECORD + j);
    }
  }

  lemma NotBefore(header: Record, r1: Record, r2: Record, r3: Record, r4: Record, rest: seq<byte>, name: Name,
                  ext: byte)
    requires FirstMatch([r1, r2, r3, r4], name, ext) == None
    ensures var f := FindFrom(WrongBodies(header, r1, r2, r3, r4, rest), 0, RECORD, name, ext);
            f.None? || f.value.i == 2
  {
    hide Matches;
    var bodies := WrongBodies(header, r1, r2, r3, r4, rest);
    assert [r1, r2, r3, r4][1..] == [r2, r3, r4] && [r2, r3, r4][1..] == [r3, r4] && [r3, r4][1..] == [r4];
    assert bodies[0][7..14] == r1 && bodies[0][14..21] == r2 && bodies[0][21..28] == r3 && bodies[1][0..7] == r4;
    assert FirstMatch([r2, r3, r4], name, ext) == FirstMatch([r3, r4], name, ext) == None;
    assert FirstMatch([r4], name, ext) == None;
    assert FindFrom(bodies, 0, 7, name, ext) == FindFrom(bodies, 0, 14, name, ext);
    assert FindFrom(bodies, 0, 14, name, ext) == FindFrom(bodies, 0, 21, name, ext);
    assert FindFrom(bodies, 0, 21, name, ext) == FindFrom(bodies, 0, 28, name, ext);
    assert FindFrom(bodies, 0, 28, name, ext) == FindFrom(bodies, 1, 0, name, ext);
    assert FindFrom(bodies, 1, 0, name, ext) == FindFrom(bodies, 1, 7, name, ext);
    assert FindFrom(bodies, 1, 7, name, ext) == FindFrom(bodies, 2, 0, name, ext);
  }

  // ---------- the code ----------

  /** The buffer after the next page. */
  lemma NextBuffer(ps: seq<byte>, bodies: seq<seq<byte>>, stack: Scratch, n: nat, held: Scratch)
    requires Formed(ps, bodies) && n < |ps| && held == if n == 0 then stack else BufferAt(ps, bodies, stack, n - 1)
    ensures Overwrite(held, 0, bodies[n] + [NextOf(ps, n)]) == BufferAt(ps, bodies, stack, n)
  {}

  /** One step of the search. */
  lemma SearchStep(ps: seq<byte>, bodies: seq<seq<byte>>, stack: Scratch, n: nat, i: nat, name: Name, ext: byte)
    requires Formed(ps, bodies) && n < |ps| && i <= |bodies[n]|
    ensures i + RECORD <= 35
    ensures Search(ps, bodies, stack, n, i, name, ext)
         == if Matches(BufferAt(ps, bodies, stack, n)[i..i + RECORD], name, ext) then Some(Place(n, i))
            else if i + RECORD <= |bodies[n]| then Search(ps, bodies, stack, n, i + RECORD, name, ext)
            else SearchOn(ps, bodies, stack, n + 1, name, ext)
  {
    hide Matches, BufferAt, SearchOn;
  }

  lemma SearchPage(ps: seq<byte>, bodies: seq<seq<byte>>, stack: Scratch, n: nat, name: Name, ext: byte)
    requires Formed(ps, bodies) && n < |ps|
    ensures SearchOn(ps, bodies, stack, n, name, ext) == Search(ps, bodies, stack, n, 0, name, ext)
  {}

  lemma FoundAt(ps: seq<byte>, bodies: seq<seq<byte>>, stack: Scratch, n: nat, i: nat, name: Name, ext: byte)
    requires Formed(ps, bodies) && n < |ps| && i <= |bodies[n]|
    requires Search(ps, bodies, stack, 0, RECORD, name, ext) == Some(Place(n, i))
    ensures var prev := if n == 0 then ps[0] else ps[n - 1];
            Found(ps, bodies, stack, name, ext)
              == Ok(InfoOf(BufferAt(ps, bodies, stack, n)[i..i + RECORD], ps[n], i, prev))
  {}

  lemma FoundNowhere(ps: seq<byte>, bodies: seq<seq<byte>>, stack: Scratch, name: Name, ext: byte)
    requires Formed(ps, bodies)
    requires Search(ps, bodies, stack, 0, RECORD, name, ext) == SearchOn(ps, bodies, stack, |ps|, name, ext)
    ensures Found(ps, bodies, stack, name, ext) == Err(NoDirectoryEntry)
  {}

  /** Page `n` of a directory, and where it leads. */
  lemma PageRead(pages: Pages, rom: Rom, ps: seq<byte>, bodies: seq<seq<byte>>, n: nat)
    requires Directory(pages, rom, ps, bodies) && n < |ps|
    ensures UncachedRead(pages, rom, ps[n]) == Ok(bodies[n] + [NextOf(ps, n)]) && |bodies[n]| <= 28
    ensures (ps[n] == ps[0] <==> n == 0) && (NextOf(ps, n) == 0 <==> n + 1 == |ps|)
    ensures n + 1 < |ps| ==> NextOf(ps, n) == ps[n + 1]
    ensures |bodies[0]| >= RECORD
  {
    hide UncachedRead;
    assert PageOk(pages, rom, ps, bodies, n);
    if n + 1 < |ps| {
      assert PageOk(pages, rom, ps, bodies, n + 1);
    }
  }

  lemma PageWhole(pages: Pages, rom: Rom, ps: seq<byte>, bodies: seq<seq<byte>>, n: nat)
    requires Directory(pages, rom, ps, bodies) && n < |ps|
    ensures |bodies[n]| % RECORD == 0
  {
    assert PageOk(pages, rom, ps, bodies, n);
  }

  lemma FirstBytes(pages: Pages, rom: Rom, ps: seq<byte>, bodies: seq<seq<byte>>, stack: Scratch)
    requires Directory(pages, rom, ps, bodies) && Formed(ps, bodies)
    ensures BufferAt(ps, bodies, stack, 0)[0] == 0xAA && BufferAt(ps, bodies, stack, 0)[1] == 0
  {
    BufferByte(ps, bodies, stack, 0, 0);
    BufferByte(ps, bodies, stack, 0, 1);
  }

  /** The comparison of seven bytes with name and extension. */
  method MatchAt(pgbuf: array<byte>, i: nat, name: Name, ext: byte) returns (found: bool)
    requires i + RECORD <= pgbuf.Length
    ensures found <==> Matches(pgbuf[i..i + RECORD], name, ext)
  {
    var j := 0;
    while j < 4 && CharMatches(pgbuf[i + j], name[j])
      invariant 0 <= j <= 4
      invariant forall k :: 0 <= k < j ==> CharMatches(pgbuf[i + k], name[k])
    {
      j := j + 1;
    }
    found := j == 4 && pgbuf[i + 4] % 128 == ext;
    if j < 4 {
      assert !CharMatches(pgbuf[i..i + RECORD][j], name[j]);
    }
  }

  /** FindDirectoryInfo's loop over the page of `flag` bytes in its buffer: the place's offset, or past the page. */
  method ScanPage(pgbuf: array<byte>, flag: nat, first: nat, name: Name, ext: byte,
                  ghost ps: seq<byte>, ghost bodies: seq<seq<byte>>, ghost stack: Scratch, ghost n: nat)
    returns (i: nat)
    requires Formed(ps, bodies) && n < |ps| && flag == |bodies[n]| + 1
    requires pgbuf.Length == 35 && pgbuf[..] == BufferAt(ps, bodies, stack, n)
    requires first < flag
    ensures Search(ps, bodies, stack, n, first, name, ext)
            == if i < flag then Some(Place(n, i)) else SearchOn(ps, bodies, stack, n + 1, name, ext)
  {
    hide Matches, BufferAt, Search, SearchOn, Formed;
    i := first;
    while i < flag
      invariant Search(ps, bodies, stack, n, first, name, ext)
                == if i < flag then Search(ps, bodies, stack, n, i, name, ext)
                   else SearchOn(ps, bodies, stack, n + 1, name, ext)
    {
      SearchStep(ps, bodies, stack, n, i, name, ext);
      assert pgbuf[i..i + RECORD] == pgbuf[..][i..i + RECORD];
      var found := MatchAt(pgbuf, i, name, ext);
      if found {
        return;
      }
      i := i + RECORD;
    }
  }

  /** Read_Page of page `n` of the directory into the buffer. */
  method ReadInto(io: PageIO, rom: Rom, pg: byte, pgbuf: array<byte>, ghost ps: seq<byte>, ghost bodies: seq<seq<byte>>,
                  ghost stack: Scratch, ghost n: nat)
    returns (r: Result<nat>)
    requires io.Valid() && Directory(io.pages, rom, ps, bodies) && Formed(ps, bodies) && n < |ps| && pg == ps[n]
    requires pgbuf.Length == 35 && pgbuf as object !in io.Repr()
    requires pgbuf[..] == if n == 0 then stack else BufferAt(ps, bodies, stack, n - 1)
    modifies io.Repr() - {io}, pgbuf
    ensures io.Valid() && (!io.flaky ==> r.Ok?)
    ensures r.Ok? ==> r.value == |bodies[n]| + 1 && pgbuf[..] == BufferAt(ps, bodies, stack, n)
    ensures r.Ok? ==> pgbuf[r.value - 1] == NextOf(ps, n)
  {
    hide UncachedRead, PageIO.Valid, BufferAt, Formed, Overwrite, Directory, NextOf;
    DirectoryParts(io.pages, rom, ps, bodies);
    PageRead(io.pages, rom, ps, bodies, n);
    ghost var held := pgbuf[..];
    var t: Ticks := *;
    var page := io.ReadPage(rom, pg, t);
    if page.Err? {
      return Err(page.error);
    }
    CopyIn(pgbuf, 0, page.value);
    NextBuffer(ps, bodies, stack, n, held);
    BufferByte(ps, bodies, stack, n, |bodies[n]|);
    assert pgbuf[|page.value| - 1] == pgbuf[..][|page.value| - 1];
    return Ok(|page.value|);
  }

  /** One turn of FindDirectoryInfo: the length of page `n` and the place in the buffer where the search stops. */
  method SearchTurn(io: PageIO, rom: Rom, start: byte, pg: byte, name: Name, ext: byte, pgbuf: array<byte>,
                    ghost ps: seq<byte>, ghost bodies: seq<seq<byte>>, ghost stack: Scratch, ghost n: nat)
    returns (r: Result<(nat, nat)>)
    requires io.Valid() && Directory(io.pages, rom, ps, bodies) && Formed(ps, bodies)
    requires n < |ps| && pg == ps[n] && start == ps[0]
    requires pgbuf.Length == 35 && pgbuf as object !in io.Repr()
    requires pgbuf[..] == if n == 0 then stack else BufferAt(ps, bodies, stack, n - 1)
    modifies io.Repr() - {io}, pgbuf
    ensures io.Valid() && (!io.flaky ==> r.Ok?)
    ensures r.Ok? ==> r.value.0 == |bodies[n]| + 1 && pgbuf[..] == BufferAt(ps, bodies, stack, n)
    ensures r.Ok? ==> pgbuf[r.value.0 - 1] == NextOf(ps, n)
    ensures r.Ok? ==> Search(ps, bodies, stack, n, if n == 0 then RECORD else 0, name, ext)
                      == if r.value.1 < r.value.0 then Some(Place(n, r.value.1))
                         else SearchOn(ps, bodies, stack, n + 1, name, ext)
  {
    hide UncachedRead, PageIO.Valid, Search, SearchOn, BufferAt, Formed, Overwrite, Directory, NextOf;
    DirectoryParts(io.pages, rom, ps, bodies);
    PageRead(io.pages, rom, ps, bodies, n);
    var page := ReadInto(io, rom, pg, pgbuf, ps, bodies, stack, n);
    if page.Err? {
      return Err(page.error);
    }
    var i := 0;
    if pg == start {
      i := RECORD;
      FirstBytes(io.pages, rom, ps, bodies, stack);
      if pgbuf[0] != 0xAA || pgbuf[1] != 0 {
        assert false;
      }
    }
    i := ScanPage(pgbuf, page.value, i, name, ext, ps, bodies, stack, n);
    return Ok((page.value, i));
  }

  /**
   * FindDirectoryInfo, from the first page of a well-formed directory on; `stack` is what its buffer holds at
   * first.
   */
  method FindDirectoryInfo(io: PageIO, rom: Rom, start: byte, name: Name, ext: byte, stack: Scratch,
                           ghost ps: seq<byte>, ghost bodies: seq<seq<byte>>)
    returns (r: Result<FileInfo>)
    requires io.Valid() && Directory(io.pages, rom, ps, bodies) && ps[0] == start
    modifies io.Repr() - {io}
    ensures io.Valid() && Formed(ps, bodies)
    ensures r == Found(ps, bodies, stack, name, ext) || (io.flaky && r.Err?)
  {
    hide UncachedRead, PageIO.Valid, Search, SearchOn, Found, BufferAt, Formed, Overwrite, Directory, InfoOf, NextOf;
    DirectoryParts(io.pages, rom, ps, bodies);
    DirectoryFormed(io.pages, rom, ps, bodies);
    var pgbuf := new byte[35](i requires 0 <= i < 35 => stack[i]);
    var pg, ppage := start, start;
    ghost var n := 0;
    assert pgbuf[..] == stack;
    while true
      invariant io.Valid() && n < |ps| && pg == ps[n] && ppage == (if n == 0 then ps[0] else ps[n - 1])
      invariant pgbuf[..] == if n == 0 then stack else BufferAt(ps, bodies, stack, n - 1)
      invariant n > 0 ==> Search(ps, bodies, stack, 0, RECORD, name, ext) == SearchOn(ps, bodies, stack, n, name, ext)
      decreases |ps| - n
    {
      PageRead(io.pages, rom, ps, bodies, n);
      SearchPage(ps, bodies, stack, n, name, ext);
      var turn := SearchTurn(io, rom, start, pg, name, ext, pgbuf, ps, bodies, stack, n);
      if turn.Err? {
        return Err(turn.error);
      }
      var (flag, i) := turn.value;
      if i < flag {
        var raw := pgbuf[i..i + RECORD];
        assert |raw| == RECORD && raw == pgbuf[..][i..i + RECORD];
        FoundAt(ps, bodies, stack, n, i, name, ext);
        return Ok(InfoOf(raw, pg, i, ppage));
      }
      ppage, pg := pg, pgbuf[flag - 1];
      if pg == 0 {
        FoundNowhere(ps, bodies, stack, name, ext);
        return Err(NoDirectoryEntry);
      }
      n := n + 1;
    }
  }

  /** The pages whose bits the directory edit clears: an emptied directory page and the file's start page. */
  function Freed(info: FileInfo, bodies: seq<seq<byte>>, i: nat): seq<byte>
    requires i < |bodies|
  {
    (if |bodies[i]| == RECORD then [info.dpage] else []) + [info.spage]
  }

  /** The file's start page is freed, and its directory page exactly if that held nothing else. */
  lemma FreedIff(info: FileInfo, bodies: seq<seq<byte>>, i: nat, pg: byte)
    requires i < |bodies|
    ensures pg in Freed(info, bodies, i) <==> pg == info.spage || (pg == info.dpage && |bodies[i]| == 7)
  {}

  /** The bytes up to index `i` have moved up by a record, those behind it have not. */
  predicate Shifted(a: seq<byte>, pgbuf: seq<byte>, offset: nat, i: nat)
    requires offset + RECORD < |pgbuf| == |a| && offset <= i <= |a| - RECORD
  {
    a[..i] == pgbuf[..offset] + pgbuf[offset + RECORD..i + RECORD] && a[i..] == pgbuf[i..]
  }

  lemma ShiftNone(pgbuf: seq<byte>, offset: nat)
    requires offset + RECORD < |pgbuf|
    ensures Shifted(pgbuf, pgbuf, offset, offset)
  {}

  lemma ShiftOne(a: seq<byte>, pgbuf: seq<byte>, offset: nat, i: nat)
    requires offset + RECORD < |pgbuf| == |a| && offset <= i < |a| - RECORD && Shifted(a, pgbuf, offset, i)
    ensures Shifted(a[i := a[i + RECORD]], pgbuf, offset, i + 1)
  {
    var now := a[i := a[i + RECORD]];
    assert a[i + RECORD] == a[i..][RECORD] == pgbuf[i..][RECORD];
    assert now[..i + 1] == a[..i] + [pgbuf[i + RECORD]];
    assert pgbuf[offset + RECORD..i + 1 + RECORD] == pgbuf[offset + RECORD..i + RECORD] + [pgbuf[i + RECORD]];
    assert now[i + 1..] == a[i..][1..] == pgbuf[i..][1..];
  }

  /** The loop that moves the bytes behind a record up, in place; it does nothing behind the last record. */
  method MoveUp(a: array<byte>, offset: nat)
    modifies a
    ensures a[..] == Moved(old(a[..]), offset)
  {
    hide Shifted;
    ghost var was := a[..];
    var i := offset;
    if offset + RECORD < a.Length {
      ShiftNone(was, offset);
    }
    while i < a.Length - RECORD
      invariant if offset + RECORD < a.Length then offset <= i <= a.Length - RECORD && Shifted(a[..], was, offset, i)
                else i == offset && a[..] == was
    {
      ghost var now := a[..];
      a[i] := a[i + RECORD];
      ShiftOne(now, was, offset, i);
      i := i + 1;
    }
    if offset + RECORD < a.Length {
      ShiftAll(a[..], was, offset);
    }
  }

  function Moved(pgbuf: seq<byte>, offset: nat): (a: seq<byte>)
    ensures |a| == |pgbuf|
  {
    if offset + RECORD < |pgbuf| then pgbuf[..offset] + pgbuf[offset + RECORD..] + pgbuf[|pgbuf| - RECORD..] else pgbuf
  }

  lemma ShiftAll(a: seq<byte>, pgbuf: seq<byte>, offset: nat)
    requires offset + RECORD < |pgbuf| == |a| && Shifted(a, pgbuf, offset, |a| - RECORD)
    ensures a == Moved(pgbuf, offset)
  {
    var n := |a| - RECORD;
    assert pgbuf[offset + RECORD..n + RECORD] == pgbuf[offset + RECORD..];
    assert a == a[..n] + a[n..];
  }

  /** The record that goes when the shift starts at `offset`: the one there, or the last one if it is the last byte. */
  function Dropped(len: nat, offset: nat): nat
    requires offset + RECORD < len || (offset == len - 1 && RECORD < len)
  {
    if offset == len - 1 then offset - RECORD else offset
  }

  lemma MovedEnd(pgbuf: seq<byte>, offset: nat)
    requires offset + RECORD < |pgbuf| || (offset == |pgbuf| - 1 && RECORD < |pgbuf|)
    ensures var off, n := Dropped(|pgbuf|, offset), |pgbuf| - RECORD;
            Moved(pgbuf, offset)[n - 1 := Last(pgbuf)][..n] == pgbuf[..off] + pgbuf[off + RECORD..]
  {}

  /** The shift over a record, in the page buffer. */
  method ShiftOver(pgbuf: seq<byte>, offset: nat) returns (buf: seq<byte>)
    requires offset + RECORD < |pgbuf| || (offset == |pgbuf| - 1 && RECORD < |pgbuf|)
    ensures var off := Dropped(|pgbuf|, offset); buf == pgbuf[..off] + pgbuf[off + RECORD..]
  {
    hide Moved;
    var a := new byte[|pgbuf|](i requires 0 <= i < |pgbuf| => pgbuf[i]);
    assert a[..] == pgbuf;
    var len := |pgbuf|;
    MoveUp(a, offset);
    MovedEnd(pgbuf, offset);
    len := len - RECORD;
    a[len - 1] := Last(pgbuf);
    assert a[..] == Moved(pgbuf, offset)[len - 1 := Last(pgbuf)];
    buf := a[..len];
  }

  /** Clears one bit if the page number is in range, and keeps count of the cleared pages. */
  method ClearBitOf(pg: byte, bm: array<bv8>, maxP: byte, ghost bm0: seq<bv8>, ghost gone: seq<byte>)
    returns (r: Result<()>)
    requires Covers(bm[..], maxP) && Released(bm0, bm[..], gone)
    modifies bm
    ensures |bm[..]| == |bm0|
    ensures pg <= maxP ==> r.Ok? && Released(bm0, bm[..], gone + [pg])
    ensures pg > maxP ==> r.Err?
    ensures r != Err(ReadOnly)
  {
    hide Bit;
    ghost var bm1 := bm[..];
    r := BitMapChange(pg, false, bm, maxP);
    if pg <= maxP {
      ReleaseOne(bm0, bm1, bm[..], gone, pg);
    }
  }

  /**
   * The place a search reported, and the record its deletion takes: the one there, or the last record of the page
   * whose continuation byte was taken for it.
   */
  predicate Takes(ps: seq<byte>, bodies: seq<seq<byte>>, info: FileInfo, p: Place)
    requires p.i < |ps| == |bodies| && p.off + RECORD <= |bodies[p.i]|
  {
    && info.dpage == ps[p.i] && info.pdpage == (if p.i == 0 then ps[0] else ps[p.i - 1])
    && (info.offset == p.off || (info.offset == |bodies[p.i]| && p.off + RECORD == |bodies[p.i]|))
  }

  /** The entry count of a page says whether its only record goes. */
  lemma OneEntry(n: nat)
    requires n % RECORD == 0
    ensures (n + 1) / 7 == 1 <==> n == RECORD
  {}

  /** The page in front of an emptied page, with that page's continuation byte. */
  lemma UnlinkedPage(ps: seq<byte>, bodies: seq<seq<byte>>, p: Place, buf: seq<byte>)
    requires 0 < p.i < |ps| == |bodies| && |bodies[p.i]| == RECORD && p.off == 0
    requires buf == bodies[p.i - 1] + [NextOf(ps, p.i - 1)]
    ensures (ps[p.i - 1], buf[..|buf| - 1] + [NextOf(ps, p.i)]) == Rewritten(ps, bodies, p.i, p.off)
  {
    assert buf[..|buf| - 1] == bodies[p.i - 1];
  }

  /** A page without one of its records. */
  lemma ShiftedPage(ps: seq<byte>, bodies: seq<seq<byte>>, p: Place, buf: seq<byte>)
    requires p.i < |ps| == |bodies| && p.off + RECORD <= |bodies[p.i]| && |bodies[p.i]| != RECORD
    requires buf == bodies[p.i] + [NextOf(ps, p.i)]
    ensures (ps[p.i], buf[..p.off] + buf[p.off + RECORD..]) == Rewritten(ps, bodies, p.i, p.off)
  {
    var body, next := bodies[p.i], NextOf(ps, p.i);
    assert buf[p.off + RECORD..] == body[p.off + RECORD..] + [next] && buf[..p.off] == body[..p.off];
    assert body[..p.off] + (body[p.off + RECORD..] + [next]) == body[..p.off] + body[p.off + RECORD..] + [next];
  }

  /** The page to write for a deletion, read back from the part: owDeleteFile between its two bitmap accesses. */
  method EditPage(io: PageIO, rom: Rom, info: FileInfo, ghost ps: seq<byte>, ghost bodies: seq<seq<byte>>,
                  ghost p: Place)
    returns (r: Result<(byte, seq<byte>)>, emptied: bool)
    requires io.Valid() && Directory(io.pages, rom, ps, bodies)
    requires p.i < |ps| && p.off + RECORD <= |bodies[p.i]| && (p.i == 0 ==> p.off >= RECORD)
    requires Takes(ps, bodies, info, p)
    modifies io.Repr() - {io}
    ensures io.Valid()
    ensures |bodies[p.i]| == RECORD ==> p.i > 0
    ensures r.Ok? ==> r.value == Rewritten(ps, bodies, p.i, p.off) && (emptied <==> |bodies[p.i]| == RECORD)
    ensures !io.flaky ==> r.Ok?
    ensures r.Err? ==> r.error != ReadOnly
  {
    hide UncachedRead, PageIO.Valid, Directory, NextOf, Rewritten;
    DirectoryParts(io.pages, rom, ps, bodies);
    PageRead(io.pages, rom, ps, bodies, p.i);
    PageWhole(io.pages, rom, ps, bodies, p.i);
    OneEntry(|bodies[p.i]|);
    emptied := false;
    var t: Ticks := *;
    var page := io.ReadPage(rom, info.dpage, t);
    if page.Err? {
      r := Err(page.error);
      return;
    }
    var buf := page.value;
    if (|buf| - 1) % 7 != 0 {
      assert false;
    }
    var e := |buf| / 7;
    var next := Last(buf);
    if e == 1 {
      emptied := true;
      PageRead(io.pages, rom, ps, bodies, p.i - 1);
      t := *;
      page := io.ReadPage(rom, info.pdpage, t);
      if page.Err? {
        r := Err(page.error);
        return;
      }
      UnlinkedPage(ps, bodies, p, page.value);
      buf := page.value;
      r := Ok((info.pdpage, buf[..|buf| - 1] + [next]));
    } else {
      ShiftedPage(ps, bodies, p, buf);
      buf := ShiftOver(buf, info.offset);
      r := Ok((info.dpage, buf));
    }
  }

  /** The directory edit of owDeleteFile: the record goes, alone or with its page, and the bits are cleared. */
  method DeleteEntry(io: PageIO, rom: Rom, info: FileInfo, bm: array<bv8>, maxP: byte,
                     ghost ps: seq<byte>, ghost bodies: seq<seq<byte>>, ghost p: Place) returns (r: Result<()>)
    requires io.Valid() && Directory(io.pages, rom, ps, bodies) && Covers(bm[..], maxP) && bm as object !in io.Repr()
    requires p.i < |ps| && p.off + RECORD <= |bodies[p.i]| && (p.i == 0 ==> p.off >= RECORD)
    requires Takes(ps, bodies, info, p)
    modifies io.Repr(), bm
    ensures io.Valid() && (|bodies[p.i]| == RECORD ==> p.i > 0)
    ensures var w := Rewritten(ps, bodies, p.i, p.off);
            var after := Put(old(io.pages), rom, w.0, w.1);
            && Directory(after, rom, PagesWithout(ps, bodies, p.i), BodiesWithout(bodies, p.i, p.off))
            && (r.Ok? ==> io.pages == after && Released(old(bm[..]), bm[..], Freed(info, bodies, p.i)))
            && (r.Err? ==> io.pages == old(io.pages) || io.pages == after)
    ensures !io.flaky && info.spage <= maxP && (|bodies[p.i]| == RECORD ==> info.dpage <= maxP) ==> r.Ok?
    ensures r != Err(ReadOnly)
  {
    hide UncachedRead, PageIO.Valid, Directory, Released, Covers, BodiesWithout, Rewritten, Written;
    DirectoryParts(io.pages, rom, ps, bodies);
    StillDirectory(io.pages, rom, ps, bodies, p.i, p.off);
    ghost var bm0, gone := bm[..], [];
    ReleaseNone(bm0);
    var edit, emptied := EditPage(io, rom, info, ps, bodies, p);
    if edit.Err? {
      return Err(edit.error);
    }
    if emptied {
      r := ClearBitOf(info.dpage, bm, maxP, bm0, []);
      if r.Err? {
        return;
      }
      gone := [] + [info.dpage];
    }
    RewrittenPresent(io.pages, rom, ps, bodies, p);
    var t: Ticks := *;
    r := io.WritePage(rom, edit.value.1, edit.value.0, t);
    if r.Err? {
      return;
    }
    CoversLength(bm0, bm[..], maxP);
    r := ClearBitOf(info.spage, bm, maxP, bm0, gone);
    assert gone + [info.spage] == Freed(info, bodies, p.i);
  }

  lemma CoversLength(bm: seq<bv8>, bm': seq<bv8>, maxP: byte)
    requires Covers(bm, maxP) && |bm'| == |bm|
    ensures Covers(bm', maxP)
  {}

  lemma RewrittenPresent(pages: Pages, rom: Rom, ps: seq<byte>, bodies: seq<seq<byte>>, p: Place)
    requires Directory(pages, rom, ps, bodies) && p.i < |ps| && p.off + RECORD <= |bodies[p.i]|
    requires |bodies[p.i]| == RECORD ==> p.i > 0
    ensures var w := Rewritten(ps, bodies, p.i, p.off);
            (rom, w.0) in pages && w.0 in ps && |w.1| <= 29
  {
    assert PageOk(pages, rom, ps, bodies, p.i);
    if p.i > 0 {
      assert PageOk(pages, rom, ps, bodies, p.i - 1);
    }
  }
}

# A verified model of the fake DS1963S and of its 1-Wire client

The repository holds two ends of a 1-Wire link. One end is a simulator: a DS2480 serial adapter
(`ds2480sim.c`) with a DS1963S SHA iButton behind it (`ds1963s.c`). The other end is the Dallas
1-Wire public domain client (`client/ow/common`) with its page cache, its paged file system and the
CRC-checked packets below it. Both ends carry their own CRC and SHA-1 code.

This project models the following parts in Dafny and proves what they promise.

- `OwCache`, `OwCacheLaws`: the page cache. 254 slots carry disjoint hash chains, doubly linked by slot
  number inside arrays, with a bit map, expiry and eviction of the oldest page. The arrays are arrays;
  the chains are a ghost field that every method keeps in step with them.
- `OwPageIO`: `Read_Page` and `Write_Page` over any number of parts. A script of reads and writes, at any
  clock readings, has the outcomes that uncached access would have, up to writes that are reported as failed
  and took place.
- `OwBitMap`, `OwBitMapStore`, `OwBitMapLaws`: the free-page bitmap, in memory and in its three layouts on
  the part.
- `OwExtFile`: multi-page files. `ExtWrite` and `ExtRead` round trip, leave other files alone, and conserve
  the bitmap.
- `OwDirectory`: the chained directory, the search by name and the two ways to delete an entry.
- `OwDelete`: deleting a file as one operation on the part, from the search to the stored bitmap.
- `Crc16`, `Crc8`, `Packet`, `MemoryBankNV`, `MemoryBankEE`: both CRCs against their bit-by-bit definitions,
  the Universal Data Packet, and range writes in page-sized or 8-byte pieces.
- `Sha1Spec`, `Sha1Example`, `Sha1`, `ShaEE`, `ShaTwins`: FIPS 180-2 (sections 5.1.1 and 6.1.2, and the example of
  its appendix A.1) and RFC 2104 section 2, the streaming code that refines them, and the one-block twin in wide
  integers.
- `Ds2480`, `Ds2480Laws`, `Ds1963s`, `Ds1963sCommands`, `Ds1963sHashes`, `Ds1963sLaws`, `SerialLink`: the serial
  parser against a recursive decoder, the device against a reference device, what bytes on the wire do, what the
  device guarantees over runs, and both together.
- `OwErr`: the error ring against a stack that keeps the most recent errors.
- `Bytes`, `Bits`, `BitMasks`, `Results`: shared vocabulary.

Code that changes state is a class or a method over arrays, proved against functions on values; the lemmas
are about those functions. Bytes that are counted or compared are numbers (`Bytes.byte`); bytes that are
shifted and masked are bit-vectors.

Where the code does not do what its comments promise, the model follows the code, and a lemma says
exactly when the promise holds:

- `AddPage` returns as soon as the lookup misses (client/ow/common/owcache.c:89-91), although its comment
  (63-66) says that a new page is added. The field `insertOnMiss` of `PageCache` selects the two readings;
  every property is proved for both, and with the code as written the cache stays empty for ever
  (`PageIO.Run`).
- `FreePage` computes the next slot and returns 0xFF, so `FindPage` stops at the first expired entry:
  `FoundIff` says what is found. `StaleInFront` and `MissedThenFound` are a run in which a fresh page is
  missed, and found by the next lookup.
- `ExtWrite` makes a file of several pages point to itself if the start page is the lowest free page:
  `WriteThenFollow`, with the run `UnsafeStart`.
- The bitmap layouts do not survive every page count: `BitMapTripIff`, `EveryBitMapTrips`.
- `sha1_pad` counts bytes in 32 bits: `CountedLength`.
- Copy scratchpad on the simulator copies 31 of 32 bytes after a read scratchpad: `WriteReadCopy`,
  `PageStoredIff`, with the run `LastByteLost`.
- The directory search compares names with the continuation byte of a page and what lies behind it in its
  buffer as well: `SearchRightIff`, with the runs `WrongFile` and `DeleteWrongFile`.
- Data mode on the serial line is transparent only for data without the byte C1: `TransparentIff`.

## Model

| member | source | states |
|---|---|---|
| OwCache.PageCache.InitDHash | client/ow/common/owcache.c:47-60 | whatever the arrays held, afterwards they represent 254 empty chains |
| OwCache.PageCache.FreePage | client/ow/common/owcache.c:320-366 | takes exactly the given slot off its chain, keeps every other chain, mark and page, keeps all links consistent, and returns 0xFF |
| OwCache.PageCache.Scan | client/ow/common/owcache.c:175-204 | when the expected spot is live, yields the slot `Chosen` names, off its chain if it was on one |
| OwCache.PageCache.FindNew | client/ow/common/owcache.c:148-215 | yields the chosen slot, marked for the new bucket and on no chain; a live page is evicted only if every slot is live, and then no page is older; the spot pointer moves on by one and wraps |
| OwCache.PageCache.FindPage | client/ow/common/owcache.c:237-308 | terminates; finds a page exactly if the walk along its chain hits a usable entry, and returns that entry's bytes; an expired entry met first is freed and ends the search |
| OwCache.PageCache.AddPage | client/ow/common/owcache.c:78-136 | rewrites the first entry of the key if it is usable; else does nothing (as written) or puts the page on the chosen slot in front of its chain (as documented); no other page changes |
| OwCache.PageCache.Attach | client/ow/common/owcache.c:93-123 | links the chosen slot in front of its chain with its key set, and keeps the representation |
| OwCache.PageCache.Fill | client/ow/common/owcache.c:125-132 | stores length, bytes and time stamp in one slot and leaves every link and every other slot as it was |
| OwCache.PageCache.WalkChain | client/ow/common/owcache.c:255-286 | the do-while walk terminates at the slot the abstract walk names; an expired entry it meets is taken off its chain and ends it, otherwise nothing changes |
| OwCache.PageCache.Unlink | client/ow/common/owcache.c:327-363 | the four cases of closing the links around a slot are one bridge between its two neighbours, over the bucket head if there is no neighbour in front |
| OwCache.ChainUnlink | client/ow/common/owcache.c:327-363 | closing the links around any node of a chain leaves an acyclic, doubly linked chain without that node |
| OwCache.FreeRepresents | client/ow/common/owcache.c:320-366 | freeing a slot keeps the whole representation: all chains, links, bucket numbers and marks |
| OwCache.InsertRepresents | client/ow/common/owcache.c:97-122 | inserting a free slot in front of a chain keeps the whole representation |
| OwCache.UpdateRepresents | client/ow/common/owcache.c:126-132 | rewriting data and time stamp keeps the representation |
| OwCache.OnOneChain | client/ow/common/owcache.c:36-38 | a slot is on no chain but the one its mark names: the chains are disjoint |
| OwCache.WalkFirst | client/ow/common/owcache.c:258-286 | the walk stops at the first entry that has expired or matches, and nothing before it does either |
| OwCache.MissMeansNone | client/ow/common/owcache.c:89-91 | a lookup without a time check that fails means that no entry of that key is usable |
| OwCache.InsertUsable | client/ow/common/owcache.c:96-122 | inserting under a key without usable entry keeps the rule that only the first entry of a key is usable |
| OwCacheLaws.ChainsUnique | client/ow/common/owcache.c:36-38 | the arrays determine the chains: there is only one way to read them |
| OwCacheLaws.MarkIffOnChain | client/ow/common/owcache.c:36-38 | a slot is on chain h if and only if its mark is h |
| OwCacheLaws.OneUsableEntry | client/ow/common/owcache.c:63-66 | no two slots hold usable entries of the same key |
| OwCacheLaws.FoundIff | client/ow/common/owcache.c:258-304 | a lookup succeeds if and only if some matching, usable, fresh entry has no expired entry in front of it, and then it finds that entry |
| OwCacheLaws.StaleInFront | client/ow/common/owcache.c:78-136 | three insertions into a new cache leave a chain with a fresh page behind an expired one, at which a lookup of the fresh page stops |
| OwCacheLaws.MissedThenFound | client/ow/common/owcache.c:264-304 | in such a state the lookup of the fresh page fails, and the same lookup at the same time then succeeds |
| OwCacheLaws.ChosenUnique | client/ow/common/owcache.c:156-205 | table, spot and clock determine the slot that is taken |
| OwCacheLaws.HashAddsUp | client/ow/common/owcache.c:379-389 | the bucket of a page is the sum of its number and three shifted ROM bytes modulo 254, where their bits do not overlap |
| OwCacheLaws.MemoriesApart | client/ow/common/owcache.c:274 | an entry answers for its own kind of memory alone: status memory exactly if bit 7 of its length byte is set |
| OwCacheLaws.ExpiresIff | client/ow/common/owcache.c:132 | a stored page is served for 8000 ticks of a 64-bit clock, and has expired after that |
| OwPageIO.StoreCoherent | client/ow/common/owpgrw.c:260-265 | storing the page's new content in the first entry of its key makes the whole cache coherent again |
| OwPageIO.UpdateCoherent | client/ow/common/owcache.c:89-132 | coherence after AddPage found the page |
| OwPageIO.InsertCoherent | client/ow/common/owcache.c:93-132 | coherence after AddPage inserted the page, with whatever it evicted |
| OwPageIO.UnusedCoherent | client/ow/common/owcache.c:89-91 | coherence after AddPage gave up: no usable entry was left behind |
| OwPageIO.PageIO.PageRead | client/ow/common/owpgrw.c:76-217 | a successful read returns what was seen of the page or what is there, which then is what was seen, also after writes that took place and were reported as failed; a copy that has expired is not served |
| OwPageIO.PageIO.PageWrite | client/ow/common/owpgrw.c:236-268 | a confirmed write is on the part and seen; a write reported as failed leaves the cache alone and the part as it was or, on a lossy link, written |
| OwPageIO.StepKeeps | client/ow/common/owpgrw.c:76-268 | whatever a page or its cached copy holds after one more access is the content of its last confirmed write or of a failed one since |
| OwPageIO.PageIO.ReadPage | client/ow/common/owpgrw.c:76-217 | where failed writes leave nothing, a successful read returns what an uncached read of the part returns; on a sound link so does a failed one |
| OwPageIO.PageIO.WritePage | client/ow/common/owpgrw.c:236-268 | where failed writes leave nothing: at most 29 bytes; the part changes exactly on success, in exactly that page, and the cache stays coherent |
| OwPageIO.PageIO.Run | client/ow/common/owpgrw.c:76-268 | every script of reads and writes on any parts and at any clock readings: each successful read returns the content of the last confirmed write of its page or of a later one that was reported as failed; where failed writes leave nothing, all outcomes are those of uncached pages; with AddPage as written the cache stays empty |
| OwPageIO.CachedAsReadIff | client/ow/common/owpgrw.c:202-210 | a page just read comes back unchanged from a usable cache entry if and only if its length byte is not 32 |
| OwPageIO.PageIsPacket | client/ow/common/mbnv.c:606-617 | the page image of a cached write is the Universal Data Packet |
| OwPageIO.ReadIsBytes | client/ow/common/owpgrw.c:200-211 | on the bytes of a page: a read returns as many bytes behind the first one as that one says, and fails if it says more than 32 |
| OwBitMap.ShiftedBit | client/ow/common/owfile.c:2662-2674 | shifting a byte right i times brings its bit i to the bottom |
| OwBitMap.BitMapChange | client/ow/common/owfile.c:2744-2797 | changes exactly the one bit, and rejects page numbers beyond the last page |
| OwBitMap.FindEmpties | client/ow/common/owfile.c:2832-2867 | returns the two lowest free pages, 0 standing for none; for a last page of 255, if two pages are free |
| OwBitMap.GetMaxWrite | client/ow/common/owfile.c:2652-2683 | returns 28 bytes for every free page and the claimed one, as far as the part has pages |
| OwBitMap.FreeFromIs | client/ow/common/owfile.c:2832-2867 | the free list holds exactly the pages with a clear bit, in ascending order |
| OwBitMap.MarkFree | client/ow/common/owpgrw.c:340-345 | claiming a page takes exactly that page out of the free list |
| OwBitMap.FreeCount | client/ow/common/owfile.c:2662-2675 | two claimed pages bound the length of the free list |
| OwBitMapStore.WriteBitMap | client/ow/common/owfile.c:2284-2397 | stores the map in the layout the root page names, through the cache; a failure leaves the part as it was, or the first of two bitmap pages (byte 5 of the root page) rewritten with its old continuation byte |
| OwBitMapStore.WriteTwo | client/ow/common/owfile.c:2337-2396 | the first page keeps its continuation byte and is only written if it changes; the rest goes to the page it names; a failure leaves at most the first page rewritten |
| OwBitMapStore.ReadBitMap | client/ow/common/owfile.c:2459-2556 | returns what the layout holds, or fails on the checks of directory mark, length and continuation |
| OwBitMapStore.ReadRemote | client/ow/common/owfile.c:2505-2555 | reads one or two bitmap pages into the map and checks their lengths against (maxP + 1) / 8 |
| OwBitMapLaws.LocalTrip | client/ow/common/owfile.c:2311-2328 | a local map is always read back, with the stored bytes, and what lies behind them if the last page starts a byte |
| OwBitMapLaws.RemoteTrip | client/ow/common/owfile.c:2330-2396 | a remote map is read back if and only if the number of the last page is 0 or 7 modulo 8, with exactly the stored bytes |
| OwBitMapLaws.TwoPagesTrip | client/ow/common/owfile.c:2337-2396 | the two-page layout, through the first page's continuation byte |
| OwBitMapLaws.BitMapTripIff | client/ow/common/owfile.c:2284-2556 | ReadBitMap after WriteBitMap agrees on every page bit if and only if the length passes the check and a last bit that starts a byte happens to agree with what is there |
| OwBitMapLaws.EveryBitMapTrips | client/ow/common/owfile.c:2307-2309 | every map survives if and only if the pages fill whole bytes, or the map is local and its last byte is not a single bit |
| OwBitMapLaws.StoreAndLoad | client/ow/common/owfile.c:2284-2556 | WriteBitMap then ReadBitMap through the cache on a sound link returns the same page bits for the page counts that allow it |
| OwBitMapLaws.StoreOnePage | client/ow/common/owfile.c:2330-2396 | on the bytes of the root page: with bit 7 of byte 2 clear and at most page 224, WriteBitMap puts the map, closed by a 0, on the page in byte 5 and changes no other page |
| OwBitMapLaws.StoreTwoPages | client/ow/common/owfile.c:2337-2396 | above page 224 the first 28 bytes go to that page, in front of its continuation byte, the rest to the page that byte names, and no other page changes |
| OwBitMapLaws.StoreInRoot | client/ow/common/owfile.c:2311-2328 | with bit 7 of byte 2 set the map goes to bytes 3 to 6 of the root page, and nothing else changes |
| OwBitMapLaws.LoadOnePage | client/ow/common/owfile.c:2505-2553 | ReadBitMap returns what the page in byte 5 of the root page holds, if it has the length of the map and continues nowhere, and fails otherwise |
| OwBitMapLaws.LoadTwoPages | client/ow/common/owfile.c:2511-2555 | above page 224 it returns what that page and the page it names hold |
| OwBitMapLaws.LoadFromRoot | client/ow/common/owfile.c:2483-2502 | a local map is read from byte 3 of the root page on |
| OwBitMapLaws.StoreRefuses | client/ow/common/owfile.c:2299-2353 | WriteBitMap fails without the directory mark, with a local map for more than 32 pages, without the page it is to write or read, and on a first page of two that is not full |
| OwBitMapLaws.LoadRefuses | client/ow/common/owfile.c:2475-2545 | ReadBitMap fails in the same cases, and if the first page of two names no second one |
| OwExtFile.ExtWrite | client/ow/common/owpgrw.c:285-356 | writes the chunks to the start page and the lowest free pages, claims exactly those, and fails for want of space exactly when the pages do not suffice; on a part with a page 255, if two pages stay free |
| OwExtFile.ExtRead | client/ow/common/owpgrw.c:379-451 | for a chain that ends or overflows the buffer: returns the content if the buffer takes it and one byte more, and releases exactly its pages; otherwise, on a sound link and within the bitmap, fails for want of room |
| OwExtFile.DataReadable | client/ow/common/owpgrw.c:395-448 | every chain whose pages carry data ends or overflows any finite buffer, circles included, so reading it returns |
| OwExtFile.ReadSelfLoop | client/ow/common/owpgrw.c:395-448 | reading a page with data that points to itself into any finite buffer fails for want of room |
| OwExtFile.Upcoming | client/ow/common/owpgrw.c:330-351 | the continuation byte put on a page is the page the next turn really writes |
| OwExtFile.FollowLaid | client/ow/common/owpgrw.c:395-448 | a file laid out on a list of pages is what following the chain reads |
| OwExtFile.PlanFacts | client/ow/common/owpgrw.c:307-352 | the pages ExtWrite uses are distinct, and all but the first were free |
| OwExtFile.WrittenIsLaid | client/ow/common/owpgrw.c:319-352 | a successful ExtWrite lays the file out on its plan if the start was safe, and makes the start page point to itself if it was not |
| OwExtFile.WriteThenFollow | client/ow/common/owpgrw.c:285-451 | after a successful write the chain from the start page carries exactly the file if and only if the start was safe; otherwise it never ends |
| OwExtFile.UnsafeStart | client/ow/common/owpgrw.c:319-352 | a run with an unsafe start: with only the root page claimed, a file of two pages started on page 1 is written with success, following its chain never ends, and reading it overflows every buffer |
| OwExtFile.ClaimedStartSafe | client/ow/common/owfile.c:2001-2003 | a start page claimed beforehand is safe |
| OwExtFile.OthersUnchanged | client/ow/common/owpgrw.c:319-352 | however ExtWrite ends, every chain of another part and every chain of marked pages reads back unchanged |
| OwExtFile.ReleaseRestores | client/ow/common/owpgrw.c:413-437 | releasing the pages of a file just written leaves the old bitmap minus the start page |
| OwExtFile.MaxWriteIsExact | client/ow/common/owfile.c:2652-2683 | with page 0 and the start page claimed and a page free, a file fits if and only if it is no longer than GetMaxWrite says |
| OwExtFile.WriteThenDelete | client/ow/common/owpgrw.c:285-451 | any non-empty file within GetMaxWrite, written and read back in delete mode on a sound link, comes back whole and frees what it took |
| OwDirectory.FindDirectoryInfo | client/ow/common/owfile.c:2063-2145 | for every name: reports what the search over the buffer ends with (`Found`), as record, page, offset and previous page, or that there is nothing |
| OwDirectory.ScanPage | client/ow/common/owfile.c:2100-2132 | the loop over one page, which also compares the continuation byte and what lies behind it, stops where the search over the buffer does |
| OwDirectory.MatchAt | client/ow/common/owfile.c:2103-2110 | true exactly for seven bytes with the name and the extension, whether they are a record or not |
| OwDirectory.MatchesIff | client/ow/common/owfile.c:2103-2110 | on the seven bytes: the extension is byte 4 modulo 128, and each character, in capitals, is the name's, or a blank where the name has 0xCC |
| OwDirectory.FoundBytes | client/ow/common/owfile.c:2103-2128 | a success is on a place whose bytes carry the name and the extension asked for, and reports its bytes 5 and 6 and its flag; on a failure no record carries them |
| OwDirectory.ExtensionsApart | client/ow/common/owfile.c:2109 | of files that differ in the extension, each is found with its own start page and size |
| OwDirectory.FindFromIsFirst | client/ow/common/owfile.c:2081-2141 | the page-by-page search finds the first record of the name among the directory's records |
| OwDirectory.SearchIs | client/ow/common/owfile.c:2081-2141 | the search over the buffer ends at the first record of the name, or at the continuation byte of the first page left before it where the bytes in the buffer match |
| OwDirectory.SearchRightIff | client/ow/common/owfile.c:2081-2141 | for every name and every former content of the buffer: the search reports what it should if and only if no page left before the file (of all pages, if there is no such file) ends in a continuation byte that, with the bytes behind it in the buffer, matches; otherwise it reports the first such place |
| OwDirectory.ContinuationDecides | client/ow/common/owfile.c:2103-2110 | a page can only be mistaken for the file if its continuation byte matches the first character |
| OwDirectory.SmallPartsRight | client/ow/common/owfile.c:2103-2110 | with page numbers below 0x20, that is with at most 32 pages, the search is right for every name without control characters |
| OwDirectory.WrongFile | client/ow/common/owfile.c:2087-2128 | a family of runs in which it is wrong, whatever the buffer held: on pages 0, 5 and 0x21, with three records on the first and one on the second, the name of `!` and the other characters of the first record, if none of the four has it, is found on page 5 with the start page of the first record |
| OwDirectory.ShiftOver | client/ow/common/owfile.c:873-884 | shifting takes exactly one record out of a page and keeps the continuation byte; started at the continuation byte it takes the last record |
| OwDirectory.EditPage | client/ow/common/owfile.c:836-888 | the page to write is the previous page with the emptied page's continuation byte, or the record's own page without it; where a continuation byte was taken for the file, the record is the last one of its page |
| OwDirectory.DeleteEntry | client/ow/common/owfile.c:836-897 | leaves a well-formed directory without the record, and clears exactly the bits of the emptied page and of the start page found |
| OwDirectory.FreedIff | client/ow/common/owfile.c:858-894 | the pages the edit frees: the start page of the file, and the directory page exactly if the record was all it held |
| OwDirectory.StillDirectory | client/ow/common/owfile.c:850-888 | after a shift or an unlinking the chain of pages is a well-formed directory again |
| OwDirectory.DeleteRefines | client/ow/common/owfile.c:850-888 | the new entries are the old ones without exactly the deleted record, in the same order |
| OwDirectory.OthersUnaffected | client/ow/common/owfile.c:2063-2145 | a search for any other name finds the record it found before; a search for the deleted name finds the next record of it |
| OwDirectory.LookupAfterDelete | client/ow/common/owfile.c:2063-2145 | after a deletion every other file is found with the same extension, start page, size and attributes |
| OwDirectory.FollowDirectory | client/ow/common/owfile.c:2081-2141 | a directory read as a chain ends and carries its pages' records in order |
| OwDelete.DeleteFile | client/ow/common/owfile.c:701-901 | for every name, on a sound link, search, bitmap, file pages, directory edit and bitmap again: a name that is not found, an add-file and a record with bit 7 of its flag byte set, unless it is a directory, change nothing and are reported; nothing else is reported as read-only; otherwise the result is that of `AfterDelete` for the place found: the directory without exactly its record, the stored bitmap without exactly the pages of the file found and an emptied directory page, every other page as it was |
| OwDelete.TargetRight | client/ow/common/owfile.c:742-746 | where the search is right, that record is the first one of the name, and the pages are those of its file |
| OwDelete.MayDeleteIff | client/ow/common/owfile.c:749-753 | on the flag byte of the record: a file may be deleted if and only if bit 7 is clear or its extension is that of a directory |
| OwDelete.DeleteWrongFile | client/ow/common/owfile.c:736-901 | on the directory of `WrongFile` a deletion reports success, takes out the innocent record of page 5, and frees the pages of the first record's file, which stays in the directory |
| OwDelete.DeleteEffect | client/ow/common/owfile.c:773-899 | the released bits, the directory edit and the stored map together are `AfterDelete` |
| OwDelete.MapAfter | client/ow/common/owfile.c:799-899 | the map read back from the part after the deletion is the map read before it minus the released pages |
| OwDelete.OtherFilesUnchanged | client/ow/common/owfile.c:836-899 | every chain of another part, and every chain that avoids the rewritten directory page and the bitmap pages, reads back unchanged |
| OwDelete.StoreFrame | client/ow/common/owfile.c:2284-2397 | on a root page whose layout names existing pages, WriteBitMap succeeds on a sound link and leaves every page but those of the bitmap as it was |
| OwDelete.StoreRoot | client/ow/common/owfile.c:2311-2328 | a local bitmap changes the root page in bytes 3 to 6 at most |
| OwDelete.DirectoryAfterStore | client/ow/common/owfile.c:897-899 | storing the bitmap leaves a well-formed directory with the same entries, also where the bitmap lies in its first page |
| OwDelete.RootStays | client/ow/common/owfile.c:836-890 | the directory edit keeps the header of the root page, and with it the place of the bitmap |
| OwDelete.LoadBits | client/ow/common/owfile.c:2459-2556 | for the page counts for which every map survives, the page bits ReadBitMap returns do not depend on what its buffers held before |
| OwErr.ErrorStack.RaiseError | client/ow/common/owerr.c:158-162 | pushes an error and, when the ring is full, forgets the deepest one |
| OwErr.ErrorStack.GetErrorNum | client/ow/common/owerr.c:101-110 | pops the latest error; on an empty stack returns 0 and leaves it empty |
| OwErr.ErrorStack.HasErrors | client/ow/common/owerr.c:127-133 | says whether the latest error is there and not 0 |
| OwErr.ErrorStack.Run | client/ow/common/owerr.c:101-162 | every run of calls on a ring of any size answers as the bounded stack does |
| OwErr.LatestFirst | client/ow/common/owerr.c:65-70 | however many errors were raised, the most recent ones come back latest first, then 0 for ever |
| Crc16.CrcBijection | client/ow/common/crcutil.c:89-103 | for every byte string the CRC16 update is a bijection in the seed |
| Crc16.Crc16IterIsByteStep | extern/crcutil.c:63-77 | the parity trick is the bit-by-bit CRC with polynomial 0xA001 |
| Crc16.FullCrc16 | extern/crcutil.c:79-86 | the device's CRC loop computes the bit-by-bit CRC of any byte string |
| Crc16.CrcUtil.DoCrc16 | client/ow/common/crcutil.c:89-103 | the client's running CRC advances by one bit-by-bit CRC step, on its own port only |
| Crc16.Residue | client/ow/common/mbnv.c:517 | two bytes bring a CRC to 0xB001 if and only if they are its complement, low byte first |
| Crc16.OneByteChanges | client/ow/common/mbnv.c:513-517 | changing exactly one byte always changes the CRC |
| Crc8.TableIsByteStep | client/ow/common/crcutil.c:37-54 | every entry of the 256-entry table is eight steps of the bit-by-bit CRC with polynomial 0x8C |
| Crc8.FullCrc8 | extern/crcutil.c:103-110 | the table-driven loop computes the bit-by-bit CRC8 of any byte string |
| Crc8.CrcUtil8.DoCrc8 | client/ow/common/crcutil.c:115-119 | the client's running CRC8 advances by one bit-by-bit step, on its own port only |
| Crc8.CrcInjective | client/ow/common/crcutil.c:115-119 | the CRC8 update is injective in the seed |
| Crc8.OneByteChanges | client/ow/common/crcutil.c:115-119 | changing exactly one byte always changes the CRC8 |
| Crc8.ZeroIff | client/ow/common/crcutil.c:105-119 | a string ending in a check byte has CRC 0 if and only if that byte is the CRC of the rest |
| Packet.ResidueIff | client/ow/common/mbnv.c:513-517 | the residue check passes if and only if the last two bytes are the complement of the CRC |
| Packet.CheckIff | client/ow/common/mbnv.c:505-517 | a page with a valid length byte passes the check if and only if it starts with a packet |
| Packet.UnpackIff | client/ow/common/mbnv.c:493-532 | a page yields given data if and only if it starts with the packet of that data |
| Packet.OneByteRejected | client/ow/common/mbnv.c:512-529 | any single corrupted data or CRC byte is rejected |
| Packet.OtherSeedRejected | client/ow/common/mbnv.c:513 | a packet is rejected under every other page seed |
| MemoryBankNV.ChunkEnd | client/ow/common/mbnv.c:207-214 | no chunk is empty or crosses a page boundary, and every chunk but the last ends on one |
| MemoryBankNV.Bank.CopyScratchpad | client/ow/common/mbscr.c:1120-1152 | the part copies only if target address and ending offset match, and changes no other byte; success means that it copied, and a lost confirmation that it may have |
| MemoryBankNV.Bank.WriteChunk | client/ow/common/mbnv.c:216-317 | with the scratchpad read back and compared, a chunk is written exactly or nothing changes, whatever the link did to it; success means it is written |
| MemoryBankNV.Bank.WriteNV | client/ow/common/mbnv.c:172-324 | success changes exactly the requested range to the buffer; failure leaves a prefix of it that ends on a page boundary or, if the confirmation of the last copy was lost, all of it; on a sound link it succeeds exactly within a writable bank |
| MemoryBankNV.Bank.WritePagePacket | client/ow/common/mbnv.c:585-624 | writes the packet of the data at the start of the page, or changes nothing; on a sound link it succeeds exactly for data that fits, inside a writable general-purpose bank |
| MemoryBankNV.Bank.ReadPagePacket | client/ow/common/mbnv.c:493-532 | returns what the packet at the start of the page holds, or why it is not one |
| MemoryBankNV.Bank.SeedIsPage | client/ow/common/mbnv.c:513-612 | the CRC of a packet is seeded with the number of its page on the part, not in the bank |
| MemoryBankNV.PacketRoundTrip | client/ow/common/mbnv.c:493-624 | for every seed and 1 to 29 bytes, reading the page after writing the packet returns the data |
| MemoryBankEE.BlockEnd | client/ow/common/mbeewp.c:198-205 | no turn is empty or crosses a block boundary |
| MemoryBankEE.Bank.BuildBlock | client/ow/common/mbeewp.c:214-230 | the three ways to place the bytes all give the block of the page with exactly the requested bytes changed |
| MemoryBankEE.Bank.Turn | client/ow/common/mbeewp.c:207-244 | one read-modify-write turn changes exactly its chunk or nothing, success means the chunk is written, and the page buffer then agrees with the part |
| MemoryBankEE.TurnEffect | client/ow/common/mbeewp.c:207-244 | copying a block of the page with a chunk changed writes exactly the chunk, and changing the page buffer likewise keeps it equal to the page |
| MemoryBankEE.Bank.WriteBlocks | client/ow/common/mbeewp.c:195-249 | the turns together change exactly a prefix of the range, the whole of it on success |
| MemoryBankEE.Bank.WriteEEWP | client/ow/common/mbeewp.c:159-252 | success changes exactly the requested range to the buffer; failure leaves a prefix of it, with an unconfirmed last block or without; on a sound link it succeeds exactly within a writable bank |
| Sha1.ChForm | extern/sha1.c:65-66 | the rewritten Ch equals that of FIPS 180-2 |
| Sha1.MajForm | extern/sha1.c:69-70 | the rewritten Maj equals that of FIPS 180-2 |
| Sha1.RoundSumIs | extern/sha1.c:65-74 | the sum in the code's order is the sum of section 6.1.2 |
| Sha1.WindowStep | extern/sha1.c:61-64 | the circular 16-word buffer yields word t of the 80-word schedule and stays its window |
| Sha1.StoreAppends | extern/sha1.c:88-95 | storing a byte at index offset xor 3 appends it to the big-endian words of the buffer |
| Sha1.FullBuffer | extern/sha1.c:96-97 | a full buffer is the block of FIPS 180-2 |
| Sha1.Sha1Info.HashBlock | extern/sha1.c:51-86 | one call is the compression of section 6.1.2 on the buffer |
| Sha1.Sha1Info.AddUncounted | extern/sha1.c:88-100 | the object has absorbed exactly one more byte |
| Sha1.Sha1Info.Write | extern/sha1.c:107-109 | the object has absorbed the bytes, and counted them modulo 2^32 |
| Sha1.Sha1Info.Pad | extern/sha1.c:111-127 | absorbs the padding of section 5.1.1 for the counted length |
| Sha1.Sha1Info.Result | extern/sha1.c:129-147 | returns the digest bytes of everything absorbed, padded |
| Sha1.Sha1Info.HashParts | extern/sha1.c:37-147 | for every message and every split of it the result is the digest with the length counted modulo 2^32, which below 2^32 bytes is that of FIPS 180-2 |
| Sha1.CountedLength | extern/sha1.c:118-126 | the padding is that of FIPS 180-2 if and only if the message is shorter than 2^32 bytes |
| Sha1.CountedIsSha1 | extern/sha1.c:111-147 | below 2^32 bytes the digest with the counted length is that of FIPS 180-2 |
| Sha1Example.AbcHash | extern/sha1.c:31-147 | the example of appendix A.1 of FIPS 180-2: the digest of "abc", through its 80 words and 80 rounds |
| Sha1.Sha1Info.InitHmac | extern/sha1.c:152-169 | for every key length the key buffer holds the RFC 2104 key block and the inner hash has absorbed its inner pad |
| Sha1.Sha1Info.ResultHmac | extern/sha1.c:171-180 | returns the HMAC of key and message over the counted digest, which is that of RFC 2104 unless the inner hash takes 2^32 bytes or more |
| Sha1.Sha1Info.HmacParts | extern/sha1.c:152-180 | initialisation, writes in any split and the result together compute HMAC-SHA1 over the counted digest, for messages of any length |
| Sha1.HmacCountedIsHmac | extern/sha1.c:152-180 | while key block and message stay below 2^32 bytes, HMAC over the counted digest is that of RFC 2104 |
| Sha1Spec.HmacBytes | extern/sha1.c:149-180 | HMAC on the bytes: the filled key xored with 36 and 5C in front of message and inner digest |
| Sha1Spec.HmacOfLongKey | extern/sha1.c:155-159 | a key longer than a block stands for its digest |
| ShaEE.LowSum | client/ow/common/ibsha33o.c:852 | the low half of the wide sum is the 32-bit sum |
| ShaEE.LowNLF | client/ow/common/ibsha33o.c:875-885 | the low half of NLF is the round function of FIPS 180-2 |
| ShaEE.WideRound | client/ow/common/ibsha33o.c:849-858 | one round on unmasked wide words is one round on their low halves |
| ShaEE.Schedule | client/ow/common/ibsha33o.c:832-841 | the 80 wide words are the zero-extended schedule |
| ShaEE.ComputeSHAEE | client/ow/common/ibsha33o.c:825-859 | the low halves are the working variables after 80 rounds, and with the initial constants added the hash value of the block |
| ShaTwins.CompressionsAgree | client/ow/common/ibsha33o.c:819-859 | for every block, ComputeSHAEE plus the initial constants and the state sha1_hashBlock reaches from sha1_init are both the compression of that block |
| Ds2480.Ds2480.constructor | ds2480sim.c:8-40 | a new simulator is in the state of a master reset: command mode, not searching, speed 0, an empty search buffer and the 256 config bytes with their seven defaults |
| Ds2480.Ds2480.Push | ds2480sim.c:42 | stores a reply byte exactly if two places are left |
| Ds2480.Ds2480.CommandByte | ds2480sim.c:62-105 | one command byte has the reference effect and reply if the reply fits |
| Ds2480.Ds2480.ProcessCmd | ds2480sim.c:44-108 | a run of command bytes is decoded up to the switch to data mode, or fails only if the reply has no room |
| Ds2480.Ds2480.Preprocess | ds2480sim.c:143-164 | the index-jumping loop yields the unescaped payload, the bytes it dropped, and what ended the run |
| Ds2480.Ds2480.ProcessSearchRom | ds2480sim.c:110-122 | writes the reply that carries the ROM |
| Ds2480.Ds2480.FeedSearch | ds2480sim.c:166-174 | every sixteenth search byte is answered, across runs |
| Ds2480.Ds2480.ProcessData | ds2480sim.c:124-188 | a run of data bytes is decoded, delivered and left as the reference decoder does |
| Ds2480.Ds2480.Turn | ds2480sim.c:195-209 | one turn of the main loop is the part of the reference decoding up to the byte it stops at |
| Ds2480.Ds2480.Process | ds2480sim.c:190-212 | with room for the reply, the simulator terminates on every byte stream and equals the recursive decoder in registers, search buffer, part and output |
| Ds2480.ConsumedIsEscaped | ds2480sim.c:131-164 | every byte of a data run is accounted for: what was consumed is the payload with E3 doubled |
| Ds2480.EscapeForth | ds2480sim.c:131-138 | data without C1, sent with E3 doubled, arrives unchanged |
| Ds2480.TransparentIff | ds2480sim.c:154-163 | data arrives unchanged if and only if it has no byte C1 |
| Ds2480.SearchBits | ds2480sim.c:114-119 | the search reply carries ROM bit i in an odd bit, and no discrepancy in the even bits |
| Ds2480.DecodeConcat | ds2480sim.c:190-212 | the stream may be cut into buffers in command mode, unless the cut parts two E3 bytes |
| Ds2480Laws.ModeSwitches | ds2480sim.c:52-60 | the byte E1 switches to data mode, E3 does nothing in command mode |
| Ds2480Laws.SearchCommand | ds2480sim.c:72-76 | the bytes 101v ss.1 switch the search accelerator on (v = 1) or off, without a reply |
| Ds2480Laws.BitCommand | ds2480sim.c:65-70 | the bytes 100v ss.1 set the speed and are echoed without bits 5 and 6 |
| Ds2480Laws.ResetCommand | ds2480sim.c:78-84 | the bytes 110. ss.1 are a reset pulse on the line, answered with a presence pulse |
| Ds2480Laws.PulseCommand | ds2480sim.c:86-93 | the other bytes 111. ...1 are answered and do nothing |
| Ds2480Laws.ConfigWrite | ds2480sim.c:95-100 | 0ppp vvv1 stores the value of a parameter and echoes both |
| Ds2480Laws.ConfigRead | ds2480sim.c:101-104 | 0000 ppp1 answers with the parameter's value |
| Ds2480Laws.NoCommand | ds2480sim.c:62-107 | the bytes with bit 0 clear are ignored |
| Ds2480Laws.MasterReset | ds2480sim.c:8-40 | mode, speed, search and each of the 256 config bytes after a master reset |
| Ds2480Laws.SentDecodes | ds2480sim.c:124-188 | a run of data without C1, sent with E3 doubled, is delivered and ends in command mode |
| Ds2480Laws.TimingEnds | ds2480sim.c:154-163 | the timing byte C1 ends a run of data bytes as well, is no data, and resets the baud rate; what came before it is delivered |
| Ds2480Laws.SearchAccelerator | testclient.c:28-37 | the stream B1 E1, sixteen bytes, E3 A1 is answered with the sixteen bytes that carry the ROM, leaves the part alone and switches searching off again |
| Ds2480Laws.Detection | testclient.c:21-27 | the stream C1 17 45 5B 0F 91 that a host detects the adapter with: its reply, and the registers it leaves |
| Ds2480Laws.ParameterTrip | ds2480sim.c:95-104 | a parameter that was set is read back |
| Ds2480Laws.ResetAndData | ds2480sim.c:78-188 | reset and data: what the part gets and answers, in overdrive exactly if the reset selects it |
| Ds1963s.Ds1963s.ReadScratchpadCommand | ds1963s.c:146-170 | address, end register, scratchpad from the offset on, CRC and filling, in place over the echo |
| Ds1963s.Ds1963s.WriteScratchpadCommand | ds1963s.c:172-195 | loads the address registers and, inside the data memory, the scratchpad from the offset on, and answers with echo and CRC |
| Ds1963s.Ds1963s.EraseScratchpadCommand | ds1963s.c:197-209 | fills the scratchpad with FF and deselects the secrets |
| Ds1963s.Ds1963s.CopyScratchpadCommand | ds1963s.c:211-244 | copies only if address and end registers are repeated, and says so in the filling |
| Ds1963s.Ds1963s.ReadNvram | ds1963s.c:37-97 | the page, for pages 8 to 15 its counters, and their hash in the scratchpad; nothing beyond the memory |
| Ds1963s.Ds1963s.ReadAuthPageCommand | ds1963s.c:246-268 | page, counters and CRC, and cleared address registers |
| Ds1963s.Ds1963s.ProcessSha | ds1963s.c:277-286 | sign data page: CRC of the command, filling, and the hash in the scratchpad for pages 0 and 8 |
| Ds1963s.Ds1963s.ProcessMemory | ds1963s.c:270-309 | every whole memory command has the reference effect and reply, and the part expects a ROM command again |
| Ds1963s.Ds1963s.SearchReply | ds1963s.c:333-343 | writes three bits for each ROM bit |
| Ds1963s.Ds1963s.ProcessRom | ds1963s.c:311-357 | every whole ROM command has the reference reply and length |
| Ds1963s.Ds1963s.Process | ds1963s.c:359-380 | a whole run of data bytes has the reference effect and reply, with the memory command taken to be as long as both commands together |
| Ds1963s.Ds1963s.constructor | ds1963s.c:389-413 | a new part is all zero and expects a ROM command |
| Ds1963s.Ds1963s.ResetPulse | ds1963s.c:382-387 | a reset pulse changes nothing but what the part expects next |
| Ds1963sLaws.AlwaysUntouched | ds1963s.c:270-387 | whole commands, resets and reset pulses in any order keep HIDE at 0 and secrets and counters as they were |
| Ds1963sLaws.ReachableUntouched | ds1963s.c:389-433 | in every state reachable from ds1963s_init HIDE is 0 and secrets and counters have never changed |
| Ds1963sLaws.LittleEndian | ds1963s.c:27-32 | a counter is sent lowest byte first |
| Ds1963sLaws.NvramGuard | ds1963s.c:211-244 | the data memory changes exactly through an accepted copy, to exactly the scratchpad bytes |
| Ds1963sLaws.RepliesPass | ds1963s.c:146-286 | every reply with a CRC has residue 0xB001 over its CRC region |
| Ds1963sLaws.WriteThenRead | ds1963s.c:146-195 | what was written to the scratchpad, at any address, is read back with its address, the end register at its last value and a good CRC |
| Ds1963sLaws.WriteReadCopy | ds1963s.c:211-244 | write, read and copy put the first 31 scratchpad bytes at the address and change nothing else |
| Ds1963sLaws.PageStoredIff | ds1963s.c:235-239 | a page-aligned write, read and copy stores the page if and only if its last byte was already there |
| Ds1963sLaws.LastByteLost | ds1963s.c:211-244 | a run from the initial state that loses a byte: a page of FF written, read back and copied is stored as 31 bytes FF and a last byte 00 |
| Ds1963sLaws.ReadAuthShows | ds1963s.c:246-268 | read authenticated page shows the data memory, with counters that are still 0 |
| Ds1963sCommands.Registers | ds1963s.c:146-239 | which bits of the registers are address, offset in the scratchpad, end of the data and acceptance |
| Ds1963sCommands.WholeIff | ds1963s.c:270-309 | the six command bytes, and how many bytes each command reads and writes |
| Ds1963sCommands.WriteBytes | ds1963s.c:172-195 | the registers, the scratchpad and the answer after a write scratchpad, inside the data memory and beyond it |
| Ds1963sCommands.ReadBytes | ds1963s.c:146-170 | the answer to a read scratchpad from any offset, and the end register it leaves; nothing but FF while the secrets are selected |
| Ds1963sCommands.CopyBytes | ds1963s.c:211-244 | a copy that repeats address and end registers replaces as many bytes as the end register says, in the data memory or the secrets, and sets bit 7 of the end register; any other copy changes nothing |
| Ds1963sCommands.AuthBytes | ds1963s.c:37-97 | the answer to a read authenticated page: 32 bytes from the address on, both counters for pages 8 to 15, CRC and filling |
| Ds1963sCommands.SignBytes | ds1963s.c:277-286 | the answer to a sign data page: the command, its CRC and filling |
| Ds1963sCommands.OtherBytes | ds1963s.c:302-307 | any other command byte changes nothing and adds nothing to the answer |
| Ds1963sCommands.AuthLeavesHash | ds1963s.c:50-90 | read authenticated page of pages 8 to 15 leaves its hash in bytes 8 to 27 of the scratchpad and the other bytes as they were; of other pages it leaves the scratchpad as it was |
| Ds1963sLaws.AuthThenRead | ds1963s.c:146-170 | a read scratchpad next shows the host that hash in bytes 12 to 31 of the reply |
| Ds1963sCommands.SignLeavesHash | ds1963s.c:99-125 | sign data page leaves its hash in the same place, for pages 0 and 8 alone |
| Ds1963sHashes.PageByteIs | ds1963s.c:72 | the byte hashed for the page is its number |
| Ds1963sHashes.AuthIsSha1 | ds1963s.c:59-90 | that hash is SHA-1 of secret, page, counter, page number, ROM, challenge and the trailing bytes |
| Ds1963sHashes.SignIsSha1 | ds1963s.c:99-125 | the other one is SHA-1 of secret, page, scratchpad fields, the rest of the secret, challenge and the trailing bytes |
| Ds1963sHashes.TrailingIsPadding | ds1963s.c:102-103 | the trailing bytes are the padding of section 5.1.1 for the 55 bytes in front of them, which SHA-1 then pads once more |
| Ds1963sLaws.ScratchpadShown | ds1963s.c:146-170 | read scratchpad at offset 0 shows all 32 bytes from byte 4 of the reply on |
| Ds1963sCommands.EraseLeavesOnes | ds1963s.c:197-209 | an erased scratchpad is all FF, with the secrets deselected |
| Ds1963sLaws.RomReplies | ds1963s.c:311-357 | what each ROM command answers: the ROM, the search triples, or the command itself |
| Ds1963sLaws.SkipAndMemory | ds1963s.c:359-380 | skip ROM and a memory command in one run: the echo, then the memory command with one byte more than it has |
| Ds1963sLaws.SearchShowsRom | ds1963s.c:333-343 | every triple of the search reply is the ROM bit, its complement and no direction |
| Ds1963sLaws.SearchIdentifies | ds1963s.c:333-343 | two parts with the same search reply have the same ROM |
| SerialLink.SessionDecodes | ds2480sim.c:190-212 | reset, skip ROM and one memory command through the serial line run that command on the part and return its reply |
| SerialLink.ScriptDecodes | ds2480sim.c:190-212 | any list of memory commands without C1 does through the serial line what it does on the part itself |
| SerialLink.PartsDecode | ds2480sim.c:190-212 | a stream in any number of buffers, cut only where the simulator is in command mode and no two E3 are parted, decodes as the uncut stream |
| SerialLink.NewLinkServes | ds2480sim.c:8-40 | a new simulator with a new part behind it, fed any list of whole commands without C1 in any allowed cut, answers as the part does |
| SerialLink.SerialRoundTrip | ds1963s.c:146-195 | a host that writes the scratchpad and reads it back over the serial line, in any allowed cut of the stream, sees the bytes it wrote, their address and a good CRC |

## Left out

- EPROM parts: program jobs, redirection, status memory and add-files in `Read_Page`, `ReadBitMap`, `WriteBitMap` and owfile.c depend on rawmem and owprgm code that is not part of this model.
- The link layer (owBlock, owAccess, speed and power levels): a transfer is a step that succeeds or, on a flaky link, fails; for `writeNV` it may also corrupt the scratchpad, and for `writeNV` and `writeEEWP` the confirmation of a copy may be lost after the copy took place.
- getBank and getPage are taken to be the identity, and the page number as the CRC seed of a cached page.
- OwPageIO.PageIO.ReadPage: pages whose length byte is 32; `Read_Page` reads one byte past its own page buffer for them (client/ow/common/owpgrw.c:202-210). The model starts from pages without such a length byte. Writes that are reported as failed and took place are the subject of `PageRead`.
- OwPageIO.PageIO.PageRead: the same pages, for the same reason.
- OwPageIO.PageIO.Run: from parts without such a page.
- OwPageIO.PageIO.WritePage: a write that takes place and is reported as failed; it is the subject of `PageWrite`. The bitmap, file and directory modules are about links on which a failed write leaves nothing.
- OwExtFile.ExtRead: not for a chain that neither ends nor overflows the buffer (a circle read with a maximum of -1, or a circle of pages without data), on which the source never returns, nor for a page of length 0, on which it reads the byte in front of its buffer.
- OwExtFile.ExtWrite: not for a last page of 255 if fewer than two pages stay free, for the reason given for FindEmpties.
- OwExtFile.WriteThenDelete: with the same exception.
- The clock is a parameter of each access; time stamps wrap at 2^64 as a 64-bit `unsigned long` does.
- OwBitMap.FindEmpties: not for a last page of 255 with fewer than two free pages, because there the byte counter of the source never leaves its loop.
- The whole of `owWriteFile`, `owCreateFile`, `owFormat` and the sub-directory commands: they call the modelled functions.
- OwDelete.DeleteFile: on a sound link. Not for a search that takes the continuation byte of a page without records for the file: on an empty page the source then writes in front of its buffer, and on a first page with a header alone it goes by bytes that no page has filled. Not for a file whose chain never ends, which the source reads for ever. What is left is stated for `Deletable` files: their chain ends within the part, the bitmap pages exist and are no directory pages unless the map is local, and the page count is one for which every map survives. The check of the file name's characters, the release of open handles and the reset of the current directory are not modelled, and the current directory is a parameter.
- OwDirectory.FindDirectoryInfo: for well-formed directories. The comparison at the continuation byte of a page of 28 bytes reaches past the 30-byte buffer; the model gives it 35 bytes, of which those that no page has filled have unknown values that stay the same. toupper is that of ASCII.
- OwErr: `owClearError`, which only zeroes the top slot, and the message table.
- MemoryBankEE.Bank.WriteEEWP: the page read has no CRC in the source; the model's read fails or returns the memory, and a scratchpad write arrives intact or is reported. Every bank has 32 bytes; the proof covers 64, beyond which the index into the page buffer would be wrong.
- MemoryBankNV: the part families that use other scratchpad commands than 0x0F, 0xAA and 0x55.
- Sha1: the big-endian build, and `long` of 32 bits in ibsha33o.c, where the masks are no-ops.
- Ds2480.Ds2480.Process: when the reply does not fit, the source's loop steps back and never ends; the model requires room. The `baud` and `check` fields are never read and are left out.
- Ds1963s: AUTH, CHLG, RC, MATCH and SEC, which no reply outside the hashes depends on. The device takes its two hashes as functions of its state; `Ds1963sHashes` says which they are.
- Ds1963s.Ds1963s.CopyScratchpadCommand: copies beyond the end of the memory, which the source does not check.
- Ds1963s.Ds1963s.ProcessMemory: commands that do not arrive whole, copies beyond the end of the memory, and SHA subfunctions other than sign data page, whose reply is longer than what is written.
- Ds1963s.Ds1963s.ProcessRom: commands shorter than their reply.
- Ds1963s.Ds1963s.Process: runs of data bytes that are no whole command; the bytes behind the buffer that the source then reads are not modelled.
- SerialLink.SessionDecodes: runs of data bytes that are no whole command, as above.
- OwCache: `FindPage` initialises the table on its first call; here the constructor does.
- Kernel module, pty and tty glue, test clients, temperature and counter parts, and near copies of the packet and chunking code for other families.

# Storage engine of an embedded object database, in Dafny

This project models the core of `StorageImpl.cs`, the storage engine of a
small embedded object database for .NET. The database file is a sequence of
4 KB pages. Objects are found through an object directory and placed by a
bitmap allocator. Transactions are made durable by switching between two root
records, and a mark-and-sweep collector reclaims what the root object can no
longer reach. The model covers:

- **the file layout and its constants** (`layout.dfy`). The 32-byte
  allocation quantum, the three flag bits of a directory slot, and the
  rounding of sizes.
- **`Bytes.pack`/`unpack` and the header** (`bytes.dfy`, `header.dfy`).
  These are big-endian two's-complement integers, plus the `RootPage` and
  `Header` records that `pack` and `unpack` write and read.
- **the bitmap allocator** (`bits.dfy`, `hole_tables.dfy`, `reservation.dfy`,
  `allocator.dfy`). This covers:
  - the four 256-entry hole tables;
  - the reservation chain;
  - `allocate`, with its page-aligned byte scan, sub-page bit scan and file
    extension;
  - `free`, `extend` and `memset`.

  An `Allocator` class owns the bitmap as an `array<bv8>`, the per-page hints,
  the two search cursors, the counters and the reservation chain. Each search,
  mark and clear loop is a method proved against a specification predicate on
  the bitmap's contents.
- **the object directory** (`directory.dfy`). This covers:
  - `getPos`, `setPos`, `get` and `getPage`;
  - `allocateId`, `freeId` and the free list threaded through slots;
  - `allocatePage`, `putPage`, `freePage` and `deallocateObject`;
  - the directory's side of `allocate`: moving an object, and the new bitmap
    pages.

  The database is a `Db` value. Two invariants are stated over it: `Core`, and
  `Inv`, which is `Core` plus the shadows. Each operation is a function with a
  lemma that shows it keeps the invariants.
- **transactions** (`transactions.dfy`). `Open` covers validation, the layout
  of a new database and crash recovery. `Commit` runs in four stages. The
  model also has `Rollback`.
- **the collector** (`collector.dfy`):
  - `markOid`, and the mark phase on grey and black bit arrays, proved to
    blacken exactly the reachable objects;
  - the sweep, proved to free exactly the condemned records.
- **the record walker and the codec** (`records.dfy`, `codec.dfy`):
  - `skipField`, `unpackObject` used only to skip, and `markObject`, all
    against one reference layout;
  - the integer and array branches of `packField` and `unpackField`, with
    their round trip.
- **the storage object** (`storage.dfy`). This is a `Storage` class whose
  fields the operations update in place. Each method is proved to leave the
  state that the corresponding function above gives.

Calls into code the model does not contain are parameters:

- the page pool's reads are `rc`, `buf`, `stored` and `sizeAt`;
- what `allocate` returned to the directory is the `Grant`;
- the object headers the collector reads are `heap`.

The directory, transaction and collector models record their calls into the
allocator in a log, `space`.

## Model

| member | source | states |
|---|---|---|
| Layout.ConstantsAgree | csharp/src/impl/StorageImpl.cs:72-91 | the derived constants (quantum, bitmap segment, number of bitmap pages, slots per index page, first user entry, flag mask) equal the shifts the source defines them by |
| Layout.RoundUp | csharp/src/impl/StorageImpl.cs:706 | rounding up to a power-of-two unit gives the least multiple of the unit that is not below the input |
| Layout.Offset | csharp/src/impl/StorageImpl.cs:127 | `pos & ~dbFlagsMask` is 8-aligned and adding back the three flag bits gives the slot |
| Layout.SetModified | csharp/src/impl/StorageImpl.cs:87-91 | setting the modified flag keeps the offset and the other two flags |
| Layout.ClearModified | csharp/src/impl/StorageImpl.cs:1192-1197 | clearing the modified flag keeps the offset and the other two flags |
| Layout.FreeSlotDecodes | csharp/src/impl/StorageImpl.cs:242-243 | a free slot `(next << 3) \| dbFreeHandleFlag` gives back `next` on `>> dbFlagsBits` and carries only the free-handle flag |
| Layout.WithFlagsDecodes | csharp/src/impl/StorageImpl.cs:165 | `pos \| flags` on an 8-aligned position gives back the position and the flags |
| Bytes.DecodeEncodeU | csharp/src/impl/StorageImpl.cs:3892-3915 | an unsigned value written most significant byte first reads back unchanged |
| Bytes.EncodeDecodeU | csharp/src/impl/StorageImpl.cs:3925-3948 | re-encoding the value read from any w bytes gives the same w bytes |
| Bytes.DecodeWindow | csharp/src/impl/StorageImpl.cs:3925-3948 | a read depends only on the w bytes it reads |
| Bytes.UnpackPack | csharp/src/impl/StorageImpl.cs:3892-3948 | `unpack<w>` at any place where `pack<w>` wrote a signed value gives the value back (two's complement) |
| Bytes.DecodePack | csharp/src/impl/StorageImpl.cs:3892-3948 | the same for an unsigned value read back unsigned |
| Bytes.PackUnpack | csharp/src/impl/StorageImpl.cs:3892-3948 | packing the value unpacked from w bytes rewrites exactly those bytes |
| Bytes.PackSignedCast | csharp/src/impl/StorageImpl.cs:3894-3895 | packing an unsigned value after the cast to the signed type writes the same bytes |
| Bytes.UnsignedOfUnpack | csharp/src/impl/StorageImpl.cs:3925-3948 | the signed read cast back to unsigned is the unsigned value of the bytes |
| Bytes.Store | csharp/src/impl/StorageImpl.cs:3892 | `Bytes.pack<w>(a, offs, v)` writes the w bytes of v at offs and changes nothing else |
| Bytes.SpliceWindows | csharp/src/impl/StorageImpl.cs:3892-3915 | what a write stored is there afterwards, and every window before it is untouched |
| Bytes.SpliceAppend | csharp/src/impl/StorageImpl.cs:3892-3915 | two writes at a running offset are one write of both byte strings |
| Headers.RootFields | csharp/src/impl/StorageImpl.cs:3857-3873 | a root record packs into 60 bytes (four longs, seven ints), within its 64-byte slot |
| Headers.DecodeRoot | csharp/src/impl/StorageImpl.cs:3925-3948 | the decoded record's fields fit the C# long and int types |
| Headers.RootRoundTrip | csharp/src/impl/StorageImpl.cs:3892-3948 | wherever the 60 bytes of a record were written, `unpack` reads back every field except `reserved`, which reads as 0 |
| Headers.HeaderRoundTrip | csharp/src/impl/StorageImpl.cs:3885-3950 | `unpack(pack(h))` restores `curr` modulo 256 (so 0 and 1 unchanged), `dirty`, `initialized` and both root records except `reserved` |
| Headers.ImageWindows | csharp/src/impl/StorageImpl.cs:3885-3917 | `pack` puts the 3-byte prefix at 0 and the two records at offsets 3 and 67 |
| Headers.Image | csharp/src/impl/StorageImpl.cs:3885-3917 | the packed image has the buffer's length |
| Headers.DecodedRoots | csharp/src/impl/StorageImpl.cs:3919-3950 | `unpack` yields two records whose fields fit their C# types |
| Headers.Header.constructor | csharp/src/impl/StorageImpl.cs:3875-3882 | the model's starting header: `curr` 0, both flags false and two placeholder root records. The C# `Header` has no constructor, and `root` stays null until `unpack` fills it; `open` creates the header at line 866 and always calls `unpack` on it at line 873, before any read |
| Headers.Header.Pack | csharp/src/impl/StorageImpl.cs:3885-3917 | the buffer afterwards is the image of the header over the bytes that were there |
| Headers.Header.Unpack | csharp/src/impl/StorageImpl.cs:3919-3950 | the header afterwards holds the prefix bytes and the two records decoded from the buffer |
| Headers.PackRoot | csharp/src/impl/StorageImpl.cs:3892-3915 | one loop round writes the 60 field bytes of a record at the running offset and nothing else |
| Headers.UnpackRoot | csharp/src/impl/StorageImpl.cs:3924-3948 | one loop round reads the record at the running offset |
| Bits.HighMask | csharp/src/impl/StorageImpl.cs:512 | `~((1 << n) - 1)` as a byte is the mask of the 8 - n highest bits |
| Bits.OrByte | csharp/src/impl/StorageImpl.cs:489 | or-ing a run mask into bitmap byte k marks exactly those quanta of byte k used |
| Bits.AndNotByte | csharp/src/impl/StorageImpl.cs:738 | and-ing byte k with the complement of a run mask frees exactly those quanta |
| Bits.FillBytes | csharp/src/impl/StorageImpl.cs:423-437 | storing 0xFF into a byte range marks exactly its quanta used |
| Bits.ZeroBytes | csharp/src/impl/StorageImpl.cs:741-750 | storing 0 into a byte range frees exactly its quanta |
| Bits.MarkedTrans | csharp/src/impl/StorageImpl.cs:420-437 | marking two adjacent ranges, upper one first, marks their union |
| Bits.MarkedThen | csharp/src/impl/StorageImpl.cs:590-602 | marking two adjacent ranges, lower one first, marks their union |
| Bits.ClearedTrans | csharp/src/impl/StorageImpl.cs:735-753 | freeing two adjacent ranges frees their union |
| Bits.SameUse | csharp/src/impl/StorageImpl.cs:700-760 | a bitmap is determined by which quanta it marks used |
| Bits.ClearUndoesMark | csharp/src/impl/StorageImpl.cs:700-760 | freeing a range that was free and then marked gives back the bitmap it started from |
| Bits.TailStaysZero | csharp/src/impl/StorageImpl.cs:564-678 | bytes above every marked quantum stay zero |
| HoleTables.HoleFacts | csharp/src/impl/StorageImpl.cs:279-282 | for every byte the runs the tables name are zero bits, the trailing run is no longer than the longest, and an all-zero trailing run means an empty byte |
| HoleTables.TablesDescribeHoles | csharp/src/impl/StorageImpl.cs:279-282 | for all 256 bytes: `firstHoleSize` counts the zero bits from bit 0 up, `lastHoleSize` those from bit 7 down, `maxHoleSize` is the longest zero run and `maxHoleOffset` the lowest bit where such a run starts |
| Reservation.ClashesIsOverlap | csharp/src/impl/StorageImpl.cs:316 | for non-empty ranges the source's two-sided test is exactly the overlap of `[pos, pos+size)` and `[l.pos, l.pos+l.size)` |
| Reservation.WasReservedIsOverlap | csharp/src/impl/StorageImpl.cs:312-322 | `wasReserved(pos, size)` holds exactly when the range overlaps some chain entry (both directions) |
| Reservation.Reserve | csharp/src/impl/StorageImpl.cs:324-331 | `reserveLocation` pushes the new location on the head of the chain and keeps the rest |
| Reservation.Commit | csharp/src/impl/StorageImpl.cs:333-336 | `commitLocation` pops the head of the chain |
| Reservation.CommitUndoesReserve | csharp/src/impl/StorageImpl.cs:324-336 | reserving and then committing leaves the chain as it was |
| Reservation.ReservedIsSeen | csharp/src/impl/StorageImpl.cs:312-331 | once reserved, a range is reported by `wasReserved` for every range overlapping it |
| Allocator.QuantaRoundUp | csharp/src/impl/StorageImpl.cs:706 | the quanta `free` releases for a size are the bytes `allocate` counted for it |
| Allocator.QuantumSplit | csharp/src/impl/StorageImpl.cs:705-710 | quantum q is bit q % 8 of byte `(q & (pageBits - 1)) >> 3` of bitmap page `1 + (q >> 15)` |
| Allocator.Extend | csharp/src/impl/StorageImpl.cs:297-303 | `extend` raises the file size to the end given, never lowers it |
| Allocator.GrowthFits | csharp/src/impl/StorageImpl.cs:586-605 | after an extension the object and the new bitmap pages lie inside the new pages, the bitmap pages at the next multiple of 128 quanta |
| Allocator.GrowthPagesRoom | csharp/src/impl/StorageImpl.cs:575-585 | the pages an extension adds describe at least the object and stay below `dbBitmapId + dbBitmapPages` |
| Allocator.GrowthIsGrownIn | csharp/src/impl/StorageImpl.cs:586-676 | the bitmap an extension leaves marks exactly the object (from the hole before the old end) and the new bitmap pages, both free before |
| Allocator.FreeUndoesAllocate | csharp/src/impl/StorageImpl.cs:339-760 | `free` right after an `allocate` that found room gives back the bitmap as it was |
| Allocator.FreeAfterGrowth | csharp/src/impl/StorageImpl.cs:564-760 | `free` right after an `allocate` that grew the bitmap leaves exactly the new bitmap pages marked |
| Allocator.Allocator.constructor | csharp/src/impl/StorageImpl.cs:866-880 | the allocator `Open` sets up: an empty bitmap, every hint at Int32.MaxValue, both cursors at the first bitmap page |
| Allocator.Allocator.Memset | csharp/src/impl/StorageImpl.cs:286-294 | `memset` stores the pattern into exactly `len` bytes of the page from `offs` on |
| Allocator.Allocator.OrInto | csharp/src/impl/StorageImpl.cs:489 | or-ing a run mask into a bitmap byte marks exactly those quanta |
| Allocator.Allocator.Fill | csharp/src/impl/StorageImpl.cs:423-437 | a memset of 0xFF marks exactly the quanta of the bytes written |
| Allocator.Allocator.FillBackBytes | csharp/src/impl/StorageImpl.cs:420-437 | the page-aligned back-fill marks exactly the hole's quanta, across pages, and zeroes the hints of the pages it covers entirely |
| Allocator.Allocator.FillBackBits | csharp/src/impl/StorageImpl.cs:490-513 | the sub-page back-fill marks exactly the hole's quanta before the object's byte, across pages, and zeroes the hints of the pages it covers entirely |
| Allocator.Allocator.FillBitsBefore | csharp/src/impl/StorageImpl.cs:508-512 | the last page of a back-fill: whole bytes downwards, then the high bits of the byte before, marked exactly |
| Allocator.Allocator.SearchAligned | csharp/src/impl/StorageImpl.cs:389-442 | the byte scan of one bitmap page finds n free quanta starting on a page boundary and not overlapping a reserved range, or reaches the page end with a shorter aligned hole |
| Allocator.Allocator.AlignedByte | csharp/src/impl/StorageImpl.cs:392-406 | one byte of that scan: a used byte restarts at the next aligned offset, a reserved hit skips past it |
| Allocator.Allocator.ScanAligned | csharp/src/impl/StorageImpl.cs:379-449 | one round over bitmap pages `firstPage .. lastPage-1` for a page-multiple object, skipping pages the hint rules out and only lowering hints |
| Allocator.Allocator.QuantaHead | csharp/src/impl/StorageImpl.cs:467 | when the hole before a byte plus its leading zero bits covers the object, those quanta are free |
| Allocator.Allocator.QuantaInside | csharp/src/impl/StorageImpl.cs:518-521 | when the longest zero run of a byte covers the object, the quanta at `maxHoleOffset` are free |
| Allocator.Allocator.QuantaStep | csharp/src/impl/StorageImpl.cs:546-554 | a byte without room leaves as hole its trailing zero bits, or the hole grown by eight |
| Allocator.Allocator.SearchQuanta | csharp/src/impl/StorageImpl.cs:463-555 | the table-driven scan of one bitmap page finds free quanta not overlapping a reserved range, at the head of a byte after a hole or inside a byte, or reaches the page end |
| Allocator.Allocator.ScanQuanta | csharp/src/impl/StorageImpl.cs:453-562 | one round over bitmap pages for an object that is not a page multiple, only lowering hints |
| Allocator.Allocator.PlaceAligned | csharp/src/impl/StorageImpl.cs:407-440 | taking a page-aligned hole reserves it, moves the page cursor there, extends the file and marks exactly the hole |
| Allocator.Allocator.PlaceQuanta | csharp/src/impl/StorageImpl.cs:476-544 | taking a sub-page hole marks exactly the object's quanta, moves the record cursor there and extends the file |
| Allocator.Allocator.FillRun | csharp/src/impl/StorageImpl.cs:604-623 | the bytes of the new bitmap pages become 0xFF page by page, marking exactly their quanta |
| Allocator.Allocator.LayOut | csharp/src/impl/StorageImpl.cs:586-623 | the fresh pages mark the object's first quanta and, at the next multiple of 128 quanta, the new bitmap pages |
| Allocator.Allocator.ZeroHints | csharp/src/impl/StorageImpl.cs:642-645 | the hints of the pages the object covers entirely become 0 and no other hint changes |
| Allocator.Allocator.Grow | csharp/src/impl/StorageImpl.cs:571-677 | the extension fails with NOT_ENOUGH_SPACE exactly when no page count fits, else marks object and new pages, moves the cursor of the object's kind and extends the file |
| Allocator.Allocator.GrowInto | csharp/src/impl/StorageImpl.cs:586-677 | the extension by a given number of pages: placement, bitmap, cursor, hints and file size |
| Allocator.Allocator.MarkGrowth | csharp/src/impl/StorageImpl.cs:586-623 | the bitmap side of an extension marks the object and the new pages and nothing else |
| Allocator.Allocator.BackFillGrowth | csharp/src/impl/StorageImpl.cs:656-676 | the back-fill of an extension marks exactly the hole before the old bitmap end |
| Allocator.Allocator.Round | csharp/src/impl/StorageImpl.cs:376-563 | one round of the search either takes free, unreserved quanta below `lastPage` and moves the cursor of the object's kind to the byte past the hole (pages) or to the byte holding the object's end (records), the other cursor unchanged, or changes nothing but the hints |
| Allocator.Allocator.RoundAligned | csharp/src/impl/StorageImpl.cs:376-450 | the round for page multiples; what it takes starts on a page boundary, and a hit leaves the page cursor at the byte just past the hole (`CursorPast`, lines 408-409) and the record cursor unchanged |
| Allocator.Allocator.TakeAligned | csharp/src/impl/StorageImpl.cs:399-440 | the aligned hole found is taken: quanta free before and marked after, unreserved, page aligned; the page cursor ends at the byte just past the hole and the record cursor does not move |
| Allocator.Allocator.RoundQuanta | csharp/src/impl/StorageImpl.cs:451-563 | the round for objects that are not page multiples; a hit leaves the record cursor at the byte holding the object's last quantum (`CursorAt`, lines 477-478 and 529-530) and the page cursor unchanged |
| Allocator.Allocator.Extension | csharp/src/impl/StorageImpl.cs:564-678 | once both rounds failed, the bitmap grows from its end and the cursor of the object's kind moves to offset 0 of the page holding the object's end (`CursorGrown`, lines 631-640), or the call fails with NOT_ENOUGH_SPACE and both cursors stay |
| Allocator.Allocator.Allocate | csharp/src/impl/StorageImpl.cs:339-695 | `allocate(size, 0)`: size 0 fails the assertion; otherwise the rounded size is added to `allocatedDelta` and `usedSize`, and the position is quantum aligned, free before, marked after, clear of the reservation chain and page aligned for page multiples, or the bitmap grew, or NOT_ENOUGH_SPACE; on success the cursors end where `Cursors` says (the kind's cursor just past or at the object's end, or at the start of its end page after growth, the other cursor unchanged), on failure neither cursor moves |
| Allocator.Allocator.Search | csharp/src/impl/StorageImpl.cs:363-695 | the search loop from the cursor to the bitmap end, then from the first page to the cursor's page, then extension: the same placement facts as `Allocate`, the cursors as `Cursors` says on success and unchanged on NOT_ENOUGH_SPACE |
| Allocator.Allocator.AndInto | csharp/src/impl/StorageImpl.cs:738-756 | and-ing a byte with a kept mask frees exactly the quanta cleared |
| Allocator.Allocator.Zero | csharp/src/impl/StorageImpl.cs:741 | a memset of 0 frees exactly the quanta of the bytes written |
| Allocator.Allocator.ClearBytes | csharp/src/impl/StorageImpl.cs:748-752 | the end of a free on one page frees exactly n quanta from the byte given |
| Allocator.Allocator.ClearRun | csharp/src/impl/StorageImpl.cs:735-753 | the multi-byte branch of `free` frees exactly the object's quanta across pages and resets the hints of the further pages to Int32.MaxValue |
| Allocator.Allocator.Free | csharp/src/impl/StorageImpl.cs:700-760 | `free` fails its assertion exactly for position 0 or an unaligned one; otherwise it clears exactly the object's quanta, subtracts the rounded size from both counters, resets the hints of the pages it spans and moves a cursor on the same page back |
| Allocator.Allocator.Rewind | csharp/src/impl/StorageImpl.cs:1287-1291 | rollback sets the used size to the committed size and puts both cursors back at the start of the first bitmap page, keeping the bitmap invariant |
| Allocator.Allocator.LowerCursors | csharp/src/impl/StorageImpl.cs:715-732 | the cursor rules of `free`, including the repeated record-cursor test |
| Allocator.Allocator.ClearQuanta | csharp/src/impl/StorageImpl.cs:733-757 | the bitmap part of `free` clears exactly n quanta and resets the hints of their pages |
| Layout.Int32Of | csharp/src/impl/StorageImpl.cs:242 | `(int)x` of a long is a C# int and leaves ints unchanged |
| Directory.LongAndInt | csharp/src/impl/StorageImpl.cs:3857-3873 | a value packs into 8 (4) signed bytes exactly when it is a C# long (int) |
| Directory.FittingFits | csharp/src/impl/StorageImpl.cs:3857-3873 | a root record's fields fit their C# types exactly when the record can be packed |
| Directory.WithWork | csharp/src/impl/StorageImpl.cs:239 | replacing `header.root[1 - currIndex]` leaves the committed record and `currIndex` unchanged |
| Directory.CoreFrame | csharp/src/impl/StorageImpl.cs:94-277 | the directory invariant depends only on the header, the two indexes, their sizes and the dirty pages |
| Directory.WorkKeepsCore | csharp/src/impl/StorageImpl.cs:297-303 | updating the working record without touching its index fields (as `extend` does) keeps the invariant |
| Directory.GrantOf | csharp/src/impl/StorageImpl.cs:339-695 | an `allocate` result becomes a grant exactly when it succeeded |
| Directory.AllocateIsSound | csharp/src/impl/StorageImpl.cs:339-695 | every found or grown placement `Allocator.Allocator.Allocate` ensures is a `Sound` grant, and the file size never shrinks: the link between the allocator and the directory |
| Directory.Get | csharp/src/impl/StorageImpl.cs:120-128 | `get` reads a record, failing with INVALID_OID on a page or free entry; its contract is `Directory.GetAndGetPageExclusive` and `Directory.FreedIsUnreadable` |
| Directory.GetPage | csharp/src/impl/StorageImpl.cs:130-138 | `getPage` reads a page, failing with DELETED_OBJECT otherwise; its contract is `Directory.GetAndGetPageExclusive`, `Directory.FreedIsUnreadable` and `Directory.AllocatePageReadsBack` |
| Directory.AllocatePage | csharp/src/impl/StorageImpl.cs:162-167 | `allocatePage`: a new entry set to a modified page at the granted position; its contract is `Directory.AllocatePageReadsBack` |
| Directory.CopyPage | csharp/src/impl/StorageImpl.cs:149-155 | the copy on write of `putPage`; its contract is `Directory.CopyPageKeepsInv` and `Directory.PutPageCopies` |
| Directory.PutPage | csharp/src/impl/StorageImpl.cs:140-159 | `putPage`; its contract is `Directory.PutPageKeepsInv`, `Directory.PutPageTwice` and `Directory.PutPageCopies` |
| Directory.GetPos | csharp/src/impl/StorageImpl.cs:94-106 | `getPos` with the range check the source evidently intends: INVALID_OID exactly outside `1 .. currIndexSize-1`, and otherwise the working slot |
| Directory.GetPosAsWritten | csharp/src/impl/StorageImpl.cs:94-106 | `getPos` as written fails only when `oid == 0 && oid >= currIndexSize` |
| Directory.GetPosAsWrittenAcceptsAll | csharp/src/impl/StorageImpl.cs:98 | the guard as written reads entry 0 and entry `currIndexSize`, which the intended check rejects |
| Directory.SetPos | csharp/src/impl/StorageImpl.cs:109-118 | `setPos` writes exactly that slot and marks its index page dirty; nothing else changes |
| Directory.SetPosKeepsCore | csharp/src/impl/StorageImpl.cs:109-118 | writing an entry in use keeps the directory invariant |
| Directory.GetPosAfterSetPos | csharp/src/impl/StorageImpl.cs:94-118 | after `setPos(oid, pos)` the entry reads as `pos` and every other entry as before |
| Directory.GetAndGetPageExclusive | csharp/src/impl/StorageImpl.cs:120-138 | an entry never reads both as a record (`get`) and as a page (`getPage`), and a free entry reads as neither |
| Directory.SetDirty | csharp/src/impl/StorageImpl.cs:221-232 | `setDirty` sets `modified` and `header.dirty` and changes nothing else |
| Directory.FreeId | csharp/src/impl/StorageImpl.cs:270-277 | `freeId` keeps the directory invariant |
| Directory.FreedIsUnreadable | csharp/src/impl/StorageImpl.cs:270-277 | after `freeId(oid)` the entry reads as neither a record nor a page |
| Directory.AddBitmapPages | csharp/src/impl/StorageImpl.cs:624-630 | the new bitmap pages only move the working record's bitmap end |
| Directory.AddBitmapPagesKeepsInv | csharp/src/impl/StorageImpl.cs:624-630 | the slots of the new bitmap pages name consecutive pages from the new position on, flagged as modified page objects, their index pages become dirty, and the invariant is kept |
| Directory.Relocate | csharp/src/impl/StorageImpl.cs:411-417 | moving object `oid` gives its slot the new position, keeps its flags and sets the modified flag |
| Directory.AllocateSpace | csharp/src/impl/StorageImpl.cs:339-695 | the directory side of `allocate(size, oid)`: dirty header, new file size, position returned, moved slot modified; committed record and index untouched |
| Directory.AllocateSpaceKeepsInv | csharp/src/impl/StorageImpl.cs:339-695 | the directory side of `allocate` keeps the invariant |
| Directory.AllocateSpaceKeepsKind | csharp/src/impl/StorageImpl.cs:411-417 | an entry moved by `allocate` stays a live page or a user record |
| Directory.Grow | csharp/src/impl/StorageImpl.cs:249-262 | the full index doubles: the new capacity is twice the old, and the calls are `allocate(2n * 8, 0)` then `free(old index, n * 8)` |
| Directory.GrowKeepsInv | csharp/src/impl/StorageImpl.cs:249-262 | doubling keeps the invariant and the entries in use, as `pool.copy` copies them |
| Directory.TakeFreeKeepsInv | csharp/src/impl/StorageImpl.cs:241-247 | taking the head of the free list keeps the invariant and returns an entry in use |
| Directory.TakeNextKeepsInv | csharp/src/impl/StorageImpl.cs:249-266 | taking the first unused entry keeps the invariant |
| Directory.AllocateIdKeepsInv | csharp/src/impl/StorageImpl.cs:234-268 | `allocateId` keeps the invariant, marks the transaction modified and returns an entry in `1 .. currIndexSize-1` |
| Directory.AllocateIdAfterFreeId | csharp/src/impl/StorageImpl.cs:234-277 | right after `freeId(oid)`, `allocateId` returns `oid` and restores the old head of the list (last in, first out) |
| Directory.AllocateIdTakesNext | csharp/src/impl/StorageImpl.cs:249-266 | with an empty free list `allocateId` returns the old `currIndexSize`, increments it and `indexUsed`, and doubles the index only when it was full |
| Directory.AllocatePageReadsBack | csharp/src/impl/StorageImpl.cs:162-167 | `allocatePage` keeps the invariant and the new entry reads back through `getPage` as the granted position, marked modified |
| Directory.PageSlotReadsBack | csharp/src/impl/StorageImpl.cs:165 | a slot set to `pos \| dbPageObjectFlag \| dbModifiedFlag` reads back as a page at `pos` |
| Directory.CopyPageKeepsInv | csharp/src/impl/StorageImpl.cs:149-155 | the copy on write moves the page to the granted position, marks it modified and keeps it a live page and the invariant |
| Directory.PutPageKeepsInv | csharp/src/impl/StorageImpl.cs:140-159 | `putPage` succeeds only on a live page in use, leaves it modified at the position returned and keeps the invariant |
| Directory.PutPageTwice | csharp/src/impl/StorageImpl.cs:149 | a page is copied once per transaction: a second `putPage` moves nothing and asks nothing of the allocator |
| Directory.PutPageCopies | csharp/src/impl/StorageImpl.cs:149-155 | on an unmodified page `putPage` calls `allocate(pageSize, oid)` and then `cloneBitmap` of the old copy, and returns the new position |
| Directory.FreePage | csharp/src/impl/StorageImpl.cs:205-218 | `freePage` keeps the invariant |
| Directory.DeallocateObject | csharp/src/impl/StorageImpl.cs:169-203 | `deallocateObject` keeps the invariant |
| Directory.FreePageReleasesModified | csharp/src/impl/StorageImpl.cs:205-218 | `freePage` succeeds exactly on a live page, calls `free` exactly when it was modified and `cloneBitmap` otherwise, and leaves the entry unreadable |
| Directory.DeallocateReleasesModified | csharp/src/impl/StorageImpl.cs:169-203 | `deallocateObject` succeeds exactly on an ordinary record, frees it when modified and shadows its bitmap otherwise, and leaves the entry unreadable |
| Transactions.Commit | csharp/src/impl/StorageImpl.cs:1061-1242 | `commit`: STORAGE_NOT_OPENED when closed, nothing when unmodified, else the four stages; its contract is `Transactions.CommitUnmodified`, `Transactions.CommitStages`, `Transactions.CommitKeepsInv`, `Transactions.CommitPublishesIndex` and `Transactions.CommitPublishesRoot` |
| Transactions.CommitGrow | csharp/src/impl/StorageImpl.cs:1082-1089 | the first stage of `commit`; its contract is `Transactions.CommitGrowKeepsCore` and `Transactions.CommitGrowKeepsCommitted` |
| Transactions.Releases | csharp/src/impl/StorageImpl.cs:1090-1153 | the frees the release loops ask for; its contract is `Transactions.ReleasesOnDirtyPagesSuffice` and `Transactions.ReleasedOnlyReplaced` |
| Transactions.CommitClean | csharp/src/impl/StorageImpl.cs:1154-1181 | the third stage of `commit`; its contract is `Transactions.CommitCleanKeepsCore` |
| Transactions.CommitSwitch | csharp/src/impl/StorageImpl.cs:1182-1240 | the switch of the root records; its contract is `Transactions.CommitSwitchKeepsInv` and `Transactions.SwitchedRoots` |
| Transactions.SwitchedIndex | csharp/src/impl/StorageImpl.cs:1199-1236 | the new working index the switch copies; its contract is `Transactions.SwitchedIndexAgrees` and `Transactions.SwitchedDirtyEmpty` |
| Transactions.Rollback | csharp/src/impl/StorageImpl.cs:1244-1295 | `rollback`; its contract is `Transactions.RollbackUnmodified` and `Transactions.RollbackRestores` |
| Transactions.RolledBackIndex | csharp/src/impl/StorageImpl.cs:1260-1274 | the working index `rollback` copies back; its contract is `Transactions.RolledBackIndexRestores` |
| Transactions.Open | csharp/src/impl/StorageImpl.cs:817-983 | `open`; its contract is `Transactions.OpenOutcome` |
| Transactions.OpenFresh | csharp/src/impl/StorageImpl.cs:878-948 | the layout of a new file; its contract is `Transactions.OpenFreshRoots`, `Transactions.OpenFreshInv` and `Transactions.FreshBitmapCovers` |
| Transactions.Reopen | csharp/src/impl/StorageImpl.cs:949-982 | loading an existing file, with recovery when it is dirty; its contract is `Transactions.OpenRecovers` |
| Transactions.RecoveredIndex | csharp/src/impl/StorageImpl.cs:958-981 | the index recovery copies back; its contract is `Transactions.OpenRecovers` |
| Transactions.ClearWords | csharp/src/impl/StorageImpl.cs:1229-1234 | zeroing the map words `lo .. w-1` removes exactly the index pages `32*lo .. 32*w-1` from the dirty set |
| Transactions.ClearWordsEmpties | csharp/src/impl/StorageImpl.cs:1210-1214 | zeroing the words that cover the entries in use leaves no dirty page |
| Transactions.CommitGrowKeepsCore | csharp/src/impl/StorageImpl.cs:1082-1089 | the first stage of `commit` (a shadow for a grown index, the old committed index shadowed and freed) keeps the invariant |
| Transactions.CommitGrowKeepsCommitted | csharp/src/impl/StorageImpl.cs:1082-1089 | the first stage changes nothing when the index did not grow, fails exactly when `allocate` refuses the new shadow, and otherwise gives the working record a shadow of the working index's size |
| Transactions.ReleaseAt | csharp/src/impl/StorageImpl.cs:1098-1114 | an entry is released exactly when its committed slot differs from the working one and is not a free handle |
| Transactions.ReleasesOnDirtyPagesSuffice | csharp/src/impl/StorageImpl.cs:1090-1153 | visiting only the dirty index pages releases the same as visiting every committed entry |
| Transactions.ReleasedOnlyReplaced | csharp/src/impl/StorageImpl.cs:1090-1153 | every release is of a committed entry that the transaction replaced |
| Transactions.PageRange | csharp/src/impl/StorageImpl.cs:1168-1179 | the pages from `lo` up to `hi` exclusive |
| Transactions.Cleared | csharp/src/impl/StorageImpl.cs:1154-1180 | clearing the modified flag on a set of index pages changes exactly the slots on those pages, and only their modified flag |
| Transactions.ClearedIdempotent | csharp/src/impl/StorageImpl.cs:1159-1162 | clearing the flags twice is clearing them once |
| Transactions.CommitCleanKeepsCore | csharp/src/impl/StorageImpl.cs:1154-1181 | the third stage keeps the invariant, records the used size in the working record and leaves no entry in use marked modified |
| Transactions.Fit | csharp/src/impl/StorageImpl.cs:1209 | the first slots of a copied index, padded to the index size |
| Transactions.CommitSwitchKeepsInv | csharp/src/impl/StorageImpl.cs:1182-1240 | after the switch no index page is dirty, the invariant holds with its shadows and the new working index holds the entries the transaction wrote |
| Transactions.SwitchedIndexAgrees | csharp/src/impl/StorageImpl.cs:1199-1236 | both branches of the index copy (the shadow after a resize, the dirty pages and tail otherwise) give a working index that agrees on every entry in use |
| Transactions.SwitchedDirtyEmpty | csharp/src/impl/StorageImpl.cs:1210-1234 | the map words zeroed by the switch cover every dirty page |
| Transactions.Released | csharp/src/impl/StorageImpl.cs:1090-1153 | the second stage only asks the allocator to free; nothing else changes |
| Transactions.CommitUnmodified | csharp/src/impl/StorageImpl.cs:1065-1074 | `commit` fails with STORAGE_NOT_OPENED on a closed storage and does nothing when nothing was modified |
| Transactions.CommitStages | csharp/src/impl/StorageImpl.cs:1061-1242 | a commit succeeds exactly when the index did not grow or its shadow was granted, and then ends in the state of the four stages in order |
| Transactions.LaterStagesKeepInv | csharp/src/impl/StorageImpl.cs:1090-1240 | the last three stages restore the invariant with shadows; the new committed index is the working one with its flags cleared |
| Transactions.CommitKeepsInv | csharp/src/impl/StorageImpl.cs:1061-1242 | every commit keeps the invariant; a successful one restores the shadows and leaves no dirty page |
| Transactions.CommitPublishesIndex | csharp/src/impl/StorageImpl.cs:1154-1240 | after a successful commit the committed index is the working one with its modified flags cleared, the new working index agrees with it on every entry in use, and `committedIndexSize == currIndexSize` |
| Transactions.CommitPublishesRoot | csharp/src/impl/StorageImpl.cs:1181-1240 | after a successful commit `curr` flips, the header is dirty, `modified` and `gcDone` are false, the committed record is the transaction's with the used size, the new working record copies its size, free list, bitmap end, root object and class list, and the replaced space was freed |
| Transactions.SwitchedRoots | csharp/src/impl/StorageImpl.cs:1186-1197 | what the switch does to the header fields |
| Transactions.Take | csharp/src/impl/StorageImpl.cs:1262 | the first n slots of an index |
| Transactions.RollbackUnmodified | csharp/src/impl/StorageImpl.cs:1248-1257 | `rollback` fails with STORAGE_NOT_OPENED on a closed storage and does nothing when nothing was modified |
| Transactions.RolledBackIndexRestores | csharp/src/impl/StorageImpl.cs:1260-1274 | both copy branches restore every committed entry in the committed record's shadow |
| Transactions.RollbackRestores | csharp/src/impl/StorageImpl.cs:1244-1295 | after a rollback `getPos` reads exactly the committed entries, only they are in use, no page is dirty, the working record carries the committed state, the used size is the committed size and the invariant holds |
| Transactions.FreshIndexSize | csharp/src/impl/StorageImpl.cs:827-832 | the initial index size is raised to the first user entry and rounded up to whole index pages |
| Transactions.FreshIndex | csharp/src/impl/StorageImpl.cs:915-929 | the index written into a new file has the index size |
| Transactions.OpenOutcome | csharp/src/impl/StorageImpl.cs:817-983 | `open` fails with STORAGE_ALREADY_OPENED exactly on an open storage (changing nothing), succeeds exactly when the header was read whole, names root 0 or 1 and, once initialised, has a committed index as large as its shadow, and then leaves the storage open with no transaction in progress |
| Transactions.FreshBitmapCovers | csharp/src/impl/StorageImpl.cs:898-900 | the bitmap pages of a new file are at least one and map the header page, both indexes and themselves |
| Transactions.OpenFreshRoots | csharp/src/impl/StorageImpl.cs:878-948 | a new database has two root records, each index the other's shadow, the bitmap end after the bitmap pages and the used size covered by the bitmap |
| Transactions.FreshSlots | csharp/src/impl/StorageImpl.cs:915-929 | no reserved slot of a new index is marked modified, and the slots of the bitmap pages name live pages at consecutive page positions from `used` on |
| Transactions.OpenFreshInv | csharp/src/impl/StorageImpl.cs:878-948 | a new database satisfies the invariant, its bitmap pages read back as pages at their positions and the other reserved entries are free |
| Transactions.OpenRecovers | csharp/src/impl/StorageImpl.cs:958-981 | recovery after an interrupted transaction makes the working record the committed one with index and shadow exchanged and copies the committed entries of the whole pages in use |
| Records.Count | csharp/src/impl/StorageImpl.cs:2585-2589 | a stored length stands for that many elements when positive and for none otherwise |
| Records.SkipField | csharp/src/impl/StorageImpl.cs:2557-2687 | `skipField`, with the cases the source evidently intends, returns the end of the field as its layout defines it |
| Records.SkipLeaf | csharp/src/impl/StorageImpl.cs:2562-2590 | the fixed-width and string cases end where the layout says |
| Records.SkipPrefixed | csharp/src/impl/StorageImpl.cs:2596-2667 | the length-prefixed cases end where the layout says |
| Records.SkipElements | csharp/src/impl/StorageImpl.cs:2599-2604 | `if (len > 0) offs += len * w` skips `Count(len)` elements of w bytes |
| Records.FieldsEnd | csharp/src/impl/StorageImpl.cs:2537-2555 | the reference layout of a struct, never ending before it starts; `Records.SkipFields` is proved equal to it and `Records.FieldsWalkEnd` ties it to `markObject` |
| Records.FieldsWalk | csharp/src/impl/StorageImpl.cs:1928-2091 | the reference walk of a struct: its end and the ids met in order; its contract is `Records.MarkObject` and `Records.FieldsWalkEnd` |
| Records.SkipFields | csharp/src/impl/StorageImpl.cs:2537-2555 | `unpackObject(null, desc, …)` skips the fields of `desc` in turn and ends where their layout ends |
| Records.SkipStringArray | csharp/src/impl/StorageImpl.cs:2639-2654 | the string-array loop, as intended, ends after the last string's characters |
| Records.SkipValueArray | csharp/src/impl/StorageImpl.cs:2655-2666 | the value-array loop skips `len` embedded structs |
| Records.SkipFieldAsWritten | csharp/src/impl/StorageImpl.cs:2557-2687 | `skipField` as written, in 32-bit `int` arithmetic: from any C# int offset over a .NET-sized body its result is again a C# int, negative when a stray length wrapped it |
| Records.StringsAsWritten | csharp/src/impl/StorageImpl.cs:2643-2652 | the string-array loop as written, with `len += strlen*2` wrapping at 32 bits: it ends at a C# int offset, or fails on a read outside the body |
| Records.Then | csharp/src/impl/StorageImpl.cs:1928-2091 | a walk that first met `pre` ends where its continuation ends and reports `pre` before the continuation's references |
| Records.ThenThen | csharp/src/impl/StorageImpl.cs:1928-2091 | prefixing references twice is prefixing their concatenation |
| Records.RefsWalk | csharp/src/impl/StorageImpl.cs:2048-2059 | n stored ids end 4n bytes further and yield exactly n references |
| Records.MarkObject | csharp/src/impl/StorageImpl.cs:1928-2091 | `markObject` returns the end of the fields and the ids passed to `markOid`, in order, as the reference walk defines them |
| Records.MarkRefArray | csharp/src/impl/StorageImpl.cs:2048-2059 | the reference-array loop passes every stored id to `markOid` |
| Records.MarkValueArray | csharp/src/impl/StorageImpl.cs:2060-2071 | the value-array loop walks `len` embedded structs |
| Records.LeafWalkEnd | csharp/src/impl/StorageImpl.cs:1937-2047 | `markObject` and `skipField` agree on the end of every field without a nested struct |
| Records.FieldWalkEnd | csharp/src/impl/StorageImpl.cs:1928-2091 | `markObject` and the intended `skipField` agree on where every field ends |
| Records.FieldsWalkEnd | csharp/src/impl/StorageImpl.cs:1928-2091 | they agree on where a struct ends |
| Records.ValuesWalkEnd | csharp/src/impl/StorageImpl.cs:2060-2071 | they agree on where n embedded structs end |
| Records.PrefixedRefsEnd | csharp/src/impl/StorageImpl.cs:2048-2059 | an array of references ends at the same place whether skipped or scanned |
| Records.SkipStringArrayAsWrittenFails | csharp/src/impl/StorageImpl.cs:2639-2654 | on a 10-byte record holding one one-character string, `skipField` as written reads past the end, while the layout ends at 10 |
| Records.SkipStringArrayAsWrittenWraps | csharp/src/impl/StorageImpl.cs:2643-2652 | on the 12-byte array holding one string of U+4000 U+0000, `strlen*2` wraps to -2^31, the loop bound goes negative and `skipField` as written ends at 12 |
| Records.LeafEndAsWritten | csharp/src/impl/StorageImpl.cs:2561-2636 | the fixed-width and length-prefixed cases of `skipField` as written end at a C# int offset, with `offs += len*w` wrapping |
| Records.SkipValuesAsWritten | csharp/src/impl/StorageImpl.cs:2655-2666 | the `tpArrayOfValue` loop over `unpackObject` as written ends at a C# int offset |
| Records.SkipEnumAsWrittenStalls | csharp/src/impl/StorageImpl.cs:2557-2687 | a struct of an enum and an int is skipped as written as 4 bytes long, while its layout is 8 bytes |
| Records.MarkDecimalArrayAsWrittenMisses | csharp/src/impl/StorageImpl.cs:1928-2091 | for an array of one decimal followed by a reference to object 5, `markObject` as written marks object 1 and never object 5; the intended walk marks object 5 |
| Records.DecimalsThenRefAsWritten | csharp/src/impl/StorageImpl.cs:1928-2091 | as written, the array of decimals is passed over without moving, so the reference is read from the array's length |
| Records.DecimalsThenRefIntended | csharp/src/impl/StorageImpl.cs:2023-2032 | as intended, the reference after 4 + 16 bytes of array is read and marked |
| Records.TwoFieldsWalk | csharp/src/impl/StorageImpl.cs:1928-2091 | scanning two fields is scanning the first and then the second from where the first ended, their references in that order |
| Records.TwoFieldsAsWritten | csharp/src/impl/StorageImpl.cs:1928-2091 | the same holds for `markObject` as written |
| Codec.PackElem | csharp/src/impl/StorageImpl.cs:3361-3364 | one element takes exactly its width |
| Codec.PackElems | csharp/src/impl/StorageImpl.cs:3329-3804 | the elements of an array take `len * w` bytes |
| Codec.ReadElems | csharp/src/impl/StorageImpl.cs:2811-3010 | reading n elements gives n values |
| Codec.SpanIsProduct | csharp/src/impl/StorageImpl.cs:3340 | the bytes of n elements of width w are `n * w`, the extent the source computes |
| Codec.SpanMono | csharp/src/impl/StorageImpl.cs:3329-3804 | fewer elements take no more bytes |
| Codec.ConcatAt | csharp/src/impl/StorageImpl.cs:3361-3364 | element k's bytes sit at offset `k * w` of the packed elements |
| Codec.InRangeStorable | csharp/src/impl/StorageImpl.cs:3268-3288 | every value of a field's C# type can be stored in the field's width |
| Codec.Grown | csharp/src/impl/StorageImpl.cs:3310-3332 | `buf.extend(size)` keeps the bytes there and makes room for at least `size` |
| Codec.ByteBuffer.constructor | csharp/src/impl/StorageImpl.cs:3237 | a new buffer is empty |
| Codec.ByteBuffer.Extend | csharp/src/impl/StorageImpl.cs:3310-3332 | `extend` grows the buffer as `Grown` says |
| Codec.ByteBuffer.Put | csharp/src/impl/StorageImpl.cs:3311-3341 | a write stores the value's bytes at the offset and changes nothing else |
| Codec.PackField | csharp/src/impl/StorageImpl.cs:3264-3804 | `packField` (with the `tpArrayOfSByte` offset as intended) writes the encoding of the value at `offs` over the grown buffer and returns the offset right after it |
| Codec.PackScalar | csharp/src/impl/StorageImpl.cs:3268-3288 | a scalar is written in its width and the offset advances by that width |
| Codec.PackNull | csharp/src/impl/StorageImpl.cs:3330-3335 | a null array is written as the length -1 in four bytes |
| Codec.PackArray | csharp/src/impl/StorageImpl.cs:3336-3345 | an array is written as its length followed by its elements, and the offset advances past both |
| Codec.PackElemsAt | csharp/src/impl/StorageImpl.cs:3361-3364 | the element loop writes the packed elements at the offset and nothing else |
| Codec.UnpackField | csharp/src/impl/StorageImpl.cs:2690-3231 | `unpackField` returns the value the layout defines at `offs` and the offset after it, or fails where a read falls outside the body |
| Codec.UnpackScalar | csharp/src/impl/StorageImpl.cs:2696-2760 | a scalar is read in its width |
| Codec.UnpackArrayField | csharp/src/impl/StorageImpl.cs:2811-3010 | an array is read as its length and then its elements |
| Codec.UnpackArray | csharp/src/impl/StorageImpl.cs:2811-2862 | a negative length reads as null; otherwise each element is read in turn |
| Codec.ReadPackElems | csharp/src/impl/StorageImpl.cs:2811-3010 | the elements written by `packField` read back as the same elements |
| Codec.Encode | csharp/src/impl/StorageImpl.cs:3264-3804 | the bytes `packField` writes for a value; its contract is `Codec.EncodedLength`, `Codec.PackField` and `Codec.UnpackPackField` |
| Codec.Decode | csharp/src/impl/StorageImpl.cs:2690-3231 | the value `unpackField` reads and where it stops; its contract is `Codec.UnpackField`, `Codec.UnpackPackField` and `Codec.SkipMatchesUnpack` |
| Codec.UnpackPackField | csharp/src/impl/StorageImpl.cs:2690-3231 | `unpackField` over the bytes `packField` wrote gives back the value and stops right after them |
| Codec.UnpackPackScalar | csharp/src/impl/StorageImpl.cs:2696-2760 | the round trip for scalars |
| Codec.UnpackPackNull | csharp/src/impl/StorageImpl.cs:2811-2826 | a stored length -1 reads back as a null array |
| Codec.UnpackPackArray | csharp/src/impl/StorageImpl.cs:2811-3010 | the round trip for arrays |
| Codec.SkipMatchesUnpack | csharp/src/impl/StorageImpl.cs:2557-2687 | where `unpackField` stops on a field, `skipField` stops too |
| Codec.SkipPackedField | csharp/src/impl/StorageImpl.cs:2557-2687 | `skipField` over the bytes `packField` wrote stops right after them |
| Codec.PackSByteArrayAsWritten | csharp/src/impl/StorageImpl.cs:3347-3367 | `packField` for an sbyte array as written writes the same bytes as intended but returns `offs + 4 + 2 * len` |
| Codec.SByteArrayOffsetMismatch | csharp/src/impl/StorageImpl.cs:3361-3365 | for every non-empty sbyte array the offset returned as written lies `len` bytes past where `unpackField` and `skipField` resume |
| Codec.EncodedLength | csharp/src/impl/StorageImpl.cs:3336-3345 | an array's encoding takes 4 + `len * w` bytes |
| Collector.MarkedOid | csharp/src/impl/StorageImpl.cs:1642-1653 | `markOid` sets the grey bit of a non-null oid exactly when its black bit is clear, and changes no other bit |
| Collector.MarkedOidGreysOnlyNonBlack | csharp/src/impl/StorageImpl.cs:1644-1651 | a bit newly grey is the oid's own and was not black; after the call a non-null oid's bit is grey or black |
| Collector.RootReachable | csharp/src/impl/StorageImpl.cs:1684-1687 | the root object's bit is reachable |
| Collector.MarkedIsReachable | csharp/src/impl/StorageImpl.cs:1688-1726 | once no bit is grey, the black bits are exactly those of the objects reachable from the root |
| Collector.PathIsBlack | csharp/src/impl/StorageImpl.cs:1688-1726 | every path from the root ends on a black bit once marking is over |
| Collector.CountTrueSet | csharp/src/impl/StorageImpl.cs:1702 | blackening a clear bit adds one to the number of black bits, the measure the marking loop decreases against |
| Collector.MarkOid | csharp/src/impl/StorageImpl.cs:1642-1653 | the method updates the grey bitmap exactly as `MarkedOid` says |
| Collector.Process | csharp/src/impl/StorageImpl.cs:1698-1722 | processing a grey bit turns it black and greys its references, keeping the marking invariant |
| Collector.WordIsGrey | csharp/src/impl/StorageImpl.cs:1693 | `greyBitmap[i] != 0` exactly when one of the 32 bits of word i is grey |
| Collector.Graph.Reachable | csharp/src/impl/StorageImpl.cs:1676-1727 | the objects reachable from the committed root, the independent definition the mark phase is proved against; its contract is `Collector.Mark`, `Collector.MarkedIsReachable`, `Collector.RootReachable` and `Collector.PathIsBlack` |
| Collector.GcSpec | csharp/src/impl/StorageImpl.cs:1665-1776 | `Gc`: mark what the root reaches, then sweep; its contract is `Collector.GcOutcome`, `Collector.SweepFrees` and `Collector.ReachableSurvives` |
| Collector.Mark | csharp/src/impl/StorageImpl.cs:1676-1727 | after the mark phase a bit is black exactly when its object is reachable from the committed root |
| Collector.MarkPass | csharp/src/impl/StorageImpl.cs:1689-1726 | one pass keeps the marking invariant and either blackens at least one more bit or finds no grey bit and changes nothing |
| Collector.MarkWord | csharp/src/impl/StorageImpl.cs:1696-1723 | the grey bits of a word are processed in order, blackening at least one |
| Collector.FreeRecord | csharp/src/impl/StorageImpl.cs:1760-1764 | freeing an unreachable record leaves the committed index, sizes, flags and counters alone |
| Collector.FreeRecordSlots | csharp/src/impl/StorageImpl.cs:1762-1764 | the record's entry becomes free, `cloneBitmap(pos, size)` is asked of the allocator, and no other entry changes |
| Collector.FreeRecordKeepsInv | csharp/src/impl/StorageImpl.cs:1762 | freeing a record keeps the directory invariant |
| Collector.SweepAtEffect | csharp/src/impl/StorageImpl.cs:1733-1767 | a step fails with INVALID_OID exactly when the entry is condemned and was changed in the working index; on success it asks the allocator for its step log |
| Collector.SweepAtSlots | csharp/src/impl/StorageImpl.cs:1733-1767 | a step frees the entry's slot exactly when the entry is a condemned typed record that is not a B-tree |
| Collector.SweepAtKeepsInv | csharp/src/impl/StorageImpl.cs:1733-1767 | a step of the sweep keeps the invariant |
| Collector.Sweep | csharp/src/impl/StorageImpl.cs:1731-1769 | the sweep leaves the committed index, sizes, flags and counters alone |
| Collector.SweepStopsAtFailure | csharp/src/impl/StorageImpl.cs:1742 | once a step throws, no entry after it is visited |
| Collector.SweepFailsOnChanged | csharp/src/impl/StorageImpl.cs:1731-1769 | the sweep succeeds exactly when every condemned entry is unchanged in the working index |
| Collector.SweepLogged | csharp/src/impl/StorageImpl.cs:1731-1769 | a successful sweep asks the allocator for exactly the deallocations and bitmap shadows of the condemned entries, in order |
| Collector.SweepFrees | csharp/src/impl/StorageImpl.cs:1731-1769 | a successful sweep frees exactly the condemned typed records that are not B-trees and leaves every other entry |
| Collector.SweepKeepsInv | csharp/src/impl/StorageImpl.cs:1731-1769 | the sweep keeps the invariant |
| Collector.ReachableSurvives | csharp/src/impl/StorageImpl.cs:1734-1738 | with the black bits of the mark phase, no object reachable from the root is condemned |
| Collector.GcOutcome | csharp/src/impl/StorageImpl.cs:1665-1776 | `Gc` does nothing when a collection already ran; otherwise it sets `gcDone`, on success resets `allocatedDelta`, and keeps the invariant and the committed index |
| Engine.Storage.constructor | csharp/src/impl/StorageImpl.cs:3875-3882 | a new storage is closed, with an empty header and no calls into the allocator |
| Engine.Storage.SetDirty | csharp/src/impl/StorageImpl.cs:221-232 | the fields change as `Directory.SetDirty` says |
| Engine.Storage.SetPos | csharp/src/impl/StorageImpl.cs:109-118 | the fields change as `Directory.SetPos` says |
| Engine.Storage.FreeId | csharp/src/impl/StorageImpl.cs:270-277 | the fields change as `Directory.FreeId` says |
| Engine.Storage.AllocateId | csharp/src/impl/StorageImpl.cs:234-268 | the fields and the result are those of `Directory.AllocateId` |
| Engine.Storage.TakeFree | csharp/src/impl/StorageImpl.cs:241-247 | the free-list branch of `allocateId` |
| Engine.Storage.TakeNext | csharp/src/impl/StorageImpl.cs:249-266 | the next-entry branch of `allocateId` |
| Engine.Storage.Grow | csharp/src/impl/StorageImpl.cs:249-262 | the index doubling of `allocateId` |
| Engine.Storage.MoveIndex | csharp/src/impl/StorageImpl.cs:258-261 | the entries move to the new index of twice the size and the old one is freed |
| Engine.Storage.AllocateSpace | csharp/src/impl/StorageImpl.cs:339-695 | the directory side of `allocate` as `Directory.AllocateSpace` says |
| Engine.Storage.AddBitmapPages | csharp/src/impl/StorageImpl.cs:624-630 | the loop gives the new bitmap pages their slots as `Directory.AddBitmapPages` says |
| Engine.Storage.Open | csharp/src/impl/StorageImpl.cs:817-983 | the fields and the result are those of `Transactions.Open` |
| Engine.Storage.Format | csharp/src/impl/StorageImpl.cs:878-948 | a new database is laid out as `Transactions.OpenFresh` says |
| Engine.Storage.Load | csharp/src/impl/StorageImpl.cs:949-982 | an existing database is loaded, and recovered when dirty, as `Transactions.Reopen` says |
| Engine.Storage.Commit | csharp/src/impl/StorageImpl.cs:1061-1242 | the fields and the result are those of `Transactions.Commit` |
| Engine.Storage.CommitGrow | csharp/src/impl/StorageImpl.cs:1082-1089 | the first stage of `commit` |
| Engine.Storage.ReleaseReplaced | csharp/src/impl/StorageImpl.cs:1090-1153 | the release loops ask the allocator for exactly `Transactions.Releases` |
| Engine.Storage.ClearModifiedFlags | csharp/src/impl/StorageImpl.cs:1154-1181 | the flag-clearing loops leave the state `Transactions.CommitClean` gives |
| Engine.Storage.Switch | csharp/src/impl/StorageImpl.cs:1182-1240 | the switch leaves the state `Transactions.CommitSwitch` gives |
| Engine.Storage.Rollback | csharp/src/impl/StorageImpl.cs:1244-1289 | the fields and the result are those of `Transactions.Rollback` |
| Engine.Storage.Gc | csharp/src/impl/StorageImpl.cs:1665-1776 | the fields and the result are those of `Collector.GcSpec` |
| Engine.Storage.Sweep | csharp/src/impl/StorageImpl.cs:1729-1769 | the sweep loop leaves the state and result of `Collector.Sweep` |
| Engine.Storage.SweepNext | csharp/src/impl/StorageImpl.cs:1731-1768 | one more entry of the sweep, or its first error, which is the outcome of the whole sweep |
| Engine.Storage.SweepStep | csharp/src/impl/StorageImpl.cs:1733-1767 | one entry of the sweep as `Collector.SweepAt` says |
| Engine.ClearedUpTo | csharp/src/impl/StorageImpl.cs:1154-1180 | clearing the flags of the slots below k on the given pages changes exactly those slots, and only their modified flag |
| Bytes.Pack | csharp/src/impl/StorageImpl.cs:3892-3915 | `Bytes.pack<w>` of a value of the w-byte signed or unsigned type produces exactly w bytes |
| Bytes.Unpack | csharp/src/impl/StorageImpl.cs:3925-3948 | `Bytes.unpack<w>` yields a value of the w-byte signed type |
| Directory.TakeFree | csharp/src/impl/StorageImpl.cs:241-247 | taking the head of the free list never touches the committed record, the committed index or the counts |
| Directory.TakeNext | csharp/src/impl/StorageImpl.cs:249-266 | taking the next unused entry never touches the committed record or the committed index |
| Directory.AllocateId | csharp/src/impl/StorageImpl.cs:234-268 | `allocateId` never touches the committed record or the committed index |
| Records.FieldEnd | csharp/src/impl/StorageImpl.cs:2557-2687 | the layout of a field as `packField` writes it: a field never ends before it starts |
| Records.SkipFieldsAsWritten | csharp/src/impl/StorageImpl.cs:2537-2555 | `unpackObject(null, …)` over `skipField` as written ends at a C# int offset |
| Collector.SweepAt | csharp/src/impl/StorageImpl.cs:1733-1767 | one entry of the sweep leaves the committed index, sizes, flags and counters alone |

## Left out

- The page pool's reads, writes, flushes and their order are left out, together with `Console.WriteLine` and `Close`. A read becomes a parameter, and the bytes of pages the model does not hold are taken as given.
- `lock` and the thread-transaction machinery are left out. They only serialise callers.
- The `gcThreshold`-triggered collections inside `allocate` (lines 347-350 and 679-687) are left out. `Open` sets `gcThreshold` to `Int64.MaxValue` (line 843), and `SetGcThreshold` and the property parser are not part of this model.
- The copy on write of bitmap pages is not modelled. In the source, `allocate` and `free` reach it through `putPage(pageId)`, and `cloneBitmap` (lines 762-815) shadows bitmap pages. Here the bitmap is one flat array, and `cloneBitmap` appears only as a `CloneCall` entry in the log.
- Allocator.Allocator.Allocate does not mark the new bitmap page slots or move the object's slot. Those steps happen inside `allocate` in the source; here they are `Directory.AllocateSpace` and `Engine.Storage.AllocateSpace`, so the two halves are proved separately.
- Directory.AllocateSpace: the counters `allocatedDelta` and `usedSize` are updated by `Allocator.Allocator.Allocate`, not in the `Db` value. The directory model keeps them only where `open`, `commit`, `rollback` and `Gc` set them.
- Collector.GcSpec: the object headers and the references `markObject` finds are an `ObjectInfo` function (`heap`) that the mark phase takes as given. `Records.MarkObject` is proved separately.
- Collector.GcSpec: a B-tree found during marking (`markTree`) or during the sweep (`Deallocate`) is given its references by `heap` and is logged as one `DropTree`. `Btree` is not part of this model.
- Collector.Graph.Valid: the collector assumes that every committed slot and every reference names an entry of the committed index and a quantum inside the bitmap. The source does not check this.
- Transactions.OpenOutcome: opening an existing file does not establish the directory invariant. That would depend on the file's contents, which the model takes as given.
- Transactions.SwitchedIndex, Transactions.RolledBackIndex, Transactions.FreshIndex and Transactions.RecoveredIndex take the page copies of `commit`, `rollback` and `open` as whole index values. The per-page loops are flattened into loops over entries (`Engine.Storage.ReleaseReplaced`, `Engine.Storage.ClearModifiedFlags`).
- Transactions.Fit: slots of a copied index that no copy reaches are taken as zero, not as what the file holds there.
- Index positions are taken as page aligned. `allocate` aligns every request of a page or more, and the indexes are such requests.
- `reloadScheme`, class descriptors, reflection, `float`, `double`, `decimal`, `Guid`, `DateTime` and `BinaryFormatter` fields of the codec are left out. Only the integer and array encodings are modelled.
- The object cache is left out. `commit` flushes it (line 1069) before it tests `modified` (line 1071), and `rollback` invalidates it (line 1252).
- Transactions.CommitUnmodified: "does nothing when nothing was modified" holds when no cached object is dirty. In the source, the flush at line 1069 can store objects first.
- Transactions.RollbackUnmodified: the model has no object cache, so the `objectCache.invalidate()` of line 1252 has no counterpart.
- Allocator.Allocator.Allocate: `requires size <= Int32Max - 31` leaves out sizes for which `(size + 31) & ~31` (lines 338-343) wraps in 32 bits.
- Directory.GrowKeepsInv: this lemma, together with Directory.TakeNextKeepsInv, Directory.TakeGrownKeepsInv, Directory.AllocateIdKeepsInv and Directory.AllocatePageReadsBack, is proved only while `16 * |index| <= Int32Max`. Past that bound, the 32-bit product `newIndexSize * 8` (line 256) wraps, and the model does not follow it.
- Records.FieldEnd: the intended layout (Records.FieldsEnd, Records.FieldWalk, Records.FieldsWalk) computes `offs + len * w` on unbounded integers, and so do `Records.SkipField`, `Records.MarkObject` and `Codec.PackField`. The 32-bit wrap of `skipField`, `markObject` and `packField` is modelled only in the `skipField` as-written members.
- Records.FieldWalkAsWritten: `markObject` as written (Records.FieldsWalkAsWritten, Records.ValuesWalkAsWritten) adds offsets without the 32-bit wrap. Once it stalls on a decimal or Guid array, it can read stray bytes as lengths, and the wrapped offsets the C# would then use are not followed.
- `Backup`, `GetMemoryDump`, XML import and export, and the `Create*` factories are left out.
- `Bytes.cs` is not part of this model. `Bytes.pack`/`unpack` are modelled as big-endian two's-complement encodings with proved round trips.
- The page size is fixed at 4 KB (`Storage.cs:15`) rather than being a parameter.
- `ByteBuffer.cs` is not part of this model. `Codec.ByteBuffer` models only `extend` and the writes `packField` makes.

## Findings

| source | as written | input that shows it | evidently intended | confidence | as-written member | corrected member |
|---|---|---|---|---|---|---|
| csharp/src/impl/StorageImpl.cs:98 | `if (oid == 0 && oid >= currIndexSize)`, a guard that never fires once an entry is in use | `getPos(0)` and `getPos(currIndexSize)` read slots instead of raising INVALID_OID | `oid == 0 \|\| oid >= currIndexSize` | not executed | Directory.GetPosAsWritten, Directory.GetPosAsWrittenAcceptsAll | Directory.GetPos |
| csharp/src/impl/StorageImpl.cs:2650 | the `tpArrayOfString` loop of `skipField` adds `strlen*2` to `len`, not to `offs` | an array holding one one-character string (10 bytes): the loop reads a further length past the record | `offs += strlen*2` (the same slip at line 2679 for `tpArrayOfRaw`) | not executed | Records.SkipFieldAsWritten, Records.SkipStringArrayAsWrittenFails | Records.SkipStringArray, Records.SkipField |
| csharp/src/impl/StorageImpl.cs:2560-2687 | `skipField` has no case for `tpEnum`, `tpArrayOfEnum`, `tpArrayOfDecimal` or `tpArrayOfGuid` and returns `offs` unchanged | a struct of an enum and an int is skipped as 4 bytes, not 8 | the enum as a 4-byte int and the arrays as length-prefixed elements, as `packField` writes them | not executed | Records.SkipFieldsAsWritten, Records.SkipEnumAsWrittenStalls | Records.SkipFields, Records.SkipField |
| csharp/src/impl/StorageImpl.cs:1935-2088 | `markObject` has no case for `tpArrayOfDecimal` or `tpArrayOfGuid` and does not advance | an array holding one decimal followed by a reference to object 5: object 1 is marked, object 5 never is, and the sweep would free it | skip 4 + 16 bytes per element | not executed | Records.MarkDecimalArrayAsWrittenMisses, Records.DecimalsThenRefAsWritten | Records.MarkObject, Records.DecimalsThenRefIntended |
| csharp/src/impl/StorageImpl.cs:3361-3365 | the `tpArrayOfSByte` loop advances `offs` per element, and `offs += len` then advances it again | any non-empty sbyte array: the next field is written `len` bytes later than `unpackField` and `skipField` read it | drop `offs += len` | not executed | Codec.PackSByteArrayAsWritten, Codec.SByteArrayOffsetMismatch | Codec.PackField |

# pgdb2 page store: a Dafny model

pgdb2 is a single-file, page-oriented key/value store. This project models its
core in Dafny and proves properties of that model:

- the on-disk records (superblock, extent, inode-table header, directory
  header and directory entry) with their little-endian byte codecs and
  validity checks;
- the page file (`File`) over an in-memory device;
- the directory codec and its ordered key match (`Dir`);
- inode reads and writes over extents, and the inode-table codec
  (`Inode`, `InodeTable`);
- the database bootstrap: option checking, `clear`, the superblock, the
  inode table, and the extent-list codec (`DB`);
- the lookup `DB::get`.

Modules and files:

| file | module | models |
|---|---|---|
| base.dfy | Base | integer widths, `le32`/`le64` codecs, flag tests, error kinds |
| structs.dfy | Structs | `include/pgdb2-struct.h` |
| pagefile.dfy | PageFile | `lib/file.cc`: pure transitions, and a `File` class proved equal to them |
| dir.dfy | Directory | `lib/dir.cc` |
| inode.dfy | Inodes | `Inode::read` and `Inode::write` in `lib/inode.cc` |
| inotab.dfy | InodeTables | `InodeTable::decode` and `InodeTable::encode` in `lib/inode.cc` |
| db.dfy | Db | `lib/db.cc` |
| get.dfy | Lookup | `lib/get.cc` |

Each imperative operation of the source is a method over a class. Its
`ensures` ties the result, or the new state, to a specification function of
the inputs. The source's promises are proved as lemmas about those
functions.

Exceptions become a `Status` (`Ok` or `Fail(error)`), one error kind per
distinct message. An operation that throws part-way keeps the state changes
it made before throwing: entries already pushed, the file cursor already
moved.

Assertions in the source become preconditions (`requires`), with these
exceptions:

- the assertion at the top of `writeExtList` (lib/db.cc:175) is not a
  precondition of Db.DB.WriteExtList, so that its "Extent list exceeds max"
  throw stays reachable;
- `assert(f.isOpen())` in `readSuperblock` (lib/db.cc:85) and in
  `writeSuperblock` (lib/db.cc:107) is not a precondition of
  Db.DB.ReadSuperblock or Db.DB.WriteSuperblock: on a closed file their read
  or write fails the seek, as it does once assertions are compiled out;
- `assert(cmpres > 0)` in `get` (lib/get.cc:68) is not a precondition of
  Lookup.Search: it is proved on its own, as Lookup.OtherwiseGreater, for
  entries of a known type whenever DIR entries have key <= key_end.

The file descriptor becomes an in-memory device. The device is a presence
flag, its bytes, and a capacity. The capacity stands in for a disk that
accepts fewer bytes than asked, which produces short writes.

## Model

| member | source | states |
|---|---|---|
| Base.Get32LE32 | include/pgdb2-struct.h:84-93 | decoding a 32-bit field from its 4 little-endian bytes gives back the value encoded |
| Base.LE32Get32 | include/pgdb2-struct.h:84-93 | encoding a decoded 32-bit field gives back the same 4 bytes |
| Base.Get64LE64 | include/pgdb2-struct.h:47-58 | decoding a 64-bit field from its 8 little-endian bytes gives back the value encoded |
| Base.LE64Get64 | include/pgdb2-struct.h:47-58 | encoding a decoded 64-bit field gives back the same 8 bytes |
| Base.PageBytesAdd | lib/inode.cc:33 | byte offsets of page runs add up: pages(a+b) = pages(a) + pages(b) |
| Structs.SuperblockValidIff | include/pgdb2-struct.h:59-70 | a superblock is valid iff version >= 1, 512 <= page_size <= 65536, bit 63 of features set, bit 62 clear, inode_table_ref >= 1 and the magic is "PGDB0000" |
| Structs.TopBits64 | include/pgdb2-struct.h:30-33 | SBF_MBO is set iff features >= 2^63; SBF_MBZ is set iff bit 62 is set |
| Structs.TopBits32 | include/pgdb2-struct.h:73-77 | EF_MBO is set iff flags >= 2^31; EF_MBZ is set iff bit 30 is set |
| Structs.SuperblockRoundTrip | include/pgdb2-struct.h:39-58 | decoding the 512-byte image of a superblock restores every field |
| Structs.SuperblockBytesRoundTrip | include/pgdb2-struct.h:39-58 | re-encoding a decoded 512-byte block restores the bytes |
| Structs.ExtentRoundTrip | include/pgdb2-struct.h:79-93 | decoding the 16-byte image of an extent restores page, length and flags |
| Structs.ExtentBytesRoundTrip | include/pgdb2-struct.h:79-93 | re-encoding a decoded 16-byte record restores the bytes |
| Structs.ExtentValidIff | include/pgdb2-struct.h:94-102 | an extent is valid iff page != 0, len != 0, EF_MBO set and EF_MBZ clear |
| Structs.ExtentValidIgnoresHdr | include/pgdb2-struct.h:94-102 | setting EF_HDR does not change validity |
| Structs.NullIsNotValid | include/pgdb2-struct.h:94-105 | a null extent (page 0, len 0, flags exactly EF_MBO) is never valid |
| Structs.InodeTableHdrRoundTrip | include/pgdb2-struct.h:115-127 | the 16-byte inode-table header decodes back to magic, it_len and it_flags |
| Structs.InodeTableHdrValidIff | include/pgdb2-struct.h:128-143 | valid iff ITF_MBO set, ITF_MBZ clear, and the magic is "PGIT0000" with ITF_HDR and "PGIE0000" without; it_len is not checked |
| Structs.DirectoryHdrRoundTrip | include/pgdb2-struct.h:162-174 | the 16-byte directory header decodes back to magic, d_len and d_flags |
| Structs.DirectoryHdrValidIff | include/pgdb2-struct.h:175-184 | valid iff DF_MBO set, DF_MBZ clear and the magic is "PGDR0000" |
| Structs.DirectoryEntRoundTrip | include/pgdb2-struct.h:187-205 | the 24-byte directory entry record decodes back to all five fields |
| Structs.EntryFlagsOf | include/pgdb2-struct.h:155-160 | flags DF_MBO\|t carry tag t, have MBO set and MBZ clear, and pass the tag check iff t <= the last admitted tag |
| Structs.DirectoryEntValidTags | include/pgdb2-struct.h:146-153 | a valid entry record has tag NONE, DIR or KEY; a KEY_VALUE record is never valid |
| PageFile.OpenStep | lib/file.cc:34-73 | the open transition: a missing file without O_CREAT leaves the descriptor closed and fails; otherwise the descriptor opens at offset 0 on the file's bytes (none when created) with the given flags and page size, and n_pages is recomputed; characterised by OpenOutcome |
| PageFile.SetPageSizeStep | lib/file.cc:57-62 | the page size is replaced and n_pages recomputed as the file's whole pages (0 when closed) |
| PageFile.CloseStep | lib/file.cc:75-82 | an open descriptor is closed, a closed one left alone; the file's bytes stay; characterised by CloseIdempotent |
| PageFile.ReadStep | lib/file.cc:84-101 | the read transition: a closed descriptor fails the seek; fewer than io_size bytes at index*page_size is a short read; otherwise they land at the buffer's front and cur_fpos moves past them; the buffer keeps its length and nothing but the cursor ever changes |
| PageFile.WriteStep | lib/file.cc:103-123 | the write transition: a closed descriptor fails the seek; a read-only descriptor, or no room at all at the offset, fails the write with nothing stored; room for part of the pages stores that part and is a short write; otherwise cur_fpos moves past the pages and n_pages = max(n_pages, index + page_count); only the cursor, n_pages and the bytes ever change |
| PageFile.SyncStep | lib/file.cc:132-137 | sync fails only on a closed descriptor |
| PageFile.OpenOutcome | lib/file.cc:34-55 | open succeeds iff the file exists or O_CREAT is given; on success fd is open, cur_fpos = 0 and n_pages = file bytes / page_size rounded down; the data is unchanged; on failure fd stays closed |
| PageFile.ReadOutcomeIff | lib/file.cc:84-101 | read succeeds iff the file is open and the io_size bytes at index*page_size are there; on success the buffer's front holds them and cur_fpos = index*page_size + io_size; n_pages is neither consulted nor changed |
| PageFile.ReadStepBytes | lib/file.cc:91-98 | read touches only the first io_size bytes of the buffer; on success they are the device bytes at the offset |
| PageFile.ReadStepOk | lib/file.cc:87-100 | a successful read yields exactly io_size fetched bytes followed by the rest of the buffer, and moves the cursor past them |
| PageFile.WritePageCount | lib/file.cc:103-123 | write succeeds iff the file is open read-write and the bytes fit the device; on success n_pages = max(old n_pages, index + page_count); n_pages never shrinks; a closed descriptor fails the seek, a read-only one or a device with no room at the offset fails the write ("Failed write") with the state unchanged, and a partial write is "Short write" with n_pages unchanged |
| PageFile.FirstPageWrite | lib/file.cc:116-122 | writing page 0 of an empty file gives n_pages = 1 |
| PageFile.WriteThenRead | lib/file.cc:84-123 | reading back pages just written succeeds and returns the bytes written |
| PageFile.CloseIdempotent | lib/file.cc:75-82 | close twice is close once; after close fd is closed and the data is kept |
| PageFile.File.constructor | include/pgdb2-file.h:24 | a new File: fd -1, O_RDONLY, page size 4096, cur_fpos -1, over the given device |
| PageFile.File.Open | lib/file.cc:34-43 | the new state and status are those of the open transition (see OpenOutcome) |
| PageFile.File.SetPageCount | lib/file.cc:45-55 | n_pages becomes the file's bytes / page_size (0 when closed); nothing else changes |
| PageFile.File.SetPageSize | lib/file.cc:57-62 | page_size is replaced and n_pages recomputed from the file length |
| PageFile.File.Close | lib/file.cc:75-82 | the state after close is that of the close transition |
| PageFile.File.Read | lib/file.cc:84-101 | the buffer, the new state and the status are those of the read transition (see ReadOutcomeIff) |
| PageFile.File.Write | lib/file.cc:103-123 | the new state and status are those of the write transition: seek failure when closed, "Failed write" when read-only or out of room, "Short write" on a partial write (see WritePageCount) |
| PageFile.File.Sync | lib/file.cc:132-137 | sync changes nothing and fails only when the file is closed |
| Directory.CompareZeroIff | lib/dir.cc:207-211 | std::string::compare returns 0 exactly for equal keys |
| Directory.CompareAntisym | lib/dir.cc:207-214 | compare(b, a) = -compare(a, b) |
| Directory.CompareTrans | lib/dir.cc:207-214 | compare is transitive on "less than" |
| Directory.ParseTrailer | lib/dir.cc:62-112 | the type-dependent trailer: DIR reads key then key_end, KEY only the key, KEY_VALUE key then value, failing with "Invalid dirent ksz", "kesz" or "vsz" when the key, key_end or value bytes run out, any other tag with "Invalid dirent type"; it never consumes more than it is given |
| Directory.ParseEntry | lib/dir.cc:46-114 | one entry: fewer than 24 bytes is "Dir ent truncated", an invalid record or a tag beyond the last admitted is "Dir ent buf corrupted", then its trailer; a parsed entry consumes at least its 24-byte record |
| Directory.ParseDir | lib/dir.cc:16-116 | Dir::decode over the buffer: header length, header validity, d_len*24 bytes present, then d_len entries in turn; characterised by ParseDirOutcome and ParseEntriesCount |
| Directory.ParseDirOutcome | lib/dir.cc:16-44 | decode fails with "Dir hdr short read" under 16 bytes, "Dir hdr corrupted" on an invalid header, "Dir truncated" when fewer than 24*d_len bytes follow, each with no entries; on success exactly d_len entries come back |
| Directory.ParseEntriesCount | lib/dir.cc:44-115 | the entry loop never yields more than d_len entries, and yields exactly d_len when it succeeds |
| Directory.NoneTagRejected | lib/dir.cc:63-66 | a record that passes valid() but has tag NONE (or no known tag) throws "Invalid dirent type" |
| Directory.EncodeDir | lib/dir.cc:118-200 | Dir::encode: the header {"PGDR0000", ents.size(), DF_MBO}, then each entry's record and trailer; characterised by EncodeDirLength and the DecodeEncode lemmas |
| Directory.EncodeEntriesLength | lib/dir.cc:136-199 | the entries' image is the sum over entries of 24 bytes plus the trailer, at least 24 per entry |
| Directory.EncodeDirLength | lib/dir.cc:118-199 | encode's output is 16 + sum(24 + trailer length) bytes |
| Directory.ParseEncodedEntry | lib/dir.cc:50-114 | decoding an encoded entry gives its reloaded image and consumes exactly its bytes, or throws "Dir ent buf corrupted" when its tag is beyond the last admitted one |
| Directory.ParseEncodedEntries | lib/dir.cc:44-115 | decoding encoded entries reloads them in order up to the first refused tag |
| Directory.ExpectedAllAdmitted | lib/dir.cc:44-115 | when every tag is admitted, every entry comes back, in order |
| Directory.ExpectedRefused | lib/dir.cc:55-56 | an entry with a refused tag makes decode fail with "Dir ent buf corrupted", keeping only the entries before it |
| Directory.DecodeEncodeUpTo | lib/dir.cc:16-200 | decode(encode(d)) is the expected decode, for any bound on the admitted tag |
| Directory.DecodeEncodeDirAndKey | lib/dir.cc:16-200 | decode(encode(d)) restores type, ino_idx, key and key_end of DIR and KEY entries when there is no KEY_VALUE entry |
| Directory.DecodeEncodeKeyValueFails | include/pgdb2-struct.h:152 | with DE__LAST = DE_KEY, decode(encode(d)) throws "Dir ent buf corrupted" as soon as d holds a KEY_VALUE entry, keeping only the entries before it |
| Directory.DecodeEncodeAllTags | lib/dir.cc:16-200 | with KEY_VALUE admitted, decode(encode(d)) restores every entry |
| Directory.ReloadedFixesDecoded | lib/dir.cc:81-110 | an entry shaped as decode leaves it (lengths matching the strings, KEY: value_len 0, KEY_VALUE: inode 0) is restored exactly |
| Directory.MatchResultUnique | lib/dir.cc:202-219 | the match promise admits one (found, idx) per key |
| Directory.MatchMissSound | lib/dir.cc:204-209 | in a strictly sorted directory a miss means no entry carries the key |
| Directory.Dir.constructor | lib/dir.cc:19 | a new directory holds no entries |
| Directory.Dir.Clear | lib/dir.cc:19 | clear empties the entries |
| Directory.Dir.Decode | lib/dir.cc:16-116 | the entries and status after decode are those of the parser over the buffer with DE__LAST as written |
| Directory.Dir.Encode | lib/dir.cc:118-200 | encode returns the header {"PGDR0000", ents.size(), DF_MBO}, then per entry its 24-byte record (flags DF_MBO\|type, KEY: val_len 0, KEY_VALUE: ino 0) and its raw trailer |
| Directory.Dir.Match | lib/dir.cc:202-219 | match returns at the first entry with an equal key or a DIR range covering the key (found), or at the first larger key or the end (not found); every earlier entry is smaller and does not cover the key |
| Directory.AppendEntry | lib/dir.cc:140-197 | one entry's record and trailer are appended to the buffer |
| Directory.DecodeEntries | lib/dir.cc:43-115 | the entry loop's result is the parser's for d_len entries |
| Directory.DecodeHeader | lib/dir.cc:21-41 | the header checks fail exactly as the parser does, or hand d_len to the entry loop |
| Directory.DecodeEntryAt | lib/dir.cc:46-114 | one turn of the entry loop: the entry decoded and the cursor after it, or the error |
| Directory.DecodeTrailer | lib/dir.cc:62-112 | the type-dependent trailer read: DIR takes key and key_end, KEY only the key, KEY_VALUE key and value; a short trailer throws |
| Inodes.ExtentBytesArePages | lib/inode.cc:19-22 | the bytes the extents cover are pgsz * size() |
| Inodes.ExtentBytesSplit | lib/inode.cc:27-36 | the extents' bytes split at any index |
| Inodes.FetchExtents | lib/inode.cc:27-36 | the extents read one after the other from the cursor on: a closed descriptor fails the first read, a short read keeps what it got and stops; never more bytes than the extents cover, exactly those on success |
| Inodes.ReadInode | lib/inode.cc:16-37 | Inode::read as a transition: pagebuf grown to pgsz * size(), then the extents fetched to its front; characterised by ReadInodeFrame and ReadInodeLanded |
| Inodes.FetchExtentsOk | lib/inode.cc:27-36 | reading the extents succeeds iff the file is open (or there are none) and every extent lies inside the device |
| Inodes.ReadInodeFrame | lib/inode.cc:16-36 | read grows pagebuf to max(its size, pgsz*size()) and never shrinks it; only the cursor of the file changes; bytes past the extents' pages are the caller's |
| Inodes.ReadInodeLanded | lib/inode.cc:27-36 | on success extent i lands at byte pgsz * (sum of the lengths before i) of the buffer, holding the device bytes of its pages |
| Inodes.FetchExtentsLandedAt | lib/inode.cc:27-36 | the same placement, for the extents read one after the other |
| Inodes.Inode.Read | lib/inode.cc:16-37 | the buffer, file state and status after read are those of the read specification |
| Inodes.ReadExtents | lib/inode.cc:27-36 | the extent loop matches the read specification over an already grown buffer |
| Inodes.ReadNext | lib/inode.cc:29-35 | one turn of the extent loop: one f.read at the extent's pages, landing at the cursor |
| Inodes.Inode.Write | lib/inode.cc:39-66 | write issues the planned writes in order, stopping at the first failure |
| Inodes.Plan | lib/inode.cc:48-62 | the writes write() issues for buf.size()/pgsz pages: each extent from its first page, the last cut to what is left; never more pages than asked; characterised by PlanCovers and PlanShape |
| Inodes.WriteInode | lib/inode.cc:39-66 | Inode::write as a transition: the planned writes issued in order over the buffer, stopping at the first failure; the specification Inodes.Inode.Write meets |
| Inodes.PlanCovers | lib/inode.cc:48-62 | the planned writes cover exactly buf.size()/pgsz pages when that is within size() |
| Inodes.PlanBytes | lib/inode.cc:44-62 | the planned writes never read past the buffer |
| Inodes.PlanShape | lib/inode.cc:51-62 | write i goes to extent i's first page; all writes but the last take the whole extent, the last is cut; extents after it are not written |
| InodeTables.Classify | lib/inode.cc:114-142 | a null extent gives e_ref = e_alloc = 0 and no extents; ITF_EXT_INT gives one inline extent; otherwise e_ref = ext_page, e_alloc = ext_len, extents deferred; unused follows ITF_UNUSED |
| InodeTables.ParseSlot | lib/inode.cc:92-145 | one table entry: its 16-byte header, which must be valid, then its extent, which must be null or valid, each short read or invalid field with its own error; a parsed entry consumes exactly 32 bytes |
| InodeTables.ParseTable | lib/inode.cc:68-147 | InodeTable::decode over the buffer: header length, header validity, the it_len*32 length check, then the entries; characterised by ParseTableOutcome and ParseSlotsCount |
| InodeTables.ParseTableOutcome | lib/inode.cc:68-90 | decode fails on a short header, an invalid header, or a buffer under it_len*32 bytes, each with nothing appended; on success at most it_len inodes come back |
| InodeTables.ParseSlotsCount | lib/inode.cc:90-146 | at most it_len entries are decoded and they fit the buffer; with enough bytes a successful decode yields exactly it_len |
| InodeTables.RoughLengthCheck | lib/inode.cc:86-106 | the length check counts the table header's 16 bytes, so it_len 1 with a 32-byte buffer passes it and fails later with "inode table ent ext short read" |
| InodeTables.SlotHeaderBits | lib/inode.cc:175-179 | the entry header written is valid, has ITF_EXT_INT exactly for inline inodes, and never ITF_UNUSED |
| InodeTables.SlotExtentBack | lib/inode.cc:184-197 | the extent written for a storable inode decodes, with its header, to the inode's reloaded form |
| InodeTables.ParseEncodedSlot | lib/inode.cc:92-145 | one encoded entry decodes back to the reloaded inode and consumes 32 bytes |
| InodeTables.ParseEncodedSlots | lib/inode.cc:90-146 | encoded entries decode back in order |
| InodeTables.EncodeTable | lib/inode.cc:149-203 | InodeTable::encode: the header, then one entry per inode after slot 0; the image is 16 + 32 * (inodes.size() - 1) bytes |
| InodeTables.TableHeaderBack | lib/inode.cc:156-163 | the table header written is valid and has it_len = inodes.size() - 1; slot 0 is skipped |
| InodeTables.DecodeEncodeTable | lib/inode.cc:68-203 | decode(encode(t)) gives back the inodes after slot 0, each with e_ref, e_alloc and inline extent restored, provided inline extents are valid and externals have e_alloc != 0 |
| InodeTables.InodeTable.constructor | lib/inode.cc:68 | a new table holds no inodes |
| InodeTables.InodeTable.Decode | lib/inode.cc:68-147 | decoded inodes are appended after those already held, which stay; a failure keeps those decoded before it |
| InodeTables.InodeTable.Encode | lib/inode.cc:149-203 | the table header, then one 32-byte entry per inode after slot 0 |
| InodeTables.AppendSlot | lib/inode.cc:174-201 | one entry's header and extent are appended |
| InodeTables.DecodeTableHeader | lib/inode.cc:74-87 | the header checks fail exactly as the parser does, or hand it_len to the entry loop |
| InodeTables.DecodeSlots | lib/inode.cc:90-146 | the entry loop's result is the parser's |
| InodeTables.DecodeSlotAt | lib/inode.cc:92-145 | one turn of the entry loop: the inode and the cursor 32 bytes on, or the error |
| Db.OpenOptions | lib/db.cc:29-47 | the options are accepted iff f_read is set and f_create implies f_write; the two errors; read+write maps to O_RDWR, read alone to O_RDONLY, f_create to O_CREAT; default Options map to O_RDONLY |
| Db.ParseList | lib/db.cc:157-169 | the data-extent loop over ext_len - 1 records, stopping at the first with page 0 ("invalid page") or wrong flags ("invalid flags"); characterised by ParseListCount and ParseListOrder |
| Db.ParseExtList | lib/db.cc:141-169 | readExtList over the page read: header page, header flags, the length guard, then the data records; characterised by ParseExtListOutcome |
| Db.ParseListCount | lib/db.cc:157-169 | the data-extent loop yields at most ext_len - 1 extents, exactly that many on success, fails only with "invalid page" or "invalid flags", and keeps only extents with page != 0, MBO set, MBZ and HDR clear |
| Db.ParseListOrder | lib/db.cc:157-169 | the extents come back in record order |
| Db.ParseExtListOutcome | lib/db.cc:141-169 | a header page != 0 throws "invalid hdr page"; flags lacking MBO or HDR or having MBZ throw "invalid hdr flags"; with the length guard, ext_len 0 or a list longer than the page fails; on success the result is the ext_len - 1 records after the header, in order |
| Db.EncodeExtentsSnoc | lib/db.cc:190-200 | appending one extent to the list appends its 16 bytes |
| Db.ListHeaderLen | lib/db.cc:183-185 | the header written holds ext_len = n + 1 |
| Db.ListHeaderFlags | lib/db.cc:185 | the header's flags MBO\|HDR pass the reader's header check |
| Db.ParseEncodedList | lib/db.cc:157-169 | reading back encoded listable extents gives them back in order |
| Db.ExtListImage | lib/db.cc:177-200 | the bytes writeExtList hands to the file: header {0, n + 1, MBO\|HDR}, the extents, zeros to the end; exactly max_len pages long |
| Db.ImagePrefix | lib/db.cc:177-200 | the written pages are the header, the extents verbatim, then zeros |
| Db.ExtListRoundTrip | lib/db.cc:133-203 | readExtList(writeExtList(L)) = L whenever every extent has page != 0, MBO set, MBZ and HDR clear and (n+1)*16 fits the page read back |
| Db.OverwriteZeros | lib/db.cc:177-197 | a record written over zeroed pages leaves the rest zero |
| Db.ReserveWrapsOnZeroLength | lib/db.cc:155 | as written, a header with ext_len 0 passes every check and makes the reserve count wrap to 2^32 - 1 |
| Db.ReadsPastPage | lib/db.cc:138-159 | as written, ext_len 257 on a 4096-byte page makes the loop read 4112 bytes |
| Db.WriteSuperblockStep | lib/db.cc:105-119 | writing the superblock changes neither the superblock nor the inodes nor the page size |
| Db.ExtListWrite | lib/db.cc:172-203 | writeExtList keeps the file's page size |
| Db.ExtListRead | lib/db.cc:133-170 | readExtList changes the file only in its cursor, and a successful read yields only listable extents |
| Db.ClearSpec | lib/db.cc:49-81 | clear leaves the superblock {"PGDB0000", 1, 4096, SBF_MBO, ref 1} and exactly one inode {e_ref 1, e_alloc 1, [{2, 1, EF_MBO}]}, with 4096-byte pages |
| Db.ReadSuperblockSpec | lib/db.cc:83-103 | a success leaves a valid superblock whose page size the file now uses; "Superblock invalid" leaves the decoded, invalid superblock |
| Db.ReadInodeTableSpec | lib/db.cc:121-131 | the inodes become one slot 0 with e_ref = inode_table_ref, e_alloc 1; the superblock is unchanged; a success gives listable extents |
| Db.StartSpec | lib/db.cc:15-27 | a successful start has valid options, a valid superblock, one inode whose e_ref is the superblock's table ref, and the superblock's page size in the file |
| Db.FreshStore | lib/db.cc:55-75 | the fresh superblock is valid, and inode 0 has size 1 with a valid, listable extent |
| Db.FreshListPage | lib/db.cc:183-202 | the extent-list page clear writes is one 4096-byte page |
| Db.ClearWrites | lib/db.cc:49-81 | after a successful clear the file holds the superblock's image at bytes 0..512 and inode 0's extent list in page 1 |
| Db.ReadFreshSuperblock | lib/db.cc:83-103 | reading a file that starts with the fresh superblock succeeds, gives that superblock and switches to 4096-byte pages |
| Db.ReadFreshTable | lib/db.cc:121-131 | reading the inode table of a freshly cleared file gives back clear's inode 0 |
| Db.ClearThenReopen | lib/db.cc:15-131 | after a successful clear and a close, starting the store again succeeds with clear's superblock and inode 0 |
| Db.DB.constructor | lib/db.cc:15-20 | the store starts not running, with the given file and options |
| Db.DB.Start | lib/db.cc:21-27 | open, readSuperblock and readInodeTable in turn, as StartSpec; running is set exactly on success |
| Db.DB.Open | lib/db.cc:29-47 | refused options throw with the file untouched; accepted ones open the file with their flags and a 512-byte page size |
| Db.DB.Clear | lib/db.cc:49-81 | the new state and status are ClearSpec's |
| Db.DB.ReadSuperblock | lib/db.cc:83-103 | the new state and status are ReadSuperblockSpec's |
| Db.DB.WriteSuperblock | lib/db.cc:105-119 | one page is written at page 0: the superblock's image, then zeros |
| Db.DB.ReadInodeTable | lib/db.cc:121-131 | the new state and status are ReadInodeTableSpec's |
| Db.DB.ReadExtList | lib/db.cc:133-170 | the extents, file state and status are ExtListRead's |
| Db.DB.WriteExtList | lib/db.cc:172-203 | the file state and status are ExtListWrite's |
| Db.DB.WriteInodeExtList | lib/db.cc:205-209 | writeExtList of the inode's extents at its e_ref with its e_alloc pages |
| Db.DecodeList | lib/db.cc:157-169 | the decoding loop's result is the parser's for ext_len - 1 records |
| Db.DecodeListAt | lib/db.cc:159-168 | one turn of the decoding loop |
| Db.FillExtList | lib/db.cc:177-200 | the list fits iff (n+1)*16 <= the pages' bytes, and then the pages are the header, the extents and zeros |
| Lookup.Scan | lib/get.cc:30-69 | the entry loop over one directory in the source's branch order: a larger key ends with nothing, a covering DIR entry moves on, an equal KEY_VALUE or KEY entry answers, anything else moves on; characterised by ScanSound, ScanSkips and ScanSortedIff |
| Lookup.SearchSpec | lib/get.cc:19-74 | the directory loop: nothing found when it is not entered, otherwise the scan of the root directory, an inode answer read through the data function |
| Lookup.ScanSound | lib/get.cc:49-64 | a value is returned only from a KEY_VALUE entry whose key equals the search key; an inode only from such a KEY entry |
| Lookup.ScanSkips | lib/get.cc:41-68 | entries the scan passes over do not change its answer |
| Lookup.ScanStopsAtLarger | lib/get.cc:34-38 | the first entry with a larger key ends the search with not found |
| Lookup.ScanFindsSorted | lib/get.cc:30-64 | in a strictly sorted directory the entry holding the key answers: its value for KEY_VALUE, its inode for KEY |
| Lookup.ScanSortedIff | lib/get.cc:30-69 | in a strictly sorted directory the scan answers iff some KEY or KEY_VALUE entry holds the key |
| Lookup.OtherwiseGreater | lib/get.cc:34-68 | the assertion cmpres > 0 holds for entries of a known type whenever DIR entries have key <= key_end |
| Lookup.SearchReadsOnlyRoot | lib/get.cc:41-46 | a DIR match never descends: only the root directory's entries decide the answer |
| Lookup.Search | lib/get.cc:19-74 | the directory loop answers as the scan of the root directory, when it is entered |
| Lookup.Get | lib/get.cc:13-75 | get returns false and leaves valueOut unchanged, for every key |

## Left out

- Host I/O. `::open`, `lseek`, `read`, `write`, `fstat` and `fsync` are replaced by the in-memory device. Errno text is not kept. A read, write or sync on a closed descriptor fails, as `lseek` and `fsync` do on one. No other system-call failure is modelled: the device has no other way to fail.
- File names. The file behind a `File` is the device value given to its constructor.
- Host endianness and struct casting. The records are explicit little-endian codecs. The in-place swap of the caller's buffer in `Dir::decode` and `InodeTable::decode` is not kept, because the model's buffers are values.
- Allocation. `vector::reserve`, `resize` capacity, and the 64-bit size of `size_t` products are not modelled. Byte counts are unbounded, except where the source keeps them in 32 bits: decoders take buffers under 2^32 bytes.
- Directory.Dir.Decode uses DE__LAST as written, so it refuses KEY_VALUE entries. The corrected bound is proved separately (see Findings).
- ITF_UNUSED is read by `InodeTable::decode` but not defined among the flags in `include/pgdb2-struct.h`. It is modelled as bit 27, which is distinct from MBO, MBZ, HDR and EXT_INT.
- `Inode::size()`: the modelled files do not define it. It is modelled as the sum of the extents' lengths, kept to 32 bits where the source stores it in a `uint32_t`.
- Db.DB.ReadExtList: the modelled files do not give the length argument's default. `readInodeTable` calls it with one page.
- Default field values. `DirEntry` and `Inode` are declared in a header that is not part of this model. A field left unset after `DirEntry de;` (lib/dir.cc:57) is taken as 0: `value_len` of a DIR entry, `key_end_len` of KEY and KEY_VALUE entries. `Inode::unused` is taken as false wherever the source does not set it (lib/inode.cc:142 is its only assignment). Directory.ReloadedFixesDecoded and Directory.DecodeEncodeAllTags rely on these values.
- Directory.Encodable and Directory.Dir.Encode require key, key_end and value lengths, and the entry count, below 2^32. The source stores them in 32-bit fields and would truncate longer ones (lib/dir.cc:128-165); such directories are outside the model.
- `File::read` with two arguments: `readSuperblock` calls it without a page count. It is modelled as a one-page read.
- Db.DB.WriteExtList does not take the assertion at lib/db.cc:175 as a precondition. It requires only that the header fits and that page_size * max_len fits in 32 bits.
- Db.DB.ReadExtList and Db.ParseExtList carry the length guard described under Findings. Without it, the source reads past the page it allocated.
- The DB constructor is two members: Db.DB.constructor sets the fields, and Db.DB.Start runs open, readSuperblock and readInodeTable. The destructor only clears `running`, and is left out.
- The free-list inode (DBINO_FREELIST) has no logic in the modelled files.
- Directory descent in `get`: the source never descends (see Lookup.SearchReadsOnlyRoot), so no multi-level lookup is modelled.
- Lookup.Search is the source's `while (recurse)` loop with the starting value of `recurse` as a parameter. Lookup.Get passes `false`, as the source does, so the loop body is never entered. The loop body always ends in `break`, so Search runs it at most once, as a single pass. `readDir` and `readInodeData` are not part of this model: they are function parameters from a directory inode to its entries, and from an inode to its data.
- `lib/pgdb2.cc` and the `DB` in `include/pgdb2.h` are an older revision that holds only a descriptor. They are superseded by `lib/db.cc` and not modelled.

## Findings

| source | as written | input that shows it | evidently intended | confidence | as-written member | corrected member |
|---|---|---|---|---|---|---|
| include/pgdb2-struct.h:152 | DE__LAST = DE_KEY, so DirectoryEnt::valid rejects tag 3 and Dir::decode throws "Dir ent buf corrupted" on every KEY_VALUE entry that Dir::encode writes | a directory holding one KEY_VALUE entry, encoded then decoded | DE__LAST = DE_KEY_VALUE, so that decode(encode(d)) restores every entry | high (not executed) | Directory.DecodeEncodeKeyValueFails | Directory.DecodeEncodeAllTags |
| lib/db.cc:155 | ext_len is never bounded: a header with ext_len 0 passes every check and reserve(ext_len - 1) asks for 2^32 - 1 entries | an extent-list page whose header is {0, 0, MBO\|HDR} | reject ext_len 0 as a malformed list | medium (not executed) | Db.ReserveWrapsOnZeroLength | Db.ParseExtListOutcome |
| lib/db.cc:138-159 | the loop reads in_ext[1 .. ext_len-1] from a buffer of sb.page_size bytes without checking ext_len against it | ext_len 257 on a 4096-byte page: records up to byte 4112 are read | reject a list longer than the page read | high (not executed) | Db.ReadsPastPage | Db.ParseExtListOutcome |

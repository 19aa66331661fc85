/** The database object: the option check of open, bootstrapping an empty
    store, the superblock, and the extent-list pages that locate the inode
    table. */
module Db {
  import opened Base
  import opened Structs
  import opened PageFile
  import opened Inodes

  /* ---------------- options ---------------- */

  datatype Options = Options(fRead: bool, fWrite: bool, fCreate: bool)

  /** Options(): read only, no create. */
  const DEFAULT_OPTIONS: Options := Options(true, false, false)

  datatype FlagsChoice = Accept(flags: OpenFlags) | Reject(error: Error)

  /** The open(2) flags open() asks for, or the option error it throws. */
  function OpenFlagsFor(o: Options): FlagsChoice {
    if !o.fRead then Reject(InvalidReadWriteOptions)
    else if o.fCreate && !o.fWrite then Reject(InvalidCreateWriteOptions)
    else Accept(OpenFlags(if o.fWrite then ReadWrite else ReadOnly, o.fCreate))
  }

  /** Reading is mandatory, creating needs writing, write access is exactly
      the write option, and the default options open read only. */
  lemma OpenOptions(o: Options)
    ensures OpenFlagsFor(o).Accept? <==> o.fRead && (o.fCreate ==> o.fWrite)
    ensures !o.fRead ==> OpenFlagsFor(o) == Reject(InvalidReadWriteOptions)
    ensures o.fRead && o.fCreate && !o.fWrite ==> OpenFlagsFor(o) == Reject(InvalidCreateWriteOptions)
    ensures OpenFlagsFor(o).Accept? ==>
              && (OpenFlagsFor(o).flags.access == ReadWrite <==> o.fWrite)
              && OpenFlagsFor(o).flags.create == o.fCreate
    ensures OpenFlagsFor(DEFAULT_OPTIONS) == Accept(O_RDONLY)
  {
  }

  /* ---------------- extent lists: decoding ---------------- */

  /** A data record of an extent list: a nonzero page, MBO set, MBZ and HDR
      clear. */
  predicate Listable(e: Extent) {
    e.page != 0 && HasFlag(e.flags, EF_MBO) && !HasFlag(e.flags, EF_MBZ) && !HasFlag(e.flags, EF_HDR)
  }

  /** The extents pushed so far, and how the decode ended. */
  datatype ListDecoded = ListDecoded(exts: seq<Extent>, status: Status)

  function Prefixed(pre: seq<Extent>, t: ListDecoded): ListDecoded {
    ListDecoded(pre + t.exts, t.status)
  }

  /** The data records: k of them at the front of rest. */
  function ParseList(rest: seq<byte>, k: nat): ListDecoded
    requires PageBytes(EXTENT_SIZE, k) <= |rest|
    decreases k, 1
  {
    if k == 0 then ListDecoded([], Ok) else ParseListMore(rest, k)
  }

  /** One record, checked, then the records after it. */
  function ParseListMore(rest: seq<byte>, k: nat): ListDecoded
    requires k > 0 && PageBytes(EXTENT_SIZE, k) <= |rest|
    decreases k, 0
  {
    var e := DecodeExtent(rest[..EXTENT_SIZE]);
    if e.page == 0 then ListDecoded([], Fail(ExtListInvalidPage))
    else if !HasFlag(e.flags, EF_MBO) || HasFlag(e.flags, EF_MBZ) || HasFlag(e.flags, EF_HDR) then
      ListDecoded([], Fail(ExtListInvalidFlags))
    else
      var t := ParseList(rest[EXTENT_SIZE..], k - 1);
      ListDecoded([e] + t.exts, t.status)
  }

  /** readExtList on the page it read: a header record {0, n + 1, MBO|HDR},
      then n data records. The length guard (ext_len at least 1, and all
      ext_len records inside the page) is the one the source lacks. */
  function ParseExtList(page: seq<byte>): ListDecoded
    requires EXTENT_SIZE <= |page|
  {
    var hdr := DecodeExtent(page[..EXTENT_SIZE]);
    if hdr.page != 0 then ListDecoded([], Fail(ExtListInvalidHdrPage))
    else if !HasFlag(hdr.flags, EF_MBO) || HasFlag(hdr.flags, EF_MBZ) || !HasFlag(hdr.flags, EF_HDR) then
      ListDecoded([], Fail(ExtListInvalidHdrFlags))
    else if hdr.len == 0 || |page| < PageBytes(EXTENT_SIZE, hdr.len) then ListDecoded([], Fail(ExtListBadLength))
    else ParseList(page[EXTENT_SIZE..], hdr.len - 1)
  }

  /** The k 16-byte records at the front of rest, decoded, unchecked. */
  function Records(rest: seq<byte>, k: nat): (r: seq<Extent>)
    requires PageBytes(EXTENT_SIZE, k) <= |rest|
    ensures |r| == k
  {
    if k == 0 then [] else [DecodeExtent(rest[..EXTENT_SIZE])] + Records(rest[EXTENT_SIZE..], k - 1)
  }

  /** The data loop never yields more than k extents, each one listable; on
      success it yields all k, and it fails only on a record's page or
      flags. */
  lemma {:induction false} ParseListCount(rest: seq<byte>, k: nat)
    requires PageBytes(EXTENT_SIZE, k) <= |rest|
    ensures var t := ParseList(rest, k);
      && |t.exts| <= k
      && (t.status == Ok ==> |t.exts| == k)
      && (t.status != Ok ==> t.status == Fail(ExtListInvalidPage) || t.status == Fail(ExtListInvalidFlags))
      && (forall e <- t.exts :: Listable(e))
    decreases k
  {
    if k > 0 {
      var e := DecodeExtent(rest[..EXTENT_SIZE]);
      if Listable(e) {
        ParseListCount(rest[EXTENT_SIZE..], k - 1);
      }
    }
  }

  /** The extents come out in record order: they are the first records,
      one for one. */
  lemma {:induction false} ParseListOrder(rest: seq<byte>, k: nat)
    requires PageBytes(EXTENT_SIZE, k) <= |rest|
    ensures var exts := ParseList(rest, k).exts;
      |exts| <= k && exts == Records(rest, k)[..|exts|]
    decreases k
  {
    if k > 0 {
      var e := DecodeExtent(rest[..EXTENT_SIZE]);
      if Listable(e) {
        var r := rest[EXTENT_SIZE..];
        ParseListOrder(r, k - 1);
        var tail := ParseList(r, k - 1).exts;
        assert ParseList(rest, k).exts == [e] + tail;
        assert Records(rest, k) == [e] + Records(r, k - 1);
      }
    }
  }

  /** The checks of readExtList in order: header page, header flags, the
      length guard; a decode that succeeds holds exactly ext_len - 1
      listable extents. */
  lemma ParseExtListOutcome(page: seq<byte>)
    requires EXTENT_SIZE <= |page|
    ensures var hdr, r := DecodeExtent(page[..EXTENT_SIZE]), ParseExtList(page);
      && (hdr.page != 0 ==> r == ListDecoded([], Fail(ExtListInvalidHdrPage)))
      && (hdr.page == 0 && (!HasFlag(hdr.flags, EF_MBO) || HasFlag(hdr.flags, EF_MBZ) || !HasFlag(hdr.flags, EF_HDR))
          ==> r == ListDecoded([], Fail(ExtListInvalidHdrFlags)))
      && ((hdr.page == 0 && HasFlag(hdr.flags, EF_MBO) && !HasFlag(hdr.flags, EF_MBZ) && HasFlag(hdr.flags, EF_HDR)
           && hdr.len == 0) ==> r == ListDecoded([], Fail(ExtListBadLength)))
      && (r.status == Ok ==>
            && hdr.len >= 1 && |r.exts| == hdr.len - 1
            && PageBytes(EXTENT_SIZE, hdr.len) <= |page|
            && (forall e <- r.exts :: Listable(e))
            && r.exts == Records(page[EXTENT_SIZE..], hdr.len - 1))
  {
    var hdr := DecodeExtent(page[..EXTENT_SIZE]);
    if hdr.page == 0 && HasFlag(hdr.flags, EF_MBO) && !HasFlag(hdr.flags, EF_MBZ) && HasFlag(hdr.flags, EF_HDR)
       && hdr.len != 0 && PageBytes(EXTENT_SIZE, hdr.len) <= |page| {
      ParseListCount(page[EXTENT_SIZE..], hdr.len - 1);
      ParseListOrder(page[EXTENT_SIZE..], hdr.len - 1);
    }
  }

  /* ---------------- extent lists: encoding ---------------- */

  function EncodeExtents(exts: seq<Extent>): (r: seq<byte>)
    ensures |r| == PageBytes(EXTENT_SIZE, |exts|)
  {
    if exts == [] then [] else EncodeExtent(exts[0]) + EncodeExtents(exts[1..])
  }

  lemma {:induction false} EncodeExtentsSnoc(exts: seq<Extent>, e: Extent)
    ensures EncodeExtents(exts + [e]) == EncodeExtents(exts) + EncodeExtent(e)
  {
    if exts != [] {
      assert (exts + [e])[1..] == exts[1..] + [e];
      EncodeExtentsSnoc(exts[1..], e);
      ConcatAssoc(EncodeExtent(exts[0]), EncodeExtents(exts[1..]), EncodeExtent(e));
    }
  }

  /** The header record of a list of n extents; the count field is 32 bits. */
  function ListHeader(n: nat): Extent {
    Extent(0, (n + 1) % U32_LIMIT, EF_MBO + EF_HDR)
  }

  /** The bytes writeExtList hands to the file: the header record, the
      extents verbatim, and zeros to the end of the size bytes. */
  function ExtListImage(exts: seq<Extent>, size: nat): (r: seq<byte>)
    requires PageBytes(EXTENT_SIZE, |exts| + 1) <= size
    ensures |r| == size
  {
    EncodeExtent(ListHeader(|exts|)) + EncodeExtents(exts) + Zeros(size - PageBytes(EXTENT_SIZE, |exts| + 1))
  }

  /** b written over s at offset at, as memcpy into a buffer does. */
  function Overwrite(s: seq<byte>, at: nat, b: seq<byte>): (r: seq<byte>)
    requires at + |b| <= |s|
    ensures |r| == |s|
  {
    s[..at] + b + s[at + |b|..]
  }

  /** Writing a record over the zeros right after the records written so
      far extends the records and shortens the zeros. */
  lemma OverwriteZeros(a: seq<byte>, n: nat, b: seq<byte>)
    requires |b| <= n
    ensures Overwrite(a + Zeros(n), |a|, b) == a + b + Zeros(n - |b|)
  {
    var s := a + Zeros(n);
    assert s[..|a|] == a;
    assert s[|a| + |b|..] == Zeros(n - |b|);
  }

  lemma ListHeaderLen(n: nat)
    requires n + 1 < U32_LIMIT
    ensures ListHeader(n).len == n + 1
  {
  }

  lemma ListHeaderFlags()
    ensures HasFlag(EF_MBO + EF_HDR, EF_MBO) && !HasFlag(EF_MBO + EF_HDR, EF_MBZ) && HasFlag(EF_MBO + EF_HDR, EF_HDR)
  {
    assert (EF_MBO + EF_HDR) / EF_MBO == 1 && (EF_MBO + EF_HDR) / EF_MBZ == 2 && (EF_MBO + EF_HDR) / EF_HDR == 5;
  }

  lemma {:induction false} ParseEncodedList(exts: seq<Extent>, z: seq<byte>)
    requires forall e <- exts :: Listable(e)
    ensures PageBytes(EXTENT_SIZE, |exts|) <= |EncodeExtents(exts) + z|
    ensures ParseList(EncodeExtents(exts) + z, |exts|) == ListDecoded(exts, Ok)
  {
    if exts != [] {
      var s := EncodeExtents(exts) + z;
      assert s[..EXTENT_SIZE] == EncodeExtent(exts[0]);
      assert s[EXTENT_SIZE..] == EncodeExtents(exts[1..]) + z;
      ExtentRoundTrip(exts[0]);
      assert Listable(exts[0]);
      ParseEncodedList(exts[1..], z);
      assert ParseList(s, |exts|) == ParseListMore(s, |exts|);
      assert ParseListMore(s, |exts|) == Prefixed([exts[0]], ParseList(EncodeExtents(exts[1..]) + z, |exts| - 1));
      assert exts == [exts[0]] + exts[1..];
    }
  }

  /** A prefix of the written pages that holds all records: the header
      record, the extents, then zeros. */
  lemma ImagePrefix(exts: seq<Extent>, size: nat, m: nat)
    requires PageBytes(EXTENT_SIZE, |exts| + 1) <= m <= size
    ensures var page := ExtListImage(exts, size)[..m];
      && |page| == m
      && page[..EXTENT_SIZE] == EncodeExtent(ListHeader(|exts|))
      && page[EXTENT_SIZE..] == EncodeExtents(exts) + Zeros(m - PageBytes(EXTENT_SIZE, |exts| + 1))
  {
    var h, b := EncodeExtent(ListHeader(|exts|)), EncodeExtents(exts);
    var used := PageBytes(EXTENT_SIZE, |exts| + 1);
    assert used == |h| + |b|;
    var z := Zeros(size - used);
    ThreePartPrefix(h, b, z, m);
    assert z[..m - used] == Zeros(m - used);
  }

  lemma ThreePartPrefix<T>(h: seq<T>, b: seq<T>, z: seq<T>, m: nat)
    requires |h| + |b| <= m <= |h| + |b| + |z|
    ensures (h + b + z)[..m][..|h|] == h
    ensures (h + b + z)[..m][|h|..] == b + z[..m - |h| - |b|]
  {
  }

  /** readExtList(writeExtList(L)) == L: any prefix of the written pages
      that holds all the records decodes to the extents written, when each
      is listable and their count fits the 32-bit field. */
  lemma ExtListRoundTrip(exts: seq<Extent>, size: nat, m: nat)
    requires PageBytes(EXTENT_SIZE, |exts| + 1) <= m <= size
    requires |exts| + 1 < U32_LIMIT
    requires forall e <- exts :: Listable(e)
    ensures ParseExtList(ExtListImage(exts, size)[..m]) == ListDecoded(exts, Ok)
  {
    var hdr := ListHeader(|exts|);
    var page := ExtListImage(exts, size)[..m];
    var z := Zeros(m - PageBytes(EXTENT_SIZE, |exts| + 1));
    ImagePrefix(exts, size, m);
    ExtentRoundTrip(hdr);
    ListHeaderFlags();
    assert DecodeExtent(page[..EXTENT_SIZE]) == hdr;
    ListHeaderLen(|exts|);
    ParseEncodedList(exts, z);
    assert page[EXTENT_SIZE..] == EncodeExtents(exts) + z;
    assert ParseExtList(page) == ParseList(page[EXTENT_SIZE..], |exts|);
  }

  /* ---------------- findings: readExtList as written ---------------- */

  /** reserve(hdr.ext_len - 1) as written: 32-bit unsigned subtraction. */
  function ReserveCount(hdr: Extent): nat {
    (hdr.len + U32_LIMIT - 1) % U32_LIMIT
  }

  /** Bytes of the page that the unguarded loop reads: records 0 to
      ext_len - 1, so 16 * ext_len of them (only the header when ext_len is
      0 or 1). */
  function BytesReadUnguarded(hdr: Extent): nat {
    PageBytes(EXTENT_SIZE, Max(hdr.len, 1))
  }

  /** A header that passes every check of readExtList with ext_len 0 asks
      reserve for 2^32 - 1 extents although the list it reads is empty. */
  lemma ReserveWrapsOnZeroLength()
    ensures var hdr := Extent(0, 0, EF_MBO + EF_HDR);
      && hdr.page == 0 && HasFlag(hdr.flags, EF_MBO) && !HasFlag(hdr.flags, EF_MBZ) && HasFlag(hdr.flags, EF_HDR)
      && ReserveCount(hdr) == U32_LIMIT - 1
      && ParseExtList(EncodeExtent(hdr) + Zeros(4080)).status == Fail(ExtListBadLength)
  {
    var hdr := Extent(0, 0, EF_MBO + EF_HDR);
    ListHeaderFlags();
    var page := EncodeExtent(hdr) + Zeros(4080);
    assert page[..EXTENT_SIZE] == EncodeExtent(hdr);
    ExtentRoundTrip(hdr);
  }

  /** A header of a 4096-byte page that passes every check with ext_len 257
      makes the unguarded loop read 16 bytes past the page; the guarded
      decode refuses it. */
  lemma ReadsPastPage()
    ensures var hdr := Extent(0, 257, EF_MBO + EF_HDR);
      && HasFlag(hdr.flags, EF_MBO) && !HasFlag(hdr.flags, EF_MBZ) && HasFlag(hdr.flags, EF_HDR)
      && BytesReadUnguarded(hdr) == 4096 + 16
      && ParseExtList(EncodeExtent(hdr) + Zeros(4080)).status == Fail(ExtListBadLength)
  {
    var hdr := Extent(0, 257, EF_MBO + EF_HDR);
    ListHeaderFlags();
    PageBytesIsProduct(EXTENT_SIZE, 257);
    var page := EncodeExtent(hdr) + Zeros(4080);
    assert page[..EXTENT_SIZE] == EncodeExtent(hdr);
    ExtentRoundTrip(hdr);
  }

  /* ---------------- the database state ---------------- */

  /** Everything the DB methods read or change: the superblock, the inodes,
      and the page file behind them. */
  datatype DbState = DbState(sb: Superblock, inodes: seq<Inode>, file: FileState)
  datatype Outcome = Outcome(state: DbState, status: Status)
  datatype ListRead = ListRead(file: FileState, decoded: ListDecoded)

  /** The superblock clear() builds: version 1, 4096-byte pages, the inode
      table's extent list at page 1. */
  const FRESH_SB: Superblock := Superblock(SB_MAGIC, 1, 4096, SBF_MBO, 1, Zeros(480))

  /** Inode 0 after clear(): its extent list at page 1, one page reserved for
      it, and the inode table itself in page 2. */
  const FRESH_TABLE_INODE: Inode := Inode(1, 1, [Extent(2, 1, EF_MBO)], false)

  /** The superblock page writeSuperblock writes: the record, then zeros. */
  function SuperblockPage(sb: Superblock, size: nat): (r: seq<byte>)
    requires SUPERBLOCK_SIZE <= size
    ensures |r| == size
  {
    EncodeSuperblock(sb) + Zeros(size - SUPERBLOCK_SIZE)
  }

  function WriteSuperblockStep(d: DbState): (r: Outcome)
    requires SUPERBLOCK_SIZE <= d.sb.pageSize && d.file.pageSize == d.sb.pageSize
    ensures r.state.sb == d.sb && r.state.inodes == d.inodes && r.state.file.pageSize == d.file.pageSize
  {
    var w := WriteStep(d.file, SuperblockPage(d.sb, d.sb.pageSize), 0, 1);
    Outcome(d.(file := w.state), w.status)
  }

  /** writeExtList(exts, ref, max_len) with size = page_size * max_len. */
  function ExtListWrite(s: FileState, exts: seq<Extent>, ref: nat, maxLen: nat, size: nat): (r: Step)
    requires PageBytes(s.pageSize, maxLen) <= size
    ensures r.state.pageSize == s.pageSize
  {
    if PageBytes(EXTENT_SIZE, |exts| + 1) <= size then WriteStep(s, ExtListImage(exts, size), ref, maxLen)
    else Step(s, Fail(ExtListExceedsMax))
  }

  /** readExtList(ext, ref, len) into a page of size bytes. */
  function ExtListRead(s: FileState, size: nat, ref: nat, len: nat): (r: ListRead)
    requires PageBytes(s.pageSize, len) <= size && EXTENT_SIZE <= size
    ensures r.file.(curFpos := s.curFpos) == s
    ensures r.decoded.status == Ok ==> forall e <- r.decoded.exts :: Listable(e)
  {
    var rd := ReadStep(s, Zeros(size), ref, len);
    if rd.status != Ok then ListRead(rd.state, ListDecoded([], rd.status))
    else
      ParseExtListOutcome(rd.buf);
      ListRead(rd.state, ParseExtList(rd.buf))
  }

  /** clear(): the fresh superblock and inode 0, then the superblock page,
      the inode table's extent list, and a sync. */
  function ClearSpec(d: DbState): (r: Outcome)
    ensures r.state.sb == FRESH_SB && r.state.inodes == [FRESH_TABLE_INODE]
    ensures r.state.file.pageSize == 4096
  {
    var d1 := DbState(FRESH_SB, [FRESH_TABLE_INODE], SetPageSizeStep(d.file, 4096));
    var w1 := WriteSuperblockStep(d1);
    if w1.status != Ok then w1
    else
      var w2 := ExtListWrite(w1.state.file, FRESH_TABLE_INODE.ext, 1, 1, 4096);
      if w2.status != Ok then Outcome(d1.(file := w2.state), w2.status)
      else Outcome(d1.(file := w2.state), SyncStep(w2.state))
  }

  /** readSuperblock(): an empty file opened with f_create is bootstrapped
      by clear(); otherwise the first page is read into a 4096-byte buffer
      and its first 512 bytes decoded. */
  function ReadSuperblockSpec(d: DbState, o: Options): (r: Outcome)
    requires d.file.pageSize <= 4096
    ensures r.status == Ok ==> r.state.sb.Valid() && r.state.file.pageSize == r.state.sb.pageSize
    ensures r.status == Fail(SuperblockInvalid) ==> !r.state.sb.Valid()
  {
    if d.file.nPages == 0 && o.fCreate then
      FreshStore();
      ClearSpec(d)
    else
      var rd := ReadStep(d.file, Zeros(4096), 0, 1);
      if rd.status != Ok then Outcome(d.(file := rd.state), rd.status)
      else
        var sb := DecodeSuperblock(rd.buf[..SUPERBLOCK_SIZE]);
        if !sb.Valid() then Outcome(DbState(sb, d.inodes, rd.state), Fail(SuperblockInvalid))
        else Outcome(DbState(sb, d.inodes, SetPageSizeStep(rd.state, sb.pageSize)), Ok)
  }

  /** readInodeTable(): inode 0 alone, its extent list read from the page
      the superblock names. */
  function ReadInodeTableSpec(d: DbState): (r: Outcome)
    requires d.file.pageSize == d.sb.pageSize && EXTENT_SIZE <= d.sb.pageSize
    ensures r.state.sb == d.sb && |r.state.inodes| == 1 && r.state.file.pageSize == d.file.pageSize
    ensures var ino := r.state.inodes[DBINO_TABLE];
      && ino.eRef == d.sb.inodeTableRef && ino.eAlloc == 1 && !ino.unused
      && (r.status == Ok ==> forall e <- ino.ext :: Listable(e))
  {
    var lr := ExtListRead(d.file, d.sb.pageSize, d.sb.inodeTableRef, 1);
    Outcome(DbState(d.sb, [Inode(d.sb.inodeTableRef, 1, lr.decoded.exts, false)], lr.file), lr.decoded.status)
  }

  /** The DB constructor's work: open, read the superblock, read the inode
      table; the store runs only when all three succeed. */
  function StartSpec(d: DbState, o: Options): (r: Outcome)
    requires d.file.fd < 0
    ensures r.status == Ok ==> && o.fRead && (o.fCreate ==> o.fWrite)
                               && r.state.sb.Valid() && |r.state.inodes| == 1
                               && r.state.inodes[DBINO_TABLE].eRef == r.state.sb.inodeTableRef
                               && r.state.file.pageSize == r.state.sb.pageSize
  {
    match OpenFlagsFor(o)
    case Reject(e) => Outcome(d, Fail(e))
    case Accept(fl) =>
      var os := OpenStep(d.file, fl, SUPERBLOCK_SIZE);
      if os.status != Ok then Outcome(d.(file := os.state), os.status)
      else
        var rs := ReadSuperblockSpec(d.(file := os.state), o);
        if rs.status != Ok then rs else ReadInodeTableSpec(rs.state)
  }

  /** What clear() writes is what the reader accepts: a valid superblock,
      and an inode 0 of one page. */
  lemma FreshStore()
    ensures FRESH_SB.Valid()
    ensures FRESH_TABLE_INODE.Size() == 1
    ensures forall e <- FRESH_TABLE_INODE.ext :: Listable(e) && e.Valid()
  {
    var e := Extent(2, 1, EF_MBO);
    assert FRESH_TABLE_INODE.ext == [e];
    assert ExtentPages([e]) == 1;
  }

  /** The page clear() writes for inode 0's extent list. */
  function FreshListPage(): (r: seq<byte>)
    ensures |r| == 4096
  {
    assert PageBytes(EXTENT_SIZE, 2) == 32;
    ExtListImage(FRESH_TABLE_INODE.ext, 4096)
  }

  /** After a clear() that succeeds, the file holds the fresh superblock at
      byte 0 and inode 0's extent list in page 1. */
  lemma ClearWrites(d: DbState)
    requires ClearSpec(d).status == Ok
    ensures var t := ClearSpec(d).state.file;
      && t.IsOpen() && t.present == d.file.present && t.pageSize == 4096
      && 8192 <= |t.data|
      && t.data[..SUPERBLOCK_SIZE] == EncodeSuperblock(FRESH_SB)
      && t.data[4096..8192] == FreshListPage()
  {
    var s1 := SetPageSizeStep(d.file, 4096);
    var p0 := SuperblockPage(FRESH_SB, 4096);
    assert PageBytes(4096, 1) == 4096;
    var w1 := WriteStep(s1, p0, 0, 1);
    assert w1.status == Ok;
    assert p0[..4096] == p0;
    var data1 := Store(s1.data, 0, p0);
    assert w1.state.data == data1;
    StoreAt(s1.data, 0, p0);
    assert data1[..SUPERBLOCK_SIZE] == p0[..SUPERBLOCK_SIZE] == EncodeSuperblock(FRESH_SB);
    var p1 := FreshListPage();
    var w2 := WriteStep(w1.state, p1, 1, 1);
    assert ClearSpec(d).state.file == w2.state;
    assert w2.status == Ok;
    assert p1[..4096] == p1;
    assert w2.state.data == Store(data1, 4096, p1);
    StorePrefix(data1, 4096, p1, SUPERBLOCK_SIZE);
    StoreAt(data1, 4096, p1);
  }

  /** Reading the superblock of such a file, opened with 512-byte pages,
      gives the fresh superblock and switches to 4096-byte pages. */
  lemma ReadFreshSuperblock(d: DbState, o: Options)
    requires d.file.IsOpen() && d.file.pageSize == SUPERBLOCK_SIZE && d.file.nPages != 0
    requires SUPERBLOCK_SIZE <= |d.file.data| && d.file.data[..SUPERBLOCK_SIZE] == EncodeSuperblock(FRESH_SB)
    ensures var r := ReadSuperblockSpec(d, o);
      && r.status == Ok && r.state.sb == FRESH_SB && r.state.inodes == d.inodes
      && r.state.file.data == d.file.data && r.state.file.pageSize == 4096 && r.state.file.IsOpen()
  {
    assert PageBytes(SUPERBLOCK_SIZE, 1) == SUPERBLOCK_SIZE && PageBytes(SUPERBLOCK_SIZE, 0) == 0;
    var rd := ReadStep(d.file, Zeros(4096), 0, 1);
    assert Fetch(d.file.data, 0, SUPERBLOCK_SIZE) == EncodeSuperblock(FRESH_SB);
    assert rd.buf[..SUPERBLOCK_SIZE] == EncodeSuperblock(FRESH_SB);
    SuperblockRoundTrip(FRESH_SB);
    FreshStore();
  }

  /** Reading the inode table's extent list from page 1 of such a file
      gives back inode 0 as clear() built it. */
  lemma ReadFreshTable(d: DbState)
    requires d.sb == FRESH_SB && d.file.IsOpen() && d.file.pageSize == 4096
    requires 8192 <= |d.file.data| && d.file.data[4096..8192] == FreshListPage()
    ensures var r := ReadInodeTableSpec(d);
      r.status == Ok && r.state.sb == FRESH_SB && r.state.inodes == [FRESH_TABLE_INODE]
  {
    assert PageBytes(4096, 1) == 4096;
    var rd := ReadStep(d.file, Zeros(4096), 1, 1);
    assert Fetch(d.file.data, 4096, 4096) == FreshListPage();
    assert rd.buf == FreshListPage();
    FreshStore();
    ExtListRoundTrip(FRESH_TABLE_INODE.ext, 4096, 4096);
    assert FreshListPage()[..4096] == FreshListPage();
  }

  /** A store that clear() wrote successfully, closed and opened again with
      any accepted options, comes back running with the fresh superblock
      and inode 0. */
  lemma ClearThenReopen(d: DbState, o: Options, sb: Superblock, inodes: seq<Inode>)
    requires ClearSpec(d).status == Ok && d.file.present
    requires o.fRead && (o.fCreate ==> o.fWrite)
    ensures var r := StartSpec(DbState(sb, inodes, CloseStep(ClearSpec(d).state.file)), o);
      r.status == Ok && r.state.sb == FRESH_SB && r.state.inodes == [FRESH_TABLE_INODE]
  {
    ClearWrites(d);
    var s := CloseStep(ClearSpec(d).state.file);
    var fl := OpenFlagsFor(o).flags;
    var os := OpenStep(s, fl, SUPERBLOCK_SIZE);
    assert os.status == Ok && os.state.data == s.data;
    assert os.state.nPages == |s.data| / SUPERBLOCK_SIZE >= 16;
    var d1 := DbState(sb, inodes, os.state);
    ReadFreshSuperblock(d1, o);
    ReadFreshTable(ReadSuperblockSpec(d1, o).state);
  }

  /* ---------------- the DB object ---------------- */

  class DB {
    var sb: Superblock
    var inodes: seq<Inode>
    var running: bool
    var options: Options
    const f: File

    function State(): DbState
      reads this, f
    {
      DbState(sb, inodes, f.State())
    }

    /** DB(filename, opt) before its work: not running, no inodes. The
        superblock is unset by the source; it starts at all zeros here. */
    constructor (f: File, options: Options)
      ensures this.f == f && this.options == options && !running && inodes == []
      ensures sb == Superblock([0, 0, 0, 0, 0, 0, 0, 0], 0, 0, 0, 0, Zeros(480))
    {
      this.f := f;
      this.options := options;
      this.running := false;
      this.inodes := [];
      this.sb := Superblock([0, 0, 0, 0, 0, 0, 0, 0], 0, 0, 0, 0, Zeros(480));
    }

    /** The constructor's work: open(), readSuperblock(), readInodeTable(),
        then running. */
    method Start() returns (st: Status)
      requires f.fd < 0
      modifies this, f
      ensures Outcome(State(), st) == StartSpec(old(State()), options)
      ensures running == (st == Ok) && options == old(options)
    {
      running := false;
      st := Open();
      if st != Ok {
        return;
      }
      st := ReadSuperblock();
      if st != Ok {
        return;
      }
      st := ReadInodeTable();
      if st != Ok {
        return;
      }
      running := true;
    }

    /** open(): the option check, then the file opened with 512-byte pages. */
    method Open() returns (st: Status)
      requires f.fd < 0
      modifies f
      ensures OpenFlagsFor(options).Reject? ==> st == Fail(OpenFlagsFor(options).error) && f.State() == old(f.State())
      ensures OpenFlagsFor(options).Accept? ==>
                Step(f.State(), st) == OpenStep(old(f.State()), OpenFlagsFor(options).flags, SUPERBLOCK_SIZE)
    {
      var access: Access;
      if options.fRead && options.fWrite {
        access := ReadWrite;
      } else if options.fRead {
        access := ReadOnly;
      } else {
        return Fail(InvalidReadWriteOptions);
      }
      var create := false;
      if options.fCreate {
        if !options.fWrite {
          return Fail(InvalidCreateWriteOptions);
        }
        create := true;
      }
      st := f.Open(OpenFlags(access, create), SUPERBLOCK_SIZE);
    }

    /** clear(): a fresh superblock and inode 0, written out and synced. */
    method Clear() returns (st: Status)
      modifies this, f
      ensures Outcome(State(), st) == ClearSpec(old(State()))
      ensures running == old(running) && options == old(options)
    {
      sb := FRESH_SB;
      inodes := [];
      f.SetPageSize(sb.pageSize);
      inodes := [FRESH_TABLE_INODE];
      st := WriteSuperblock();
      if st != Ok {
        return;
      }
      st := WriteInodeExtList(DBINO_TABLE);
      if st != Ok {
        return;
      }
      st := f.Sync();
    }

    /** readSuperblock() */
    method ReadSuperblock() returns (st: Status)
      requires f.pageSize <= 4096
      modifies this, f
      ensures Outcome(State(), st) == ReadSuperblockSpec(old(State()), options)
      ensures running == old(running) && options == old(options)
    {
      if f.Size() == 0 && options.fCreate {
        st := Clear();
        return;
      }
      var sbBuf := Zeros(4096);
      sbBuf, st := f.Read(sbBuf, 0, 1);
      if st != Ok {
        return;
      }
      sb := DecodeSuperblock(sbBuf[..SUPERBLOCK_SIZE]);
      if !sb.Valid() {
        return Fail(SuperblockInvalid);
      }
      f.SetPageSize(sb.pageSize);
    }

    /** writeSuperblock(): the record at the front of one zeroed page. */
    method WriteSuperblock() returns (st: Status)
      requires SUPERBLOCK_SIZE <= sb.pageSize && f.pageSize == sb.pageSize
      modifies f
      ensures Outcome(State(), st) == WriteSuperblockStep(old(State()))
    {
      var page := EncodeSuperblock(sb) + Zeros(sb.pageSize - SUPERBLOCK_SIZE);
      st := f.Write(page, 0, 1);
    }

    /** readInodeTable() */
    method ReadInodeTable() returns (st: Status)
      requires f.pageSize == sb.pageSize && EXTENT_SIZE <= sb.pageSize
      modifies this, f
      ensures Outcome(State(), st) == ReadInodeTableSpec(old(State()))
      ensures running == old(running) && options == old(options)
    {
      inodes := [Inode(sb.inodeTableRef, 1, [], false)];
      var exts;
      exts, st := ReadExtList(inodes[DBINO_TABLE].eRef, 1);
      inodes := [inodes[DBINO_TABLE].(ext := exts)];
    }

    /** readExtList(ext_list, ref, len): one page-size buffer, len pages read
        into it, then the header and the records checked. */
    method ReadExtList(ref: u64, len: nat) returns (exts: seq<Extent>, st: Status)
      requires PageBytes(f.pageSize, len) <= sb.pageSize && EXTENT_SIZE <= sb.pageSize
      modifies f
      ensures ListRead(f.State(), ListDecoded(exts, st)) == ExtListRead(old(f.State()), sb.pageSize, ref, len)
    {
      exts := [];
      var page := Zeros(sb.pageSize);
      page, st := f.Read(page, ref, len);
      if st != Ok {
        return;
      }
      var hdr := DecodeExtent(page[..EXTENT_SIZE]);
      if hdr.page != 0 {
        return exts, Fail(ExtListInvalidHdrPage);
      }
      if !HasFlag(hdr.flags, EF_MBO) || HasFlag(hdr.flags, EF_MBZ) || !HasFlag(hdr.flags, EF_HDR) {
        return exts, Fail(ExtListInvalidHdrFlags);
      }
      // the length guard the source lacks
      PageBytesIsProduct(EXTENT_SIZE, hdr.len);
      if hdr.len == 0 || |page| < EXTENT_SIZE * hdr.len {
        return exts, Fail(ExtListBadLength);
      }
      exts, st := DecodeList(page, hdr.len);
    }

    /** writeExtList(ext_list, ref, max_len) */
    method WriteExtList(exts: seq<Extent>, ref: u64, maxLen: u32) returns (st: Status)
      requires f.pageSize == sb.pageSize
      requires EXTENT_SIZE <= PageBytes(sb.pageSize, maxLen) < U32_LIMIT
      modifies f
      ensures Step(f.State(), st) == ExtListWrite(old(f.State()), exts, ref, maxLen, PageBytes(sb.pageSize, maxLen))
    {
      PageBytesIsProduct(sb.pageSize, maxLen);
      var pages, fits := FillExtList(exts, sb.pageSize * maxLen);
      if !fits {
        return Fail(ExtListExceedsMax);
      }
      st := f.Write(pages, ref, maxLen);
    }

    /** writeInodeExtList(ino): inode ino's extents at its e_ref, within its
        e_alloc pages. */
    method WriteInodeExtList(ino: nat) returns (st: Status)
      requires ino < |inodes| && f.pageSize == sb.pageSize
      requires EXTENT_SIZE <= PageBytes(sb.pageSize, inodes[ino].eAlloc) < U32_LIMIT
      modifies f
      ensures Step(f.State(), st) == ExtListWrite(old(f.State()), inodes[ino].ext, inodes[ino].eRef,
                                                  inodes[ino].eAlloc, PageBytes(sb.pageSize, inodes[ino].eAlloc))
    {
      st := WriteExtList(inodes[ino].ext, inodes[ino].eRef, inodes[ino].eAlloc);
    }
  }

  /** The data loop of readExtList: records 1 to n - 1 of the page. */
  method DecodeList(page: seq<byte>, n: nat) returns (exts: seq<Extent>, st: Status)
    requires 1 <= n && PageBytes(EXTENT_SIZE, n) <= |page|
    ensures ListDecoded(exts, st) == ParseList(page[EXTENT_SIZE..], n - 1)
  {
    exts := [];
    var i := 1;
    var p: nat := EXTENT_SIZE;
    ghost var k: nat := n - 1;
    while i < n
      invariant 1 <= i <= n && k == n - i
      invariant PageBytes(EXTENT_SIZE, k) <= |page| - p
      invariant ParseList(page[EXTENT_SIZE..], n - 1) == Prefixed(exts, ParseList(page[p..], k))
    {
      var e, est := DecodeListAt(page, p, k);
      if est != Ok {
        assert exts + [] == exts;
        return exts, est;
      }
      PrefixedStep(ParseList(page[EXTENT_SIZE..], n - 1), exts, ParseList(page[p..], k), e,
                   ParseList(page[p + EXTENT_SIZE..], k - 1));
      exts, i, p, k := exts + [e], i + 1, p + EXTENT_SIZE, k - 1;
    }
    assert exts + [] == exts;
    st := Ok;
  }

  lemma PrefixedStep(whole: ListDecoded, got: seq<Extent>, cur: ListDecoded, e: Extent, next: ListDecoded)
    requires whole == Prefixed(got, cur) && cur == Prefixed([e], next)
    ensures whole == Prefixed(got + [e], next)
  {
    ConcatAssoc(got, [e], next.exts);
  }

  /** One turn of the data loop: the record at p and its checks. */
  method DecodeListAt(page: seq<byte>, p: nat, ghost k: nat) returns (e: Extent, st: Status)
    requires k > 0 && p + PageBytes(EXTENT_SIZE, k) <= |page|
    ensures p + EXTENT_SIZE <= |page|
    ensures st == Ok ==> ParseList(page[p..], k) == Prefixed([e], ParseList(page[p + EXTENT_SIZE..], k - 1))
    ensures st != Ok ==> ParseList(page[p..], k) == ListDecoded([], st)
  {
    ghost var rest := page[p..];
    e := DecodeExtent(page[p..p + EXTENT_SIZE]);
    assert rest[..EXTENT_SIZE] == page[p..p + EXTENT_SIZE];
    if e.page == 0 {
      return e, Fail(ExtListInvalidPage);
    }
    if !HasFlag(e.flags, EF_MBO) || HasFlag(e.flags, EF_MBZ) || HasFlag(e.flags, EF_HDR) {
      return e, Fail(ExtListInvalidFlags);
    }
    assert rest[EXTENT_SIZE..] == page[p + EXTENT_SIZE..];
    st := Ok;
  }

  /** The buffer-filling part of writeExtList: a zeroed buffer, the header
      record, then each extent at the next slot while one more slot fits. */
  method FillExtList(exts: seq<Extent>, size: nat) returns (pages: seq<byte>, fits: bool)
    requires EXTENT_SIZE <= size
    ensures fits == (PageBytes(EXTENT_SIZE, |exts| + 1) <= size)
    ensures fits ==> pages == ExtListImage(exts, size)
  {
    pages := Zeros(size);
    var hdr := ListHeader(|exts|);
    OverwriteZeros([], size, EncodeExtent(hdr));
    assert [] + pages == pages;
    pages := Overwrite(pages, 0, EncodeExtent(hdr));
    var outIdx := 1;
    var i := 0;
    while i < |exts|
      invariant i <= |exts| && outIdx == i + 1
      invariant PageBytes(EXTENT_SIZE, outIdx) <= size
      invariant pages == EncodeExtent(hdr) + EncodeExtents(exts[..i]) + Zeros(size - PageBytes(EXTENT_SIZE, outIdx))
    {
      PageBytesIsProduct(EXTENT_SIZE, outIdx);
      PageBytesIsProduct(EXTENT_SIZE, outIdx + 1);
      if (outIdx + 1) * EXTENT_SIZE > size {
        PageBytesAdd(EXTENT_SIZE, outIdx + 1, |exts| - i - 1);
        return pages, false;
      }
      var e := exts[i];
      var before := EncodeExtent(hdr) + EncodeExtents(exts[..i]);
      OverwriteZeros(before, size - PageBytes(EXTENT_SIZE, outIdx), EncodeExtent(e));
      pages := Overwrite(pages, EXTENT_SIZE * outIdx, EncodeExtent(e));
      assert exts[..i + 1] == exts[..i] + [e];
      EncodeExtentsSnoc(exts[..i], e);
      ConcatAssoc(EncodeExtent(hdr), EncodeExtents(exts[..i]), EncodeExtent(e));
      outIdx := outIdx + 1;
      i := i + 1;
    }
    assert exts[..i] == exts;
    fits := true;
  }
}

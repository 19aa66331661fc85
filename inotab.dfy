/** The inode table: its byte image (a header record, then per inode an
    entry header and one extent) and the class that holds the decoded inodes. */
module InodeTables {
  import opened Base
  import opened Structs
  import opened Inodes

  const SLOT_SIZE: nat := INOTAB_HDR_SIZE + EXTENT_SIZE

  /* ---------------- decoding ---------------- */

  /** What the decoder appends: the inodes decoded so far, and how it ended.
      A failure part-way keeps the inodes already pushed. */
  datatype TableDecoded = TableDecoded(inodes: seq<Inode>, status: Status)

  datatype SlotParse = Slot(ino: Inode, rest: seq<byte>) | BadSlot(error: Error)

  /** The inode an entry stands for: a null extent means no allocation, the
      inline bit keeps the extent itself, and otherwise the extent names the
      page of the inode's extent list and its length (the list itself is
      read later). The unused bit carries over. */
  function Classify(hdr: InodeTableHdr, e: Extent): (ino: Inode)
    ensures e.IsNull() ==> ino.eRef == 0 && ino.eAlloc == 0 && ino.ext == []
    ensures !e.IsNull() && HasFlag(hdr.itFlags, ITF_EXT_INT) ==> ino.eRef == 0 && ino.eAlloc == 0 && ino.ext == [e]
    ensures !e.IsNull() && !HasFlag(hdr.itFlags, ITF_EXT_INT) ==>
              ino.eRef == e.page && ino.eAlloc == e.len && ino.ext == []
    ensures ino.unused == HasFlag(hdr.itFlags, ITF_UNUSED)
  {
    var unused := HasFlag(hdr.itFlags, ITF_UNUSED);
    if e.IsNull() then Inode(0, 0, [], unused)
    else if HasFlag(hdr.itFlags, ITF_EXT_INT) then Inode(0, 0, [e], unused)
    else Inode(e.page, e.len, [], unused)
  }

  /** One entry at the front of `rest`: its header, which must be valid,
      then its extent, which must be null or valid. */
  function ParseSlot(rest: seq<byte>): (p: SlotParse)
    ensures p.Slot? ==> |p.rest| == |rest| - SLOT_SIZE
  {
    if |rest| < INOTAB_HDR_SIZE then BadSlot(InodeTableEntShortRead)
    else
      var hdr := DecodeInodeTableHdr(rest[..INOTAB_HDR_SIZE]);
      if !hdr.Valid() then BadSlot(InodeTableEntInvalid)
      else if |rest| - INOTAB_HDR_SIZE < EXTENT_SIZE then BadSlot(InodeTableExtShortRead)
      else
        var e := DecodeExtent(rest[INOTAB_HDR_SIZE..SLOT_SIZE]);
        if !e.IsNull() && !e.Valid() then BadSlot(InodeTableExtInvalid)
        else Slot(Classify(hdr, e), rest[SLOT_SIZE..])
  }

  /** The entry loop: it runs while bytes remain and fewer than n entries
      were read. */
  function ParseSlots(rest: seq<byte>, n: nat): TableDecoded
    decreases n, 1
  {
    if |rest| == 0 || n == 0 then TableDecoded([], Ok) else ParseSlotsMore(rest, n)
  }

  /** One turn of the entry loop, then the turns after it. */
  function ParseSlotsMore(rest: seq<byte>, n: nat): TableDecoded
    requires n > 0
    decreases n, 0
  {
    match ParseSlot(rest)
    case BadSlot(e) => TableDecoded([], Fail(e))
    case Slot(ino, r) =>
      var tail := ParseSlots(r, n - 1);
      TableDecoded([ino] + tail.inodes, tail.status)
  }

  /** InodeTable::decode: the table header, which must be valid, a length
      check against 32 bytes per announced entry, then the entries. */
  function ParseTable(buf: seq<byte>): TableDecoded {
    if |buf| < INOTAB_HDR_SIZE then TableDecoded([], Fail(InodeTableHdrShortRead))
    else
      var h := DecodeInodeTableHdr(buf[..INOTAB_HDR_SIZE]);
      if !h.Valid() then TableDecoded([], Fail(InodeTableInvalidHeader))
      else if |buf| < h.itLen * SLOT_SIZE then TableDecoded([], Fail(InodeTableInvalidLength))
      else ParseSlots(buf[INOTAB_HDR_SIZE..], h.itLen)
  }

  /** The decode t preceded by inodes already decoded. */
  function Prefixed(pre: seq<Inode>, t: TableDecoded): TableDecoded {
    TableDecoded(pre + t.inodes, t.status)
  }

  lemma PrefixedTwice(a: seq<Inode>, b: seq<Inode>, t: TableDecoded)
    ensures Prefixed(a, Prefixed(b, t)) == Prefixed(a + b, t)
  {
    ConcatAssoc(a, b, t.inodes);
  }

  /** One more decoded inode moves from the decode still to come to the
      inodes already decoded. */
  lemma PrefixedStep(whole: TableDecoded, got: seq<Inode>, cur: TableDecoded, ino: Inode, next: TableDecoded)
    requires whole == Prefixed(got, cur) && cur == Prefixed([ino], next)
    ensures whole == Prefixed(got + [ino], next)
  {
    PrefixedTwice(got, [ino], next);
  }

  /** The loop never yields more than the n entries announced, and one that
      succeeds yields exactly min(n, entries that fit) of them. */
  lemma {:induction false} ParseSlotsCount(rest: seq<byte>, n: nat)
    ensures |ParseSlots(rest, n).inodes| <= n
    ensures |ParseSlots(rest, n).inodes| * SLOT_SIZE <= |rest|
    ensures ParseSlots(rest, n).status == Ok && n * SLOT_SIZE <= |rest| ==> |ParseSlots(rest, n).inodes| == n
    decreases n
  {
    if |rest| > 0 && n > 0 {
      match ParseSlot(rest)
      case BadSlot(_) =>
      case Slot(ino, r) =>
        ParseSlotsCount(r, n - 1);
        var m := |ParseSlots(r, n - 1).inodes|;
        assert |ParseSlots(rest, n).inodes| == m + 1;
        assert (m + 1) * SLOT_SIZE == m * SLOT_SIZE + SLOT_SIZE;
        assert n * SLOT_SIZE == (n - 1) * SLOT_SIZE + SLOT_SIZE;
    }
  }

  /** The decoder's failures before any entry: a buffer shorter than the
      header, an invalid header, and fewer than 32 bytes per announced
      entry; when it succeeds it has read exactly it_len entries. */
  lemma ParseTableOutcome(buf: seq<byte>)
    ensures |buf| < INOTAB_HDR_SIZE ==> ParseTable(buf) == TableDecoded([], Fail(InodeTableHdrShortRead))
    ensures |buf| >= INOTAB_HDR_SIZE && !DecodeInodeTableHdr(buf[..INOTAB_HDR_SIZE]).Valid() ==>
      ParseTable(buf) == TableDecoded([], Fail(InodeTableInvalidHeader))
    ensures |buf| >= INOTAB_HDR_SIZE && DecodeInodeTableHdr(buf[..INOTAB_HDR_SIZE]).Valid()
            && |buf| < DecodeInodeTableHdr(buf[..INOTAB_HDR_SIZE]).itLen * SLOT_SIZE ==>
      ParseTable(buf) == TableDecoded([], Fail(InodeTableInvalidLength))
    ensures ParseTable(buf).status == Ok ==>
      |buf| >= INOTAB_HDR_SIZE
      && |ParseTable(buf).inodes| <= DecodeInodeTableHdr(buf[..INOTAB_HDR_SIZE]).itLen
  {
    if |buf| >= INOTAB_HDR_SIZE {
      var h := DecodeInodeTableHdr(buf[..INOTAB_HDR_SIZE]);
      ParseSlotsCount(buf[INOTAB_HDR_SIZE..], h.itLen);
    }
  }

  /** The header check is rough: it counts the table header as if it were
      part of the entries, so a buffer of exactly 32 * it_len bytes passes it
      yet holds only it_len - 1 whole entries and a half, and the decode
      fails on the last extent. */
  lemma RoughLengthCheck()
    ensures var buf := EncodeInodeTableHdr(InodeTableHdr(INOTAB_MAGIC, 1, ITF_MBO + ITF_HDR))
                       + EncodeInodeTableHdr(InodeTableHdr(INOTABENT_MAGIC, 0, ITF_MBO));
      |buf| == 1 * SLOT_SIZE && ParseTable(buf) == TableDecoded([], Fail(InodeTableExtShortRead))
  {
    var h := InodeTableHdr(INOTAB_MAGIC, 1, ITF_MBO + ITF_HDR);
    var eh := InodeTableHdr(INOTABENT_MAGIC, 0, ITF_MBO);
    var buf := EncodeInodeTableHdr(h) + EncodeInodeTableHdr(eh);
    InodeTableHdrRoundTrip(h);
    InodeTableHdrRoundTrip(eh);
    assert buf[..INOTAB_HDR_SIZE] == EncodeInodeTableHdr(h);
    assert buf[INOTAB_HDR_SIZE..][..INOTAB_HDR_SIZE] == EncodeInodeTableHdr(eh);
    assert (ITF_MBO + ITF_HDR) / ITF_MBO == 1 && (ITF_MBO + ITF_HDR) / ITF_MBZ == 2;
    assert (ITF_MBO + ITF_HDR) / ITF_HDR == 5;
  }

  /* ---------------- encoding ---------------- */

  /** The extent written for an inode: an inline inode's extent, or the null
      extent when it has none; an external inode's list page and length. */
  function SlotExtent(ino: Inode): Extent {
    if ino.eRef == 0 then (if |ino.ext| > 0 then ino.ext[0] else NULL_EXTENT)
    else Extent(ino.eRef, ino.eAlloc, EF_MBO)
  }

  /** The entry header written for an inode: no length, and the inline bit
      when e_ref is 0; the unused bit is never written. */
  function SlotHeader(ino: Inode): InodeTableHdr {
    InodeTableHdr(INOTABENT_MAGIC, 0, if ino.eRef == 0 then ITF_MBO + ITF_EXT_INT else ITF_MBO)
  }

  function EncodeSlot(ino: Inode): (r: seq<byte>)
    ensures |r| == SLOT_SIZE
  {
    EncodeInodeTableHdr(SlotHeader(ino)) + EncodeExtent(SlotExtent(ino))
  }

  function EncodeSlots(inos: seq<Inode>): (r: seq<byte>)
    ensures |r| == |inos| * SLOT_SIZE
  {
    if inos == [] then [] else EncodeSlot(inos[0]) + EncodeSlots(inos[1..])
  }

  /** What encode asserts of each inode after slot 0: an inline inode has at
      most one extent. */
  predicate Storable(ino: Inode) {
    ino.eRef == 0 ==> |ino.ext| <= 1
  }

  function TableHeaderFor(inodes: seq<Inode>): InodeTableHdr
    requires |inodes| > 0
  {
    InodeTableHdr(INOTAB_MAGIC, (|inodes| - 1) % U32_LIMIT, ITF_MBO + ITF_HDR)
  }

  /** InodeTable::encode: the header, whose count leaves out slot 0, then one
      entry per inode after slot 0, which holds the table itself. */
  function EncodeTable(inodes: seq<Inode>): (r: seq<byte>)
    requires |inodes| > 0
    ensures |r| == INOTAB_HDR_SIZE + (|inodes| - 1) * SLOT_SIZE
  {
    EncodeInodeTableHdr(TableHeaderFor(inodes)) + EncodeSlots(inodes[1..])
  }

  lemma {:induction false} EncodeSlotsSnoc(inos: seq<Inode>, ino: Inode)
    ensures EncodeSlots(inos + [ino]) == EncodeSlots(inos) + EncodeSlot(ino)
  {
    if inos != [] {
      assert (inos + [ino])[1..] == inos[1..] + [ino];
      EncodeSlotsSnoc(inos[1..], ino);
      ConcatAssoc(EncodeSlot(inos[0]), EncodeSlots(inos[1..]), EncodeSlot(ino));
    } else {
      assert [ino][1..] == [];
    }
  }

  /* ---------------- the round trip ---------------- */

  /** The inodes the encoder can write so that they decode back: an inline
      extent must be valid (a null one reads back as no extent), an external
      inode needs a list page and a length. */
  predicate RoundTrips(ino: Inode) {
    Storable(ino)
    && (ino.eRef == 0 && |ino.ext| == 1 ==> ino.ext[0].Valid())
    && (ino.eRef != 0 ==> ino.eAlloc != 0)
  }

  /** What an inode reads back as: an inline inode keeps its extent (if
      any) but its e_alloc reads back as 0; an external inode keeps e_ref and
      e_alloc, and its extents, not stored in the table, are left to be read
      from its list; the unused bit is lost. */
  function Reloaded(ino: Inode): Inode {
    if ino.eRef == 0 then Inode(0, 0, ino.ext, false) else Inode(ino.eRef, ino.eAlloc, [], false)
  }

  function ReloadedAll(inos: seq<Inode>): (r: seq<Inode>)
    ensures |r| == |inos| && forall i :: 0 <= i < |inos| ==> r[i] == Reloaded(inos[i])
  {
    if inos == [] then [] else [Reloaded(inos[0])] + ReloadedAll(inos[1..])
  }

  /** The entry header the encoder writes is valid, carries the inline bit
      exactly for inline inodes, and never the unused bit. */
  lemma SlotHeaderBits(ino: Inode)
    ensures SlotHeader(ino).Valid()
    ensures HasFlag(SlotHeader(ino).itFlags, ITF_EXT_INT) == (ino.eRef == 0)
    ensures !HasFlag(SlotHeader(ino).itFlags, ITF_UNUSED)
  {
    var f := SlotHeader(ino).itFlags;
    assert f / ITF_MBO == 1 && f / ITF_MBZ == 2 && f / ITF_HDR == 4;
    assert f / ITF_EXT_INT == (if ino.eRef == 0 then 9 else 8);
    assert f / ITF_UNUSED == (if ino.eRef == 0 then 18 else 16);
  }

  /** The extent the encoder writes passes decode's check and classifies
      back to the reloaded inode. */
  lemma SlotExtentBack(ino: Inode)
    requires RoundTrips(ino)
    ensures SlotExtent(ino).IsNull() || SlotExtent(ino).Valid()
    ensures Classify(SlotHeader(ino), SlotExtent(ino)) == Reloaded(ino)
  {
    SlotHeaderBits(ino);
    assert (EF_MBO / EF_MBO) % 2 == 1 && (EF_MBO / EF_MBZ) % 2 == 0;
    if ino.eRef == 0 && |ino.ext| == 1 {
      assert ino.ext == [ino.ext[0]];
    }
  }

  /** One encoded entry parses back as the reloaded inode. */
  lemma ParseEncodedSlot(ino: Inode, rest: seq<byte>)
    requires RoundTrips(ino)
    ensures ParseSlot(EncodeSlot(ino) + rest) == Slot(Reloaded(ino), rest)
  {
    var s := EncodeSlot(ino) + rest;
    var h, e := SlotHeader(ino), SlotExtent(ino);
    assert s[..INOTAB_HDR_SIZE] == EncodeInodeTableHdr(h);
    assert s[INOTAB_HDR_SIZE..SLOT_SIZE] == EncodeExtent(e);
    assert s[SLOT_SIZE..] == rest;
    InodeTableHdrRoundTrip(h);
    ExtentRoundTrip(e);
    SlotHeaderBits(ino);
    SlotExtentBack(ino);
  }

  lemma {:induction false} ParseEncodedSlots(inos: seq<Inode>)
    requires forall ino <- inos :: RoundTrips(ino)
    ensures ParseSlots(EncodeSlots(inos), |inos|) == TableDecoded(ReloadedAll(inos), Ok)
  {
    if inos != [] {
      assert inos[0] in inos;
      ParseEncodedSlot(inos[0], EncodeSlots(inos[1..]));
      ParseEncodedSlots(inos[1..]);
    }
  }

  /** The header the encoder writes is a valid table header whose count is
      the number of entries after it. */
  lemma TableHeaderBack(inodes: seq<Inode>)
    requires 0 < |inodes| <= U32_LIMIT
    ensures var buf := EncodeTable(inodes);
      && DecodeInodeTableHdr(buf[..INOTAB_HDR_SIZE]).Valid()
      && DecodeInodeTableHdr(buf[..INOTAB_HDR_SIZE]).itLen == |inodes| - 1
      && buf[INOTAB_HDR_SIZE..] == EncodeSlots(inodes[1..])
  {
    var buf := EncodeTable(inodes);
    var h := TableHeaderFor(inodes);
    assert buf[..INOTAB_HDR_SIZE] == EncodeInodeTableHdr(h);
    InodeTableHdrRoundTrip(h);
    assert (ITF_MBO + ITF_HDR) / ITF_MBO == 1 && (ITF_MBO + ITF_HDR) / ITF_MBZ == 2;
    assert (ITF_MBO + ITF_HDR) / ITF_HDR == 5;
  }

  /** Decoding an encoded table gives back every inode after slot 0, as
      Reloaded says, when their count fits the 32-bit header field. */
  lemma DecodeEncodeTable(inodes: seq<Inode>)
    requires 0 < |inodes| <= U32_LIMIT
    requires forall i :: 1 <= i < |inodes| ==> RoundTrips(inodes[i])
    ensures ParseTable(EncodeTable(inodes)) == TableDecoded(ReloadedAll(inodes[1..]), Ok)
  {
    TableHeaderBack(inodes);
    assert forall ino <- inodes[1..] :: RoundTrips(ino);
    ParseEncodedSlots(inodes[1..]);
  }

  /* ---------------- the table in memory ---------------- */

  class InodeTable {
    var inodes: seq<Inode>

    constructor ()
      ensures inodes == []
    {
      inodes := [];
    }

    /** decode(buf): the decoded inodes are appended to those already held,
        which stay, and so do those decoded before a failure. */
    method Decode(buf: seq<byte>) returns (st: Status)
      requires |buf| < U32_LIMIT
      modifies this
      ensures Prefixed(old(inodes), ParseTable(buf)) == TableDecoded(inodes, st)
    {
      var n;
      st, n := DecodeTableHeader(buf);
      if st == Ok {
        var got;
        got, st := DecodeSlots(buf, n);
        inodes := inodes + got;
      } else {
        assert inodes + [] == inodes;
      }
    }

    /** encode(): the header, then one entry for each inode after slot 0. */
    method Encode() returns (buf: seq<byte>)
      requires |inodes| > 0 && forall i :: 1 <= i < |inodes| ==> Storable(inodes[i])
      ensures buf == EncodeTable(inodes)
    {
      var hdr := InodeTableHdr(INOTAB_MAGIC, (|inodes| - 1) % U32_LIMIT, ITF_MBO + ITF_HDR);
      buf := EncodeInodeTableHdr(hdr);
      assert inodes[1..1] == [];
      var idx := 1;
      while idx < |inodes|
        invariant 1 <= idx <= |inodes|
        invariant buf == EncodeInodeTableHdr(hdr) + EncodeSlots(inodes[1..idx])
      {
        var ino := inodes[idx];
        buf := AppendSlot(buf, ino);
        assert inodes[1..idx + 1] == inodes[1..idx] + [ino];
        EncodeSlotsSnoc(inodes[1..idx], ino);
        ConcatAssoc(EncodeInodeTableHdr(hdr), EncodeSlots(inodes[1..idx]), EncodeSlot(ino));
        idx := idx + 1;
      }
      assert inodes[1..idx] == inodes[1..];
    }
  }

  /** One turn of encode's loop: the entry header, then the extent. */
  method AppendSlot(buf: seq<byte>, ino: Inode) returns (out: seq<byte>)
    ensures out == buf + EncodeSlot(ino)
  {
    var intList := ino.eRef == 0;
    var hdr := InodeTableHdr(INOTABENT_MAGIC, 0, if intList then ITF_MBO + ITF_EXT_INT else ITF_MBO);
    out := buf + EncodeInodeTableHdr(hdr);
    var e: Extent;
    if intList {
      if |ino.ext| > 0 {
        e := ino.ext[0];
      } else {
        e := Extent(0, 0, EF_MBO);
      }
    } else {
      e := Extent(ino.eRef, ino.eAlloc, EF_MBO);
    }
    out := out + EncodeExtent(e);
    ConcatAssoc(buf, EncodeInodeTableHdr(hdr), EncodeExtent(e));
  }

  /** The header checks of decode: on success, the entry count to read. */
  method DecodeTableHeader(buf: seq<byte>) returns (st: Status, n: nat)
    ensures st != Ok ==> ParseTable(buf) == TableDecoded([], st)
    ensures st == Ok ==> INOTAB_HDR_SIZE <= |buf| && ParseTable(buf) == ParseSlots(buf[INOTAB_HDR_SIZE..], n)
  {
    n := 0;
    if |buf| < INOTAB_HDR_SIZE {
      return Fail(InodeTableHdrShortRead), n;
    }
    var ith := DecodeInodeTableHdr(buf[..INOTAB_HDR_SIZE]);
    if !ith.Valid() {
      return Fail(InodeTableInvalidHeader), n;
    }
    if |buf| < ith.itLen * SLOT_SIZE {
      return Fail(InodeTableInvalidLength), n;
    }
    return Ok, ith.itLen;
  }

  /** The entry loop of decode, from the end of the header on. */
  method DecodeSlots(buf: seq<byte>, n: nat) returns (got: seq<Inode>, st: Status)
    requires INOTAB_HDR_SIZE <= |buf|
    ensures TableDecoded(got, st) == ParseSlots(buf[INOTAB_HDR_SIZE..], n)
  {
    got := [];
    var p: nat := INOTAB_HDR_SIZE;
    var bytes := |buf| - INOTAB_HDR_SIZE;
    var idx := 0;
    ghost var k := n;
    while bytes > 0 && idx < n
      invariant idx <= n && k == n - idx && p <= |buf| && bytes == |buf| - p
      invariant ParseSlots(buf[INOTAB_HDR_SIZE..], n) == Prefixed(got, ParseSlots(buf[p..], k))
    {
      var ino, q, est := DecodeSlotAt(buf, p, k);
      if est != Ok {
        assert got + [] == got;
        return got, est;
      }
      PrefixedStep(ParseSlots(buf[INOTAB_HDR_SIZE..], n), got, ParseSlots(buf[p..], k), ino, ParseSlots(buf[q..], k - 1));
      got, bytes, p, idx, k := got + [ino], bytes - SLOT_SIZE, q, idx + 1, k - 1;
    }
    assert got + [] == got;
    st := Ok;
  }

  /** One turn of decode's loop: the entry header at p, then its extent. */
  method DecodeSlotAt(buf: seq<byte>, p: nat, ghost k: nat) returns (ino: Inode, q: nat, st: Status)
    requires p < |buf| && k > 0
    ensures st == Ok ==>
              && q == p + SLOT_SIZE <= |buf|
              && ParseSlots(buf[p..], k) == Prefixed([ino], ParseSlots(buf[q..], k - 1))
    ensures st != Ok ==> ParseSlots(buf[p..], k) == TableDecoded([], st)
  {
    ghost var rest := buf[p..];
    ino := EMPTY_INODE;
    q := p;
    if |buf| - p < INOTAB_HDR_SIZE {
      return ino, q, Fail(InodeTableEntShortRead);
    }
    var hdr := DecodeInodeTableHdr(buf[p..p + INOTAB_HDR_SIZE]);
    assert rest[..INOTAB_HDR_SIZE] == buf[p..p + INOTAB_HDR_SIZE];
    if !hdr.Valid() {
      return ino, q, Fail(InodeTableEntInvalid);
    }
    if |buf| - p - INOTAB_HDR_SIZE < EXTENT_SIZE {
      return ino, q, Fail(InodeTableExtShortRead);
    }
    var e := DecodeExtent(buf[p + INOTAB_HDR_SIZE..p + SLOT_SIZE]);
    assert rest[INOTAB_HDR_SIZE..SLOT_SIZE] == buf[p + INOTAB_HDR_SIZE..p + SLOT_SIZE];
    var extEmpty := false;
    if e.IsNull() {
      extEmpty := true;
    } else if !e.Valid() {
      return ino, q, Fail(InodeTableExtInvalid);
    }
    if extEmpty {
      ino := ino.(eRef := 0, eAlloc := 0);
    } else if HasFlag(hdr.itFlags, ITF_EXT_INT) {
      ino := ino.(eRef := 0, eAlloc := 0, ext := [e]);
    } else {
      ino := ino.(eRef := e.page, eAlloc := e.len);
    }
    if HasFlag(hdr.itFlags, ITF_UNUSED) {
      ino := ino.(unused := true);
    }
    q := p + SLOT_SIZE;
    assert rest[SLOT_SIZE..] == buf[q..];
    st := Ok;
  }
}

/** Directories: the sorted entry list, its byte codec, and the key search. */
module Directory {
  import opened Base
  import opened Structs

  /* ---------------- keys ---------------- */

  /** std::string::compare: byte-wise lexicographic, a proper prefix first. */
  function Compare(a: seq<byte>, b: seq<byte>): (c: int)
    ensures -1 <= c <= 1
  {
    if a == [] && b == [] then 0
    else if a == [] then -1
    else if b == [] then 1
    else if a[0] < b[0] then -1
    else if a[0] > b[0] then 1
    else Compare(a[1..], b[1..])
  }

  lemma {:induction false} CompareZeroIff(a: seq<byte>, b: seq<byte>)
    ensures Compare(a, b) == 0 <==> a == b
  {
    if a != [] && b != [] && a[0] == b[0] {
      CompareZeroIff(a[1..], b[1..]);
      assert a == [a[0]] + a[1..] && b == [b[0]] + b[1..];
    }
  }

  lemma {:induction false} CompareAntisym(a: seq<byte>, b: seq<byte>)
    ensures Compare(b, a) == -Compare(a, b)
  {
    if a != [] && b != [] && a[0] == b[0] {
      CompareAntisym(a[1..], b[1..]);
    }
  }

  lemma {:induction false} CompareTrans(a: seq<byte>, b: seq<byte>, c: seq<byte>)
    requires Compare(a, b) < 0 && Compare(b, c) < 0
    ensures Compare(a, c) < 0
  {
    if a != [] && b != [] && c != [] && a[0] == b[0] && b[0] == c[0] {
      CompareTrans(a[1..], b[1..], c[1..]);
    }
  }

  /* ---------------- entries ---------------- */

  /** An in-memory directory entry. The three length fields are what the
      decoder records from the on-disk record; `valueLen` of a KEY entry is
      the size of the value kept in inode `inoIdx`. */
  datatype DirEntry = DirEntry(
    dType: nat,
    inoIdx: u32,
    key: seq<byte>,
    keyEnd: seq<byte>,
    value: seq<byte>,
    keyLen: u32,
    keyEndLen: u32,
    valueLen: u32)

  /** A DIR entry whose range reaches the search key from above. */
  predicate Covers(e: DirEntry, key: seq<byte>) {
    e.dType == DE_DIR && Compare(key, e.keyEnd) <= 0
  }

  predicate StrictlySorted(ents: seq<DirEntry>) {
    forall i, j :: 0 <= i < j < |ents| ==> Compare(ents[i].key, ents[j].key) < 0
  }

  /* ---------------- decoding ---------------- */

  datatype EntryParse = Parsed(de: DirEntry, rest: seq<byte>) | Bad(error: Error)

  /** What the decoder builds: the entries pushed so far, and how it ended.
      A failure part-way leaves the entries already decoded in place. */
  datatype Decoded = Decoded(ents: seq<DirEntry>, status: Status)

  /** The type-dependent trailer after a fixed record: DIR takes key then
      key_end, KEY takes only the key (its value length is kept but no value
      bytes are consumed), KEY_VALUE takes key then value; any other tag
      fails. */
  function ParseTrailer(d: DirectoryEnt, r: seq<byte>): (p: EntryParse)
    ensures p.Parsed? ==> |p.rest| <= |r|
  {
    var t, kl, vl := d.DType(), d.deKeyLen, d.deValLen;
    if t == DE_DIR then
      if |r| < kl then Bad(InvalidDirentKeySize)
      else if |r| - kl < vl then Bad(InvalidDirentKeyEndSize)
      else Parsed(DirEntry(t, d.deIno, r[..kl], r[kl..kl + vl], [], kl, vl, 0), r[kl + vl..])
    else if t == DE_KEY then
      if |r| < kl then Bad(InvalidDirentKeySize)
      else Parsed(DirEntry(t, d.deIno, r[..kl], [], [], kl, 0, vl), r[kl..])
    else if t == DE_KEY_VALUE then
      if |r| < kl then Bad(InvalidDirentKeySize)
      else if |r| - kl < vl then Bad(InvalidDirentValueSize)
      else Parsed(DirEntry(t, d.deIno, r[..kl], [], r[kl..kl + vl], kl, 0, vl), r[kl + vl..])
    else Bad(InvalidDirentType)
  }

  /** One entry at the front of `rest`, with DirectoryEnt::valid admitting
      type tags up to `last`. */
  function ParseEntry(rest: seq<byte>, last: nat): (p: EntryParse)
    ensures p.Parsed? ==> |p.rest| <= |rest| - DIR_ENT_SIZE
  {
    if |rest| < DIR_ENT_SIZE then Bad(DirEntTruncated)
    else
      var d := DecodeDirectoryEnt(rest[..DIR_ENT_SIZE]);
      if !d.ValidUpTo(last) then Bad(DirEntCorrupted)
      else ParseTrailer(d, rest[DIR_ENT_SIZE..])
  }

  /** n entries in a row from the front of `rest`, stopping at the first
      that fails. */
  function ParseEntries(rest: seq<byte>, n: nat, last: nat): Decoded
    decreases n, 1
  {
    if n == 0 then Decoded([], Ok) else ParseMore(rest, n, last)
  }

  /** One turn of the entry loop, then the n - 1 turns after it. */
  function ParseMore(rest: seq<byte>, n: nat, last: nat): Decoded
    requires n > 0
    decreases n, 0
  {
    match ParseEntry(rest, last)
    case Bad(e) => Decoded([], Fail(e))
    case Parsed(de, r) =>
      var tail := ParseEntries(r, n - 1, last);
      Decoded([de] + tail.ents, tail.status)
  }

  /** The decode d preceded by entries already decoded. */
  function Behind(pre: seq<DirEntry>, d: Decoded): Decoded {
    Decoded(pre + d.ents, d.status)
  }

  lemma BehindBehind(a: seq<DirEntry>, b: seq<DirEntry>, d: Decoded)
    ensures Behind(a, Behind(b, d)) == Behind(a + b, d)
  {
    ConcatAssoc(a, b, d.ents);
  }

  /** Dir::decode, with the largest admitted type tag as a parameter; the
      source admits tags up to DE_LAST. */
  function ParseDir(buf: seq<byte>, last: nat): Decoded {
    if |buf| < DIR_HDR_SIZE then Decoded([], Fail(DirHdrShortRead))
    else
      var h := DecodeDirectoryHdr(buf[..DIR_HDR_SIZE]);
      if !h.Valid() then Decoded([], Fail(DirHdrCorrupted))
      else if |buf| - DIR_HDR_SIZE < DIR_ENT_SIZE * h.dLen then Decoded([], Fail(DirTruncated))
      else ParseEntries(buf[DIR_HDR_SIZE..], h.dLen, last)
  }

  /** A decode that succeeds yields exactly d_len entries. */
  lemma {:induction false} ParseEntriesCount(rest: seq<byte>, n: nat, last: nat)
    ensures ParseEntries(rest, n, last).status == Ok ==> |ParseEntries(rest, n, last).ents| == n
    ensures |ParseEntries(rest, n, last).ents| <= n
  {
    if n > 0 {
      match ParseEntry(rest, last)
      case Bad(_) =>
      case Parsed(de, r) => ParseEntriesCount(r, n - 1, last);
    }
  }

  /** The decoder's failures before any entry: a buffer shorter than the
      header, a header that fails valid(), and fewer than 24 bytes per
      announced entry; on success there are exactly d_len entries. */
  lemma ParseDirOutcome(buf: seq<byte>, last: nat)
    ensures |buf| < DIR_HDR_SIZE ==> ParseDir(buf, last) == Decoded([], Fail(DirHdrShortRead))
    ensures |buf| >= DIR_HDR_SIZE && !DecodeDirectoryHdr(buf[..DIR_HDR_SIZE]).Valid() ==>
      ParseDir(buf, last) == Decoded([], Fail(DirHdrCorrupted))
    ensures (|buf| >= DIR_HDR_SIZE && DecodeDirectoryHdr(buf[..DIR_HDR_SIZE]).Valid()
             && |buf| - DIR_HDR_SIZE < DIR_ENT_SIZE * DecodeDirectoryHdr(buf[..DIR_HDR_SIZE]).dLen) ==>
      ParseDir(buf, last) == Decoded([], Fail(DirTruncated))
    ensures ParseDir(buf, last).status == Ok ==>
      |buf| >= DIR_HDR_SIZE && |ParseDir(buf, last).ents| == DecodeDirectoryHdr(buf[..DIR_HDR_SIZE]).dLen
  {
    if |buf| >= DIR_HDR_SIZE {
      var h := DecodeDirectoryHdr(buf[..DIR_HDR_SIZE]);
      ParseEntriesCount(buf[DIR_HDR_SIZE..], h.dLen, last);
    }
  }

  /** A record whose tag is DE_NONE, or any tag other than DIR, KEY and
      KEY_VALUE, is refused as an invalid type once it passes valid(). */
  lemma NoneTagRejected(rest: seq<byte>, last: nat)
    requires |rest| >= DIR_ENT_SIZE
    requires DecodeDirectoryEnt(rest[..DIR_ENT_SIZE]).ValidUpTo(last)
    requires DecodeDirectoryEnt(rest[..DIR_ENT_SIZE]).DType() !in {DE_DIR, DE_KEY, DE_KEY_VALUE}
    ensures ParseEntry(rest, last) == Bad(InvalidDirentType)
  {
  }

  /* ---------------- encoding ---------------- */

  /** Entries the encoder handles: a DIR, KEY or KEY_VALUE tag (any other
      trips its assertion) and byte strings whose lengths fit the 32-bit
      length fields. */
  predicate Encodable(e: DirEntry) {
    e.dType in {DE_DIR, DE_KEY, DE_KEY_VALUE}
    && |e.key| < U32_LIMIT && |e.keyEnd| < U32_LIMIT && |e.value| < U32_LIMIT
  }

  /** The fixed record written for an entry: KEY entries carry val_len 0 and
      KEY_VALUE entries carry inode 0. */
  function EntryRecord(e: DirEntry): (d: DirectoryEnt)
    requires Encodable(e)
  {
    EntryFlagsOf(e.dType, 0);
    DirectoryEnt(
      DIRENT_MAGIC,
      DF_MBO + e.dType,
      |e.key|,
      if e.dType == DE_DIR then |e.keyEnd| else if e.dType == DE_KEY then 0 else |e.value|,
      if e.dType == DE_KEY_VALUE then 0 else e.inoIdx)
  }

  /** The raw bytes after the record. */
  function EntryTrailer(e: DirEntry): seq<byte> {
    if e.dType == DE_DIR then e.key + e.keyEnd
    else if e.dType == DE_KEY then e.key
    else e.key + e.value
  }

  function EncodeEntry(e: DirEntry): (r: seq<byte>)
    requires Encodable(e)
  {
    EncodeDirectoryEnt(EntryRecord(e)) + EntryTrailer(e)
  }

  /** The entries' images in order. */
  function EncodeEntries(es: seq<DirEntry>): seq<byte>
    requires forall e <- es :: Encodable(e)
  {
    if es == [] then [] else EncodeEntry(es[0]) + EncodeEntries(es[1..])
  }

  function DirHeaderFor(es: seq<DirEntry>): DirectoryHdr
    requires |es| < U32_LIMIT
  {
    DirectoryHdr(DIR_MAGIC, |es|, DF_MBO)
  }

  /** Dir::encode */
  function EncodeDir(es: seq<DirEntry>): seq<byte>
    requires |es| < U32_LIMIT && forall e <- es :: Encodable(e)
  {
    EncodeDirectoryHdr(DirHeaderFor(es)) + EncodeEntries(es)
  }

  /** Total encoded size of the entries: 24 bytes of record plus the trailer each. */
  function EncodedSize(es: seq<DirEntry>): nat {
    if es == [] then 0 else DIR_ENT_SIZE + |EntryTrailer(es[0])| + EncodedSize(es[1..])
  }

  lemma {:induction false} EncodeEntriesLength(es: seq<DirEntry>)
    requires forall e <- es :: Encodable(e)
    ensures |EncodeEntries(es)| == EncodedSize(es) >= DIR_ENT_SIZE * |es|
  {
    if es != [] {
      EncodeEntriesLength(es[1..]);
    }
  }

  /** The encoder's output is the 16-byte header followed by, per entry, the
      24-byte record and its trailer. */
  lemma EncodeDirLength(es: seq<DirEntry>)
    requires |es| < U32_LIMIT && forall e <- es :: Encodable(e)
    ensures |EncodeDir(es)| == DIR_HDR_SIZE + EncodedSize(es)
  {
    EncodeEntriesLength(es);
  }

  lemma {:induction false} EncodeEntriesSnoc(es: seq<DirEntry>, e: DirEntry)
    requires forall x <- es :: Encodable(x)
    requires Encodable(e)
    ensures EncodeEntries(es + [e]) == EncodeEntries(es) + EncodeEntry(e)
  {
    if es != [] {
      assert (es + [e])[1..] == es[1..] + [e];
      EncodeEntriesSnoc(es[1..], e);
    }
  }

  /* ---------------- the round trip ---------------- */

  /** The entry decode returns for an encoded entry: lengths recomputed from
      the byte strings, key_end kept only by DIR, value only by KEY_VALUE, the
      inode dropped by KEY_VALUE, and a KEY entry's value length read back as 0. */
  function Reloaded(e: DirEntry): DirEntry
    requires Encodable(e)
  {
    if e.dType == DE_DIR then DirEntry(DE_DIR, e.inoIdx, e.key, e.keyEnd, [], |e.key|, |e.keyEnd|, 0)
    else if e.dType == DE_KEY then DirEntry(DE_KEY, e.inoIdx, e.key, [], [], |e.key|, 0, 0)
    else DirEntry(DE_KEY_VALUE, 0, e.key, [], e.value, |e.key|, 0, |e.value|)
  }

  function ReloadedAll(es: seq<DirEntry>): (r: seq<DirEntry>)
    requires forall e <- es :: Encodable(e)
    ensures |r| == |es| && forall i :: 0 <= i < |es| ==> r[i] == Reloaded(es[i])
  {
    if es == [] then [] else [Reloaded(es[0])] + ReloadedAll(es[1..])
  }

  /** What decoding encoded entries yields: Reloaded images up to the first
      entry whose tag exceeds `last`, where the decode stops with
      "Dir ent buf corrupted". */
  function ExpectedDecode(es: seq<DirEntry>, last: nat): Decoded
    requires forall e <- es :: Encodable(e)
  {
    if es == [] then Decoded([], Ok)
    else if es[0].dType > last then Decoded([], Fail(DirEntCorrupted))
    else
      var tail := ExpectedDecode(es[1..], last);
      Decoded([Reloaded(es[0])] + tail.ents, tail.status)
  }

  /** When every tag is admitted, all entries come back. */
  lemma {:induction false} ExpectedAllAdmitted(es: seq<DirEntry>, last: nat)
    requires forall e <- es :: Encodable(e) && e.dType <= last
    ensures ExpectedDecode(es, last) == Decoded(ReloadedAll(es), Ok)
  {
    if es != [] {
      assert es[0] in es;
      ExpectedAllAdmitted(es[1..], last);
    }
  }

  /** An entry with a refused tag at position i fails the decode, with at
      most the i entries before it delivered. */
  lemma {:induction false} ExpectedRefused(es: seq<DirEntry>, last: nat, i: nat)
    requires forall e <- es :: Encodable(e)
    requires i < |es| && es[i].dType > last
    ensures ExpectedDecode(es, last).status == Fail(DirEntCorrupted)
    ensures |ExpectedDecode(es, last).ents| <= i
  {
    if es[0].dType <= last {
      ExpectedRefused(es[1..], last, i - 1);
    }
  }

  lemma ParseEncodedEntry(e: DirEntry, r: seq<byte>, last: nat)
    requires Encodable(e)
    ensures ParseEntry(EncodeEntry(e) + r, last) ==
      if e.dType <= last then Parsed(Reloaded(e), r) else Bad(DirEntCorrupted)
  {
    var rec := EntryRecord(e);
    var s := EncodeEntry(e) + r;
    assert s[..DIR_ENT_SIZE] == EncodeDirectoryEnt(rec);
    DirectoryEntRoundTrip(rec);
    EntryFlagsOf(e.dType, last);
    var t := s[DIR_ENT_SIZE..];
    assert t == EntryTrailer(e) + r;
    if e.dType == DE_DIR {
      assert t[..|e.key|] == e.key;
      assert t[|e.key|..|e.key| + |e.keyEnd|] == e.keyEnd;
      assert t[|e.key| + |e.keyEnd|..] == r;
    } else if e.dType == DE_KEY {
      assert t[..|e.key|] == e.key;
      assert t[|e.key|..] == r;
    } else {
      assert t[..|e.key|] == e.key;
      assert t[|e.key|..|e.key| + |e.value|] == e.value;
      assert t[|e.key| + |e.value|..] == r;
    }
  }

  lemma {:induction false} ParseEncodedEntries(es: seq<DirEntry>, last: nat)
    requires forall e <- es :: Encodable(e)
    ensures ParseEntries(EncodeEntries(es), |es|, last) == ExpectedDecode(es, last)
  {
    if es != [] {
      ParseEncodedEntry(es[0], EncodeEntries(es[1..]), last);
      if es[0].dType <= last {
        ParseEncodedEntries(es[1..], last);
      }
    }
  }

  /** decode(encode(d)): every entry up to the first whose tag the decoder
      refuses comes back as Reloaded; a refused tag ends the decode with
      "Dir ent buf corrupted". */
  lemma DecodeEncodeUpTo(es: seq<DirEntry>, last: nat)
    requires |es| < U32_LIMIT && forall e <- es :: Encodable(e)
    ensures ParseDir(EncodeDir(es), last) == ExpectedDecode(es, last)
  {
    var h := DirHeaderFor(es);
    var buf := EncodeDir(es);
    assert buf[..DIR_HDR_SIZE] == EncodeDirectoryHdr(h);
    assert buf[DIR_HDR_SIZE..] == EncodeEntries(es);
    DirectoryHdrRoundTrip(h);
    assert HasFlag(DF_MBO, DF_MBO) && !HasFlag(DF_MBO, DF_MBZ);
    EncodeEntriesLength(es);
    ParseEncodedEntries(es, last);
  }

  /** With the decoder as written (tags up to DE_KEY), a directory of DIR and
      KEY entries round-trips to Reloaded entries: type, inode, key and
      (for DIR) key_end are restored. */
  lemma DecodeEncodeDirAndKey(es: seq<DirEntry>)
    requires |es| < U32_LIMIT && forall e <- es :: Encodable(e) && e.dType != DE_KEY_VALUE
    ensures ParseDir(EncodeDir(es), DE_LAST) == Decoded(ReloadedAll(es), Ok)
  {
    ExpectedAllAdmitted(es, DE_LAST);
    DecodeEncodeUpTo(es, DE_LAST);
  }

  /** ... and any KEY_VALUE entry, which the encoder writes, makes that
      decode fail: the entries before the first one are all it yields. */
  lemma DecodeEncodeKeyValueFails(es: seq<DirEntry>, i: nat)
    requires |es| < U32_LIMIT && forall e <- es :: Encodable(e)
    requires i < |es| && es[i].dType == DE_KEY_VALUE
    ensures ParseDir(EncodeDir(es), DE_LAST).status == Fail(DirEntCorrupted)
    ensures |ParseDir(EncodeDir(es), DE_LAST).ents| <= i
  {
    ExpectedRefused(es, DE_LAST, i);
    DecodeEncodeUpTo(es, DE_LAST);
  }

  /** Admitting tags up to DE_KEY_VALUE, every encodable directory round-trips. */
  lemma DecodeEncodeAllTags(es: seq<DirEntry>)
    requires |es| < U32_LIMIT && forall e <- es :: Encodable(e)
    ensures ParseDir(EncodeDir(es), DE_KEY_VALUE) == Decoded(ReloadedAll(es), Ok)
  {
    ExpectedAllAdmitted(es, DE_KEY_VALUE);
    DecodeEncodeUpTo(es, DE_KEY_VALUE);
  }

  /** An entry already in decoded form is its own Reloaded image, so such
      directories round-trip exactly. */
  lemma ReloadedFixesDecoded(e: DirEntry)
    requires Encodable(e)
    requires e.keyLen == |e.key|
    requires e.dType == DE_DIR ==> e.value == [] && e.keyEndLen == |e.keyEnd| && e.valueLen == 0
    requires e.dType == DE_KEY ==> e.keyEnd == [] && e.value == [] && e.keyEndLen == 0 && e.valueLen == 0
    requires e.dType == DE_KEY_VALUE ==>
      e.inoIdx == 0 && e.keyEnd == [] && e.keyEndLen == 0 && e.valueLen == |e.value|
    ensures Reloaded(e) == e
  {
  }

  /* ---------------- search ---------------- */

  /** What match(key, idx) promises when it returns `found` at `idx`: every
      earlier entry's key is below the search key without a DIR range
      covering it; a hit is an equal key, or a DIR entry with
      key < search <= key_end; a miss is at the first larger key or past
      the end. */
  predicate MatchResult(ents: seq<DirEntry>, key: seq<byte>, found: bool, idx: nat) {
    && idx <= |ents|
    && (forall j :: 0 <= j < idx ==> Compare(key, ents[j].key) > 0 && !Covers(ents[j], key))
    && (found ==>
          idx < |ents|
          && (Compare(key, ents[idx].key) == 0
              || (Compare(key, ents[idx].key) > 0 && Covers(ents[idx], key))))
    && (!found ==> idx == |ents| || Compare(key, ents[idx].key) < 0)
  }

  /** The promise pins the answer down: there is one result per search. */
  lemma MatchResultUnique(ents: seq<DirEntry>, key: seq<byte>, f1: bool, i1: nat, f2: bool, i2: nat)
    requires MatchResult(ents, key, f1, i1) && MatchResult(ents, key, f2, i2)
    ensures f1 == f2 && i1 == i2
  {
  }

  /** Stopping at the first larger key is sound for a strictly sorted
      directory: a miss means no entry carries the search key. */
  lemma MatchMissSound(ents: seq<DirEntry>, key: seq<byte>, idx: nat)
    requires StrictlySorted(ents) && MatchResult(ents, key, false, idx)
    ensures forall j :: 0 <= j < |ents| ==> ents[j].key != key
  {
    forall j | 0 <= j < |ents|
      ensures ents[j].key != key
    {
      if j < idx {
        CompareZeroIff(key, ents[j].key);
      } else {
        if j > idx {
          CompareTrans(key, ents[idx].key, ents[j].key);
        }
        CompareZeroIff(key, ents[j].key);
      }
    }
  }

  /* ---------------- the directory object ---------------- */

  class Dir {
    var ents: seq<DirEntry>

    constructor ()
      ensures ents == []
    {
      ents := [];
    }

    method Clear()
      modifies this
      ensures ents == []
    {
      ents := [];
    }

    /** decode(buf): clears the entries, then walks a cursor over buf. */
    method Decode(buf: seq<byte>) returns (st: Status)
      requires |buf| < U32_LIMIT
      modifies this
      ensures Decoded(ents, st) == ParseDir(buf, DE_LAST)
    {
      Clear();
      var n;
      st, n := DecodeHeader(buf);
      if st == Ok {
        ents, st := DecodeEntries(buf, n);
      }
    }

    /** encode(buf): the header, then each entry's record and trailer. */
    method Encode() returns (buf: seq<byte>)
      requires |ents| < U32_LIMIT && forall e <- ents :: Encodable(e)
      ensures buf == EncodeDir(ents)
    {
      var hdr := DirectoryHdr(DIR_MAGIC, |ents|, DF_MBO);
      buf := EncodeDirectoryHdr(hdr);
      var i := 0;
      while i < |ents|
        invariant i <= |ents|
        invariant buf == EncodeDirectoryHdr(hdr) + EncodeEntries(ents[..i])
      {
        var de := ents[i];
        assert de in ents;
        buf := AppendEntry(buf, de);
        assert ents[..i + 1] == ents[..i] + [de];
        EncodeEntriesSnoc(ents[..i], de);
        ConcatAssoc(EncodeDirectoryHdr(hdr), EncodeEntries(ents[..i]), EncodeEntry(de));
        i := i + 1;
      }
      assert ents[..i] == ents;
    }

    /** match(key, idx): an ordered scan that stops at the first entry that
        decides the search. */
    method Match(key: seq<byte>) returns (found: bool, idx: nat)
      ensures MatchResult(ents, key, found, idx)
    {
      idx := 0;
      while idx < |ents|
        invariant idx <= |ents|
        invariant forall j :: 0 <= j < idx ==> Compare(key, ents[j].key) > 0 && !Covers(ents[j], key)
      {
        var ent := ents[idx];
        var keyCmp := Compare(key, ent.key);
        if keyCmp < 0 {
          return false, idx;
        }
        if keyCmp == 0 {
          return true, idx;
        }
        if ent.dType == DE_DIR && Compare(key, ent.keyEnd) <= 0 {
          return true, idx;
        }
        idx := idx + 1;
      }
      found := false;
    }
  }

  /** One turn of encode's loop: the entry's record, then its trailer. */
  method AppendEntry(buf: seq<byte>, de: DirEntry) returns (out: seq<byte>)
    requires Encodable(de)
    ensures out == buf + EncodeEntry(de)
  {
    EntryFlagsOf(de.dType, 0);
    var keyLen: u32, valLen: u32, ino: u32;
    if de.dType == DE_DIR {
      keyLen, valLen, ino := |de.key|, |de.keyEnd|, de.inoIdx;
    } else if de.dType == DE_KEY {
      keyLen, valLen, ino := |de.key|, 0, de.inoIdx;
    } else {
      keyLen, valLen, ino := |de.key|, |de.value|, 0;
    }
    var rec := DirectoryEnt(DIRENT_MAGIC, DF_MBO + de.dType, keyLen, valLen, ino);
    assert rec == EntryRecord(de);
    var image := EncodeDirectoryEnt(rec);
    out := buf + image;
    if de.dType == DE_DIR {
      out := out + de.key;
      out := out + de.keyEnd;
      assert out == buf + (image + (de.key + de.keyEnd));
    } else if de.dType == DE_KEY {
      out := out + de.key;
    } else {
      out := out + de.key;
      out := out + de.value;
      assert out == buf + (image + (de.key + de.value));
    }
    assert out == buf + (image + EntryTrailer(de));
  }

  /** The loop of Dir::decode: n entries from the end of the header on. */
  method DecodeEntries(buf: seq<byte>, n: nat) returns (ents: seq<DirEntry>, st: Status)
    requires DIR_HDR_SIZE <= |buf|
    ensures Decoded(ents, st) == ParseEntries(buf[DIR_HDR_SIZE..], n, DE_LAST)
  {
    ents := [];
    var p: nat := DIR_HDR_SIZE;
    var k := n;
    while k > 0
      invariant p <= |buf|
      invariant ParseEntries(buf[DIR_HDR_SIZE..], n, DE_LAST)
                == Behind(ents, ParseEntries(buf[p..], k, DE_LAST))
    {
      var de, q, est := DecodeEntryAt(buf, p, k);
      if est != Ok {
        assert ents + [] == ents;
        return ents, est;
      }
      ghost var tail := ParseEntries(buf[q..], k - 1, DE_LAST);
      BehindBehind(ents, [de], tail);
      p, ents, k := q, ents + [de], k - 1;
    }
    assert ents + [] == ents;
    st := Ok;
  }

  /** The header checks of Dir::decode: on success, the entry count to
      read; on failure, what ParseDir reports. */
  method DecodeHeader(buf: seq<byte>) returns (st: Status, n: nat)
    ensures st != Ok ==> ParseDir(buf, DE_LAST) == Decoded([], st)
    ensures st == Ok ==> DIR_HDR_SIZE <= |buf|
                         && ParseDir(buf, DE_LAST) == ParseEntries(buf[DIR_HDR_SIZE..], n, DE_LAST)
  {
    n := 0;
    if |buf| < DIR_HDR_SIZE {
      return Fail(DirHdrShortRead), n;
    }
    var hdr := DecodeDirectoryHdr(buf[..DIR_HDR_SIZE]);
    if !hdr.Valid() {
      return Fail(DirHdrCorrupted), n;
    }
    if |buf| - DIR_HDR_SIZE < DIR_ENT_SIZE * hdr.dLen {
      return Fail(DirTruncated), n;
    }
    return Ok, hdr.dLen;
  }

  /** One turn of Dir::decode's loop: the fixed record at p, then its
      trailer. */
  method DecodeEntryAt(buf: seq<byte>, p: nat, ghost k: nat) returns (de: DirEntry, q: nat, st: Status)
    requires p <= |buf| && k > 0
    ensures st == Ok ==>
              && p < q <= |buf|
              && ParseEntries(buf[p..], k, DE_LAST) == Behind([de], ParseEntries(buf[q..], k - 1, DE_LAST))
    ensures st != Ok ==> ParseEntries(buf[p..], k, DE_LAST) == Decoded([], st)
  {
    ghost var rest := buf[p..];
    if |buf| - p < DIR_ENT_SIZE {
      return DirEntry(0, 0, [], [], [], 0, 0, 0), p, Fail(DirEntTruncated);
    }
    var d := DecodeDirectoryEnt(buf[p..p + DIR_ENT_SIZE]);
    assert rest[..DIR_ENT_SIZE] == buf[p..p + DIR_ENT_SIZE];
    assert rest[DIR_ENT_SIZE..] == buf[p + DIR_ENT_SIZE..];
    if !d.Valid() {
      return DirEntry(0, 0, [], [], [], 0, 0, 0), p, Fail(DirEntCorrupted);
    }
    de, q, st := DecodeTrailer(buf, p + DIR_ENT_SIZE, d);
  }

  method DecodeTrailer(buf: seq<byte>, p: nat, d: DirectoryEnt) returns (de: DirEntry, q: nat, st: Status)
    requires p <= |buf|
    ensures st == Ok <==> ParseTrailer(d, buf[p..]).Parsed?
    ensures st == Ok ==> p <= q <= |buf| && ParseTrailer(d, buf[p..]) == Parsed(de, buf[q..])
    ensures st != Ok ==> ParseTrailer(d, buf[p..]) == Bad(st.error)
  {
    var bytes := |buf| - p;
    var t := d.DType();
    de := DirEntry(t, d.deIno, [], [], [], 0, 0, 0);
    q := p;
    if t == DE_DIR {
      if bytes < d.deKeyLen {
        return de, q, Fail(InvalidDirentKeySize);
      }
      de := de.(key := buf[q..q + d.deKeyLen]);
      q := q + d.deKeyLen;
      bytes := bytes - d.deKeyLen;
      if bytes < d.deValLen {
        return de, q, Fail(InvalidDirentKeyEndSize);
      }
      de := de.(keyEnd := buf[q..q + d.deValLen]);
      q := q + d.deValLen;
      de := de.(keyLen := d.deKeyLen, keyEndLen := d.deValLen);
    } else if t == DE_KEY {
      if bytes < d.deKeyLen {
        return de, q, Fail(InvalidDirentKeySize);
      }
      de := de.(key := buf[q..q + d.deKeyLen]);
      q := q + d.deKeyLen;
      de := de.(keyLen := d.deKeyLen, valueLen := d.deValLen);
    } else if t == DE_KEY_VALUE {
      if bytes < d.deKeyLen {
        return de, q, Fail(InvalidDirentKeySize);
      }
      de := de.(key := buf[q..q + d.deKeyLen]);
      q := q + d.deKeyLen;
      bytes := bytes - d.deKeyLen;
      if bytes < d.deValLen {
        return de, q, Fail(InvalidDirentValueSize);
      }
      de := de.(value := buf[q..q + d.deValLen]);
      q := q + d.deValLen;
      de := de.(keyLen := d.deKeyLen, valueLen := d.deValLen);
    } else {
      return de, q, Fail(InvalidDirentType);
    }
    st := Ok;
  }
}

/** The fixed-size on-disk records: their field layouts, their little-endian
    byte images (what swap_h2n/swap_n2h plus the struct cast amount to), and
    the validity predicates the reader applies before trusting them. */
module Structs {
  import opened Base

  // reserved inode indices
  const DBINO_TABLE: nat := 0
  const DBINO_FREELIST: nat := 1
  const DBINO_ROOT_DIR: nat := 2

  // largest key kept inline before spilling to an inode
  const INT_KEY_MAX: nat := 511

  // record sizes in bytes
  const SUPERBLOCK_SIZE: nat := 512
  const EXTENT_SIZE: nat := 16
  const INOTAB_HDR_SIZE: nat := 16
  const DIR_HDR_SIZE: nat := 16
  const DIR_ENT_SIZE: nat := 24

  type Magic = s: seq<byte> | |s| == 8 witness [0, 0, 0, 0, 0, 0, 0, 0]
  type Reserved = s: seq<byte> | |s| == 480 witness Zeros(480)

  // "PGDB0000", "PGIT0000", "PGIE0000", "PGDR0000", "PGDE0000" in ASCII
  const SB_MAGIC: Magic := [0x50, 0x47, 0x44, 0x42, 0x30, 0x30, 0x30, 0x30]
  const INOTAB_MAGIC: Magic := [0x50, 0x47, 0x49, 0x54, 0x30, 0x30, 0x30, 0x30]
  const INOTABENT_MAGIC: Magic := [0x50, 0x47, 0x49, 0x45, 0x30, 0x30, 0x30, 0x30]
  const DIR_MAGIC: Magic := [0x50, 0x47, 0x44, 0x52, 0x30, 0x30, 0x30, 0x30]
  const DIRENT_MAGIC: Magic := [0x50, 0x47, 0x44, 0x45, 0x30, 0x30, 0x30, 0x30]

  // superblock feature bits
  const SBF_MBO: nat := 0x8000_0000_0000_0000   // bit 63, must be one
  const SBF_MBZ: nat := 0x4000_0000_0000_0000   // bit 62, must be zero

  // extent flags
  const EF_MBO: nat := 0x8000_0000
  const EF_MBZ: nat := 0x4000_0000
  const EF_HDR: nat := 0x2000_0000

  // inode table flags; the unused-slot bit is referenced by the inode table
  // reader but never given a value in the header, so bit 27 stands for it here
  const ITF_MBO: nat := 0x8000_0000
  const ITF_MBZ: nat := 0x4000_0000
  const ITF_HDR: nat := 0x2000_0000
  const ITF_EXT_INT: nat := 0x1000_0000
  const ITF_UNUSED: nat := 0x0800_0000

  // directory entry types and flags
  const DE_NONE: nat := 0
  const DE_DIR: nat := 1
  const DE_KEY: nat := 2
  const DE_KEY_VALUE: nat := 3
  const DE_LAST: nat := DE_KEY     // DE__LAST: the largest tag valid() admits
  const DF_MBO: nat := 0x8000_0000
  const DF_MBZ: nat := 0x4000_0000
  const DF_ENT_TYPE: nat := 0xf

  /* ---------------- Superblock ---------------- */

  datatype Superblock = Superblock(
    magic: Magic,
    version: u32,
    pageSize: u32,
    features: u64,
    inodeTableRef: u64,
    reserved: Reserved)
  {
    predicate Valid() {
      && 1 <= version
      && 512 <= pageSize <= 65536
      && HasFlag(features, SBF_MBO) && !HasFlag(features, SBF_MBZ)
      && 1 <= inodeTableRef
      && magic == SB_MAGIC
    }
  }

  function EncodeSuperblock(sb: Superblock): (r: seq<byte>)
    ensures |r| == SUPERBLOCK_SIZE
  {
    sb.magic + LE32(sb.version) + LE32(sb.pageSize) + LE64(sb.features)
      + LE64(sb.inodeTableRef) + sb.reserved
  }

  function DecodeSuperblock(s: seq<byte>): Superblock
    requires |s| == SUPERBLOCK_SIZE
  {
    Superblock(s[0..8], Get32(s[8..12]), Get32(s[12..16]), Get64(s[16..24]),
               Get64(s[24..32]), s[32..512])
  }

  /** Superblock::valid spelled out with the feature bits read positionally:
      bit 63 set means the word is at least 2^63, bit 62 clear means what is
      left below bit 63 is under 2^62. */
  lemma SuperblockValidIff(sb: Superblock)
    ensures sb.Valid() <==>
      && sb.version >= 1
      && 512 <= sb.pageSize <= 65536
      && sb.features >= 0x8000_0000_0000_0000
      && sb.features % 0x8000_0000_0000_0000 < 0x4000_0000_0000_0000
      && sb.inodeTableRef >= 1
      && sb.magic == SB_MAGIC
  {
    TopBits64(sb.features);
  }

  /** For a 64-bit word, the single-bit tests on bits 63 and 62. */
  lemma TopBits64(x: u64)
    ensures HasFlag(x, SBF_MBO) <==> x >= SBF_MBO
    ensures HasFlag(x, SBF_MBZ) <==> x % SBF_MBO >= SBF_MBZ
  {
  }

  /** For a 32-bit word, the single-bit tests on bits 31 and 30. */
  lemma TopBits32(x: u32)
    ensures HasFlag(x, EF_MBO) <==> x >= EF_MBO
    ensures HasFlag(x, EF_MBZ) <==> x % EF_MBO >= EF_MBZ
  {
  }

  lemma {:induction false} SuperblockRoundTrip(sb: Superblock)
    ensures DecodeSuperblock(EncodeSuperblock(sb)) == sb
  {
    var s := EncodeSuperblock(sb);
    assert s[8..12] == LE32(sb.version);
    assert s[12..16] == LE32(sb.pageSize);
    assert s[16..24] == LE64(sb.features);
    assert s[24..32] == LE64(sb.inodeTableRef);
    Get32LE32(sb.version);
    Get32LE32(sb.pageSize);
    Get64LE64(sb.features);
    Get64LE64(sb.inodeTableRef);
  }

  lemma {:induction false} SuperblockBytesRoundTrip(s: seq<byte>)
    requires |s| == SUPERBLOCK_SIZE
    ensures EncodeSuperblock(DecodeSuperblock(s)) == s
  {
    LE32Get32(s[8..12]);
    LE32Get32(s[12..16]);
    LE64Get64(s[16..24]);
    LE64Get64(s[24..32]);
    assert s == s[0..8] + s[8..12] + s[12..16] + s[16..24] + s[24..32] + s[32..512];
  }

  /* ---------------- Extent ---------------- */

  datatype Extent = Extent(page: u64, len: u32, flags: u32)
  {
    predicate Valid() {
      page != 0 && len != 0 && HasFlag(flags, EF_MBO) && !HasFlag(flags, EF_MBZ)
    }
    predicate IsNull() {
      page == 0 && len == 0 && flags == EF_MBO
    }
  }

  const NULL_EXTENT: Extent := Extent(0, 0, EF_MBO)

  function EncodeExtent(e: Extent): (r: seq<byte>)
    ensures |r| == EXTENT_SIZE
  {
    LE64(e.page) + LE32(e.len) + LE32(e.flags)
  }

  function DecodeExtent(s: seq<byte>): Extent
    requires |s| == EXTENT_SIZE
  {
    Extent(Get64(s[0..8]), Get32(s[8..12]), Get32(s[12..16]))
  }

  lemma {:induction false} ExtentRoundTrip(e: Extent)
    ensures DecodeExtent(EncodeExtent(e)) == e
  {
    var s := EncodeExtent(e);
    assert s[0..8] == LE64(e.page);
    assert s[8..12] == LE32(e.len);
    assert s[12..16] == LE32(e.flags);
    Get64LE64(e.page);
    Get32LE32(e.len);
    Get32LE32(e.flags);
  }

  lemma {:induction false} ExtentBytesRoundTrip(s: seq<byte>)
    requires |s| == EXTENT_SIZE
    ensures EncodeExtent(DecodeExtent(s)) == s
  {
    LE64Get64(s[0..8]);
    LE32Get32(s[8..12]);
    LE32Get32(s[12..16]);
    assert s == s[0..8] + s[8..12] + s[12..16];
  }

  /** Extent::valid with the flag bits read positionally; the header bit
      plays no part. */
  lemma ExtentValidIff(e: Extent)
    ensures e.Valid() <==>
      e.page != 0 && e.len != 0 && e.flags >= 0x8000_0000 && e.flags % 0x8000_0000 < 0x4000_0000
  {
    TopBits32(e.flags);
  }

  /** Setting the header bit of an extent does not change its validity. */
  lemma ExtentValidIgnoresHdr(e: Extent)
    requires !HasFlag(e.flags, EF_HDR)
    ensures e.flags + EF_HDR < U32_LIMIT
    ensures e.(flags := e.flags + EF_HDR).Valid() == e.Valid()
  {
    var f := e.flags;
    var q := f / EF_HDR;
    assert q % 2 == 0;
    assert f == q * EF_HDR + f % EF_HDR;
    assert f + EF_HDR == (q + 1) * EF_HDR + f % EF_HDR;
    assert (f + EF_HDR) / EF_HDR == q + 1;
    assert q < 8;
    assert f / EF_MBZ == q / 2 && (f + EF_HDR) / EF_MBZ == q / 2;
    assert f / EF_MBO == q / 4 && (f + EF_HDR) / EF_MBO == q / 4;
  }

  /** A null extent (no allocation) is never a valid one. */
  lemma NullIsNotValid(e: Extent)
    ensures e.IsNull() ==> !e.Valid()
  {
  }

  /* ---------------- Inode table header ---------------- */

  /** Serves both as the table header and as each entry's header. */
  datatype InodeTableHdr = InodeTableHdr(magic: Magic, itLen: u32, itFlags: u32)
  {
    predicate Valid() {
      && HasFlag(itFlags, ITF_MBO) && !HasFlag(itFlags, ITF_MBZ)
      && magic == (if HasFlag(itFlags, ITF_HDR) then INOTAB_MAGIC else INOTABENT_MAGIC)
    }
  }

  function EncodeInodeTableHdr(h: InodeTableHdr): (r: seq<byte>)
    ensures |r| == INOTAB_HDR_SIZE
  {
    h.magic + LE32(h.itLen) + LE32(h.itFlags)
  }

  function DecodeInodeTableHdr(s: seq<byte>): InodeTableHdr
    requires |s| == INOTAB_HDR_SIZE
  {
    InodeTableHdr(s[0..8], Get32(s[8..12]), Get32(s[12..16]))
  }

  lemma {:induction false} InodeTableHdrRoundTrip(h: InodeTableHdr)
    ensures DecodeInodeTableHdr(EncodeInodeTableHdr(h)) == h
  {
    var s := EncodeInodeTableHdr(h);
    assert s[8..12] == LE32(h.itLen);
    assert s[12..16] == LE32(h.itFlags);
    Get32LE32(h.itLen);
    Get32LE32(h.itFlags);
  }

  /** The entry count is not checked; the magic expected depends on the
      header bit. */
  lemma InodeTableHdrValidIff(h: InodeTableHdr)
    ensures h.Valid() <==>
      && h.itFlags >= 0x8000_0000 && h.itFlags % 0x8000_0000 < 0x4000_0000
      && (HasFlag(h.itFlags, ITF_HDR) ==> h.magic == INOTAB_MAGIC)
      && (!HasFlag(h.itFlags, ITF_HDR) ==> h.magic == INOTABENT_MAGIC)
  {
    TopBits32(h.itFlags);
  }

  /* ---------------- Directory header ---------------- */

  datatype DirectoryHdr = DirectoryHdr(magic: Magic, dLen: u32, dFlags: u32)
  {
    predicate Valid() {
      HasFlag(dFlags, DF_MBO) && !HasFlag(dFlags, DF_MBZ) && magic == DIR_MAGIC
    }
  }

  function EncodeDirectoryHdr(h: DirectoryHdr): (r: seq<byte>)
    ensures |r| == DIR_HDR_SIZE
  {
    h.magic + LE32(h.dLen) + LE32(h.dFlags)
  }

  function DecodeDirectoryHdr(s: seq<byte>): DirectoryHdr
    requires |s| == DIR_HDR_SIZE
  {
    DirectoryHdr(s[0..8], Get32(s[8..12]), Get32(s[12..16]))
  }

  lemma {:induction false} DirectoryHdrRoundTrip(h: DirectoryHdr)
    ensures DecodeDirectoryHdr(EncodeDirectoryHdr(h)) == h
  {
    var s := EncodeDirectoryHdr(h);
    assert s[8..12] == LE32(h.dLen);
    assert s[12..16] == LE32(h.dFlags);
    Get32LE32(h.dLen);
    Get32LE32(h.dFlags);
  }

  lemma DirectoryHdrValidIff(h: DirectoryHdr)
    ensures h.Valid() <==>
      h.dFlags >= 0x8000_0000 && h.dFlags % 0x8000_0000 < 0x4000_0000 && h.magic == DIR_MAGIC
  {
    TopBits32(h.dFlags);
  }

  /* ---------------- Directory entry ---------------- */

  datatype DirectoryEnt = DirectoryEnt(magic: Magic, deFlags: u32, deKeyLen: u32, deValLen: u32, deIno: u32)
  {
    /** dType(): the low four bits of the flags */
    function DType(): (t: nat)
      ensures t < 16
    {
      deFlags % 16
    }

    /** valid() with the largest admitted type tag as a parameter */
    predicate ValidUpTo(last: nat) {
      HasFlag(deFlags, DF_MBO) && !HasFlag(deFlags, DF_MBZ) && DType() <= last
        && magic == DIRENT_MAGIC
    }

    /** valid() as the header defines it, with DE__LAST = DE_KEY */
    predicate Valid() {
      ValidUpTo(DE_LAST)
    }
  }

  function EncodeDirectoryEnt(d: DirectoryEnt): (r: seq<byte>)
    ensures |r| == DIR_ENT_SIZE
  {
    d.magic + LE32(d.deFlags) + LE32(d.deKeyLen) + LE32(d.deValLen) + LE32(d.deIno)
  }

  function DecodeDirectoryEnt(s: seq<byte>): DirectoryEnt
    requires |s| == DIR_ENT_SIZE
  {
    DirectoryEnt(s[0..8], Get32(s[8..12]), Get32(s[12..16]), Get32(s[16..20]), Get32(s[20..24]))
  }

  lemma {:induction false} DirectoryEntRoundTrip(d: DirectoryEnt)
    ensures DecodeDirectoryEnt(EncodeDirectoryEnt(d)) == d
  {
    var s := EncodeDirectoryEnt(d);
    assert s[8..12] == LE32(d.deFlags);
    assert s[12..16] == LE32(d.deKeyLen);
    assert s[16..20] == LE32(d.deValLen);
    assert s[20..24] == LE32(d.deIno);
    Get32LE32(d.deFlags);
    Get32LE32(d.deKeyLen);
    Get32LE32(d.deValLen);
    Get32LE32(d.deIno);
  }

  /** The flags word the encoder writes for an entry of type t (DF_MBO | t):
      valid up to `last` exactly when t <= last, and its type reads back as t. */
  lemma EntryFlagsOf(t: nat, last: nat)
    requires t < 16
    ensures DF_MBO + t < U32_LIMIT
    ensures (DF_MBO + t) % 16 == t
    ensures HasFlag(DF_MBO + t, DF_MBO) && !HasFlag(DF_MBO + t, DF_MBZ)
    ensures DirectoryEnt(DIRENT_MAGIC, DF_MBO + t, 0, 0, 0).ValidUpTo(last) <==> t <= last
  {
    assert (DF_MBO + t) / DF_MBO == 1;
    assert (DF_MBO + t) / DF_MBZ == 2;
  }

  /** Because DE__LAST is DE_KEY, valid() admits only the tags 0, 1 and 2:
      a KEY_VALUE entry (tag 3) is always rejected. */
  lemma DirectoryEntValidTags(d: DirectoryEnt)
    ensures d.Valid() ==> d.DType() in {DE_NONE, DE_DIR, DE_KEY}
    ensures d.DType() == DE_KEY_VALUE ==> !d.Valid()
  {
  }
}

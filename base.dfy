/** Fixed-width integers, the little-endian byte codec every on-disk record
    uses, single-bit flag tests, and the error conditions the store raises. */
module Base {

  type byte = x: int | 0 <= x < 256

  const U32_LIMIT: nat := 0x1_0000_0000
  const U64_LIMIT: nat := 0x1_0000_0000_0000_0000

  type u32 = x: nat | x < 0x1_0000_0000
  type u64 = x: nat | x < 0x1_0000_0000_0000_0000

  function Min(a: nat, b: nat): nat { if a <= b then a else b }
  function Max(a: nat, b: nat): nat { if a <= b then b else a }

  /** n zero bytes, as std::vector::resize and memset produce them */
  function Zeros(n: nat): (r: seq<byte>)
    ensures |r| == n && forall i :: 0 <= i < n ==> r[i] == 0
  {
    seq(n, _ => 0)
  }

  /** n pages of pg bytes, pg * n, spelled out as a sum: byte offsets built
      from it stay linear, which keeps the proofs over page runs cheap. */
  function PageBytes(pg: nat, n: nat): nat {
    if n == 0 then 0 else pg + PageBytes(pg, n - 1)
  }

  lemma {:induction false} PageBytesIsProduct(pg: nat, n: nat)
    ensures PageBytes(pg, n) == pg * n
  {
    if n > 0 {
      PageBytesIsProduct(pg, n - 1);
    }
  }

  lemma {:induction false} PageBytesAdd(pg: nat, a: nat, b: nat)
    ensures PageBytes(pg, a + b) == PageBytes(pg, a) + PageBytes(pg, b)
    decreases b
  {
    if b > 0 {
      PageBytesAdd(pg, a, b - 1);
    }
  }

  lemma ConcatAssoc<T>(a: seq<T>, b: seq<T>, c: seq<T>)
    ensures a + b + c == a + (b + c)
  {
  }

  lemma TakeConcat<T>(a: seq<T>, b: seq<T>)
    ensures (a + b)[..|a|] == a
  {
  }

  lemma DropDrop<T>(s: seq<T>, i: nat, j: nat)
    requires i + j <= |s|
    ensures s[i..][j..] == s[i + j..]
  {
  }

  /** The 4-byte little-endian image of x (the bytes htole32 leaves in
      memory). */
  function LE32(x: u32): (r: seq<byte>)
    ensures |r| == 4
  {
    [x % 0x100, x / 0x100 % 0x100, x / 0x1_0000 % 0x100, x / 0x100_0000]
  }

  /** The value 4 little-endian bytes stand for (le32toh). */
  function Get32(s: seq<byte>): (r: u32)
    requires |s| == 4
  {
    s[0] as nat + 0x100 * s[1] as nat + 0x1_0000 * s[2] as nat + 0x100_0000 * s[3] as nat
  }

  /** The 8-byte little-endian image of x: its low word, then its high word. */
  function LE64(x: u64): (r: seq<byte>)
    ensures |r| == 8
  {
    LE32(x % U32_LIMIT) + LE32(x / U32_LIMIT)
  }

  function Get64(s: seq<byte>): (r: u64)
    requires |s| == 8
  {
    Get32(s[..4]) + U32_LIMIT * Get32(s[4..])
  }

  lemma Get32LE32(x: u32)
    ensures Get32(LE32(x)) == x
  {
    var q1, q2 := x / 0x100, x / 0x1_0000;
    assert x == x % 0x100 + 0x100 * q1;
    assert q1 == q1 % 0x100 + 0x100 * (q1 / 0x100) && q1 / 0x100 == q2;
    assert q2 == q2 % 0x100 + 0x100 * (q2 / 0x100) && q2 / 0x100 == x / 0x100_0000;
  }

  lemma LE32Get32(s: seq<byte>)
    requires |s| == 4
    ensures LE32(Get32(s)) == s
  {
    var v := Get32(s);
    var b0, b1, b2, b3: nat := s[0], s[1], s[2], s[3];
    var w := b1 + 0x100 * b2 + 0x1_0000 * b3;
    assert v == b0 + 0x100 * w;
    assert v % 0x100 == b0 && v / 0x100 == w;
    assert w % 0x100 == b1 && w / 0x100 == b2 + 0x100 * b3;
    assert v / 0x1_0000 == w / 0x100 && v / 0x100_0000 == w / 0x1_0000;
  }

  lemma Get64LE64(x: u64)
    ensures Get64(LE64(x)) == x
  {
    var s := LE64(x);
    assert s[..4] == LE32(x % U32_LIMIT) && s[4..] == LE32(x / U32_LIMIT);
    Get32LE32(x % U32_LIMIT);
    Get32LE32(x / U32_LIMIT);
  }

  lemma LE64Get64(s: seq<byte>)
    requires |s| == 8
    ensures LE64(Get64(s)) == s
  {
    var lo, hi := Get32(s[..4]), Get32(s[4..]);
    var v := lo + U32_LIMIT * hi;
    assert v % U32_LIMIT == lo && v / U32_LIMIT == hi;
    LE32Get32(s[..4]);
    LE32Get32(s[4..]);
    assert s == s[..4] + s[4..];
  }

  /** `x & flag` is nonzero, for a flag that is a single bit. */
  predicate HasFlag(x: nat, flag: nat)
    requires flag > 0
  {
    (x / flag) % 2 == 1
  }

  /** Every condition the store reports by throwing std::runtime_error. */
  datatype Error =
    // page file
    | OpenFailed | SeekFailed | WriteFailed | SyncFailed | ShortRead | ShortWrite
    // superblock and database options
    | InvalidReadWriteOptions | InvalidCreateWriteOptions | SuperblockInvalid
    // extent lists
    | ExtListInvalidHdrPage | ExtListInvalidHdrFlags | ExtListInvalidPage
    | ExtListInvalidFlags | ExtListExceedsMax | ExtListBadLength
    // inode table
    | InodeTableHdrShortRead | InodeTableInvalidHeader | InodeTableInvalidLength
    | InodeTableEntShortRead | InodeTableEntInvalid | InodeTableExtShortRead
    | InodeTableExtInvalid
    // directory
    | DirHdrShortRead | DirHdrCorrupted | DirTruncated | DirEntTruncated
    | DirEntCorrupted | InvalidDirentType | InvalidDirentKeySize
    | InvalidDirentKeyEndSize | InvalidDirentValueSize

  datatype Status = Ok | Fail(error: Error)
}

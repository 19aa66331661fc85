/** The page file: page-addressed reads and writes over a file descriptor,
    with page-count tracking. The file behind the descriptor is an in-memory
    device: whether it exists, its bytes, and how many bytes it can hold
    (a write that reaches past that capacity comes back short). */
module PageFile {
  import opened Base

  datatype Access = ReadOnly | ReadWrite

  /** The open(2) flags the store uses: O_RDONLY or O_RDWR, optionally O_CREAT. */
  datatype OpenFlags = OpenFlags(access: Access, create: bool)

  const O_RDONLY: OpenFlags := OpenFlags(ReadOnly, false)

  /** The descriptor number the device hands out on a successful open. */
  const DEVICE_FD: int := 3

  /** Everything a File method reads or changes: the object's own fields and
      the device behind it. */
  datatype FileState = FileState(
    fd: int,
    flags: OpenFlags,
    pageSize: nat,
    curFpos: int,
    nPages: nat,
    present: bool,
    data: seq<byte>,
    capacity: nat)
  {
    predicate IsOpen() { fd >= 0 }
  }

  datatype Step = Step(state: FileState, status: Status)
  datatype ReadOutcome = ReadOutcome(state: FileState, buf: seq<byte>, status: Status)

  /* ---------------- the device ---------------- */

  /** What read(2) of n bytes at offset off returns: fewer at end of file. */
  function Fetch(data: seq<byte>, off: nat, n: nat): (r: seq<byte>)
    ensures |r| <= n
    ensures |r| == n <==> n == 0 || off + n <= |data|
    ensures r != [] ==> off + |r| <= |data| && r == data[off..off + |r|]
  {
    if off >= |data| then [] else data[off..Min(off + n, |data|)]
  }

  /** How many of n bytes written at offset off fit below the capacity. */
  function Room(off: nat, n: nat, capacity: nat): (w: nat)
    ensures w <= n
    ensures w == n <==> n == 0 || off + n <= capacity
  {
    if off >= capacity then 0 else Min(n, capacity - off)
  }

  /** The device's bytes after write(2) of bytes at offset off; a gap past the
      old end reads back as zeros. */
  function Store(data: seq<byte>, off: nat, bytes: seq<byte>): (r: seq<byte>)
    ensures bytes != [] ==> |r| == Max(|data|, off + |bytes|)
    ensures bytes == [] ==> r == data
  {
    if bytes == [] then data
    else
      var padded := if off > |data| then data + Zeros(off - |data|) else data;
      padded[..off] + bytes + (if off + |bytes| < |padded| then padded[off + |bytes|..] else [])
  }

  /** A write puts its bytes where a later read at the same offset finds them. */
  lemma StoreThenFetch(data: seq<byte>, off: nat, bytes: seq<byte>)
    ensures Fetch(Store(data, off, bytes), off, |bytes|) == bytes
  {
  }

  /** A write leaves every byte outside its range as it was (or zero, in a
      gap it opened past the old end). */
  lemma StoreElsewhere(data: seq<byte>, off: nat, bytes: seq<byte>, i: nat)
    requires i < |Store(data, off, bytes)| && (i < off || off + |bytes| <= i)
    ensures Store(data, off, bytes)[i] == if i < |data| then data[i] else 0
  {
  }

  /** The bytes below a write's offset stay as they were. */
  lemma StorePrefix(data: seq<byte>, off: nat, bytes: seq<byte>, k: nat)
    requires k <= off && k <= |data|
    ensures k <= |Store(data, off, bytes)| && Store(data, off, bytes)[..k] == data[..k]
  {
  }

  /** A write's bytes sit at its offset. */
  lemma StoreAt(data: seq<byte>, off: nat, bytes: seq<byte>)
    requires bytes != []
    ensures off + |bytes| <= |Store(data, off, bytes)|
    ensures Store(data, off, bytes)[off..off + |bytes|] == bytes
  {
    StoreThenFetch(data, off, bytes);
  }

  /* ---------------- File operations as state transitions ---------------- */

  /** setPageCount(): whole pages in the file, or 0 when it is not open. */
  function PageCount(s: FileState): nat
    requires s.pageSize > 0
  {
    if s.fd < 0 then 0 else |s.data| / s.pageSize
  }

  function OpenStep(s: FileState, flags: OpenFlags, pageSize: nat): Step
    requires pageSize > 0
  {
    if !s.present && !flags.create then
      Step(s.(fd := -1, flags := flags, pageSize := pageSize), Fail(OpenFailed))
    else
      var t := s.(fd := DEVICE_FD, flags := flags, pageSize := pageSize, curFpos := 0,
                  present := true, data := if s.present then s.data else []);
      Step(t.(nPages := PageCount(t)), Ok)
  }

  function SetPageSizeStep(s: FileState, sz: nat): FileState
    requires sz > 0
  {
    var t := s.(pageSize := sz);
    t.(nPages := PageCount(t))
  }

  function CloseStep(s: FileState): FileState {
    if s.fd < 0 then s else s.(fd := -1)
  }

  function ReadStep(s: FileState, buf: seq<byte>, index: nat, count: nat): (r: ReadOutcome)
    requires |buf| >= PageBytes(s.pageSize, count)
    ensures |r.buf| == |buf| && r.state.(curFpos := s.curFpos) == s
  {
    if s.fd < 0 then ReadOutcome(s, buf, Fail(SeekFailed))
    else
      var off := PageBytes(s.pageSize, index);
      var io := PageBytes(s.pageSize, count);
      var got := Fetch(s.data, off, io);
      var out := got + buf[|got|..];
      if |got| != io then ReadOutcome(s, out, Fail(ShortRead))
      else ReadOutcome(s.(curFpos := off + io), out, Ok)
  }

  /** A read that succeeds fetched all count pages from the device, put
      them at the front of the buffer and left the cursor right after them. */
  lemma ReadStepOk(s: FileState, buf: seq<byte>, index: nat, count: nat)
    requires |buf| >= PageBytes(s.pageSize, count)
    requires ReadStep(s, buf, index, count).status == Ok
    ensures var off, n := PageBytes(s.pageSize, index), PageBytes(s.pageSize, count);
      var r, got := ReadStep(s, buf, index, count), Fetch(s.data, off, n);
      && |got| == n && r.buf == got + buf[n..] && r.state == s.(curFpos := off + n)
  {
  }

  function WriteStep(s: FileState, buf: seq<byte>, index: nat, count: nat): (r: Step)
    requires |buf| >= PageBytes(s.pageSize, count)
    ensures r.state.(curFpos := s.curFpos, nPages := s.nPages, data := s.data) == s
  {
    if s.fd < 0 then Step(s, Fail(SeekFailed))
    else if s.flags.access == ReadOnly then Step(s, Fail(WriteFailed))
    else
      var off := PageBytes(s.pageSize, index);
      var io := PageBytes(s.pageSize, count);
      var w := Room(off, io, s.capacity);
      var t := s.(data := Store(s.data, off, buf[..w]));
      if w == 0 && io > 0 then Step(s, Fail(WriteFailed))
      else if w != io then Step(t, Fail(ShortWrite))
      else Step(t.(curFpos := off + io, nPages := Max(s.nPages, index + count)), Ok)
  }

  function SyncStep(s: FileState): Status {
    if s.fd < 0 then Fail(SyncFailed) else Ok
  }

  /* ---------------- what the transitions promise ---------------- */

  /** Opening fails exactly when the file is missing and O_CREAT is not given;
      otherwise the cursor is at 0 and the page count is the file's whole
      pages. */
  lemma OpenOutcome(s: FileState, flags: OpenFlags, pageSize: nat)
    requires pageSize > 0
    ensures var r := OpenStep(s, flags, pageSize);
      && (r.status == Ok <==> s.present || flags.create)
      && (r.status == Ok ==>
            r.state.IsOpen() && r.state.curFpos == 0
            && r.state.nPages == |r.state.data| / pageSize
            && (s.present ==> r.state.data == s.data))
      && (r.status != Ok ==> !r.state.IsOpen() && r.state.data == s.data)
  {
  }

  /** A read succeeds exactly when the file is open and holds every byte of
      the requested pages; the tracked page count plays no part. */
  lemma ReadOutcomeIff(s: FileState, buf: seq<byte>, index: nat, count: nat, n: nat)
    requires |buf| >= PageBytes(s.pageSize, count)
    ensures var r := ReadStep(s, buf, index, count);
      var off, io := PageBytes(s.pageSize, index), PageBytes(s.pageSize, count);
      && (r.status == Ok <==> s.IsOpen() && (io == 0 || off + io <= |s.data|))
      && (r.status == Ok && io > 0 ==>
            off + io <= |s.data| && r.buf == s.data[off .. off + io] + buf[io..])
      && (r.status == Ok ==> r.state.curFpos == off + io)
      && r.state.data == s.data && r.state.nPages == s.nPages
      && ReadStep(s.(nPages := n), buf, index, count).status == r.status
  {
  }

  /** A read changes the buffer only in its first pgsz * count bytes, and on
      success those are the device's bytes at index * pgsz. */
  lemma ReadStepBytes(s: FileState, buf: seq<byte>, index: nat, count: nat)
    requires |buf| >= PageBytes(s.pageSize, count)
    ensures var r := ReadStep(s, buf, index, count);
      var off, io := PageBytes(s.pageSize, index), PageBytes(s.pageSize, count);
      && r.buf[io..] == buf[io..]
      && (r.status == Ok && io > 0 ==> off + io <= |s.data| && r.buf[..io] == s.data[off..off + io])
  {
  }

  /** A successful write raises the page count to cover the pages written
      and never lowers it. A failed one says why: a closed descriptor
      fails the seek; a read-only descriptor, or a device with no room left
      at the offset, fails the write itself and leaves the state alone; a
      write that stores only some of the bytes is short. */
  lemma WritePageCount(s: FileState, buf: seq<byte>, index: nat, count: nat)
    requires |buf| >= PageBytes(s.pageSize, count)
    ensures var r := WriteStep(s, buf, index, count);
      var off, io := PageBytes(s.pageSize, index), PageBytes(s.pageSize, count);
      && (r.status == Ok <==>
            s.IsOpen() && s.flags.access == ReadWrite
            && (count == 0 || s.pageSize == 0 || off + io <= s.capacity))
      && (!s.IsOpen() ==> r == Step(s, Fail(SeekFailed)))
      && (s.IsOpen() && s.flags.access == ReadOnly ==> r == Step(s, Fail(WriteFailed)))
      && ((s.IsOpen() && s.flags.access == ReadWrite && io > 0 && off >= s.capacity)
            ==> r == Step(s, Fail(WriteFailed)))
      && ((s.IsOpen() && s.flags.access == ReadWrite && io > 0 && off < s.capacity < off + io)
            ==> r.status == Fail(ShortWrite) && r.state.nPages == s.nPages)
      && (r.status == Ok ==> r.state.nPages == Max(s.nPages, index + count))
      && r.state.nPages >= s.nPages
  {
    if s.IsOpen() && s.flags.access == ReadWrite {
      PageBytesIsProduct(s.pageSize, count);
    }
  }

  /** Writing page 0 of an empty open file leaves it one page long. */
  lemma FirstPageWrite(s: FileState, buf: seq<byte>)
    requires s.IsOpen() && s.flags.access == ReadWrite && s.nPages == 0
    requires s.pageSize <= s.capacity && |buf| >= s.pageSize
    ensures WriteStep(s, buf, 0, 1).status == Ok
    ensures WriteStep(s, buf, 0, 1).state.nPages == 1
  {
  }

  /** Pages written are read back byte for byte. */
  lemma WriteThenRead(s: FileState, buf: seq<byte>, index: nat, count: nat, buf2: seq<byte>)
    requires |buf| >= PageBytes(s.pageSize, count) && |buf2| >= PageBytes(s.pageSize, count)
    requires WriteStep(s, buf, index, count).status == Ok
    ensures var t := WriteStep(s, buf, index, count).state;
      var r := ReadStep(t, buf2, index, count);
      r.status == Ok && r.buf[..PageBytes(s.pageSize, count)] == buf[..PageBytes(s.pageSize, count)]
  {
    var off := PageBytes(s.pageSize, index);
    var io := PageBytes(s.pageSize, count);
    var t := WriteStep(s, buf, index, count).state;
    assert Room(off, io, s.capacity) == io;
    StoreThenFetch(s.data, off, buf[..io]);
    assert t.data == Store(s.data, off, buf[..io]);
    assert Fetch(t.data, off, io) == buf[..io];
  }

  /** Closing twice is closing once. */
  lemma CloseIdempotent(s: FileState)
    ensures CloseStep(CloseStep(s)) == CloseStep(s)
    ensures !CloseStep(s).IsOpen() && CloseStep(s).data == s.data
  {
  }

  /* ---------------- the File object ---------------- */

  class File {
    var fd: int
    var flags: OpenFlags
    var pageSize: nat
    var curFpos: int
    var nPages: nat
    // the device behind the descriptor
    var present: bool
    var data: seq<byte>
    var capacity: nat

    function State(): FileState
      reads this
    {
      FileState(fd, flags, pageSize, curFpos, nPages, present, data, capacity)
    }

    predicate IsOpen()
      reads this
    {
      fd >= 0
    }

    function Size(): nat
      reads this
    {
      nPages
    }

    /** File(): closed, O_RDONLY, 4096-byte pages, cursor -1. The page count
        is left unset by the source; it starts at 0 here. */
    constructor (present: bool, data: seq<byte>, capacity: nat)
      ensures State() == FileState(-1, O_RDONLY, 4096, -1, 0, present, data, capacity)
    {
      this.fd := -1;
      this.flags := O_RDONLY;
      this.pageSize := 4096;
      this.curFpos := -1;
      this.nPages := 0;
      this.present := present;
      this.data := data;
      this.capacity := capacity;
    }

    /** open(filename, flags, page_size) */
    method Open(flags: OpenFlags, pageSize: nat) returns (st: Status)
      requires fd < 0 && pageSize > 0
      modifies this
      ensures Step(State(), st) == OpenStep(old(State()), flags, pageSize)
    {
      this.flags := flags;
      this.pageSize := pageSize;
      // ::open
      if !present && !flags.create {
        fd := -1;
        return Fail(OpenFailed);
      }
      if !present {
        present := true;
        data := [];
      }
      fd := DEVICE_FD;
      curFpos := 0;
      SetPageCount();
      st := Ok;
    }

    method SetPageCount()
      requires pageSize > 0
      modifies this`nPages
      ensures State() == old(State()).(nPages := PageCount(old(State())))
    {
      if !IsOpen() {
        nPages := 0;
      } else {
        nPages := |data| / pageSize;
      }
    }

    method SetPageSize(sz: nat)
      requires sz > 0
      modifies this
      ensures State() == SetPageSizeStep(old(State()), sz)
    {
      pageSize := sz;
      SetPageCount();
    }

    method Close()
      modifies this
      ensures State() == CloseStep(old(State()))
    {
      if fd < 0 {
        return;
      }
      fd := -1;
    }

    /** read(buf, index, page_count): the pages land at the front of buf. */
    method Read(buf: seq<byte>, index: nat, count: nat) returns (out: seq<byte>, st: Status)
      requires |buf| >= PageBytes(pageSize, count)
      modifies this
      ensures ReadOutcome(State(), out, st) == ReadStep(old(State()), buf, index, count)
    {
      if fd < 0 {
        // lseek on a closed descriptor
        return buf, Fail(SeekFailed);
      }
      var lrc := index * pageSize;
      var ioSize := pageSize * count;
      PageBytesIsProduct(pageSize, index);
      PageBytesIsProduct(pageSize, count);
      var got := Fetch(data, lrc, ioSize);
      out := got + buf[|got|..];
      if |got| != ioSize {
        return out, Fail(ShortRead);
      }
      curFpos := lrc + ioSize;
      st := Ok;
    }

    /** write(buf, index, page_count) */
    method Write(buf: seq<byte>, index: nat, count: nat) returns (st: Status)
      requires |buf| >= PageBytes(pageSize, count)
      modifies this
      ensures Step(State(), st) == WriteStep(old(State()), buf, index, count)
    {
      if fd < 0 {
        return Fail(SeekFailed);
      }
      if flags.access == ReadOnly {
        // write(2) on a descriptor opened read-only
        return Fail(WriteFailed);
      }
      var lrc := index * pageSize;
      var ioSize := pageSize * count;
      PageBytesIsProduct(pageSize, index);
      PageBytesIsProduct(pageSize, count);
      var written := Room(lrc, ioSize, capacity);
      if written == 0 && ioSize > 0 {
        // no room at all: write(2) fails (ENOSPC) instead of coming up short
        return Fail(WriteFailed);
      }
      data := Store(data, lrc, buf[..written]);
      if written != ioSize {
        return Fail(ShortWrite);
      }
      curFpos := lrc + ioSize;
      if index + count > nPages {
        nPages := index + count;
      }
      st := Ok;
    }

    /** sync(): the device is always durable, so only a closed descriptor fails. */
    method Sync() returns (st: Status)
      ensures st == SyncStep(State())
    {
      st := if fd < 0 then Fail(SyncFailed) else Ok;
    }
  }
}

/** Inodes: extent lists mapped onto a page buffer, and the inode table's
    byte codec. */
module Inodes {
  import opened Base
  import opened Structs
  import opened PageFile

  /** An inode: either inline (e_ref 0, at most one extent kept in the table)
      or external (e_ref names the page holding its extent list, e_alloc the
      pages reserved for that list). */
  datatype Inode = Inode(eRef: u64, eAlloc: u32, ext: seq<Extent>, unused: bool)
  {
    /** size(): the pages the extents cover. */
    function Size(): nat {
      ExtentPages(ext)
    }

    /** The 32-bit page count read() and write() work with. */
    function SizeWord(): nat {
      Size() % U32_LIMIT
    }

    /** read(f, pagebuf): grow the buffer to the inode's size, then read each
        extent into it, back to back. */
    method Read(f: File, pagebuf: seq<byte>) returns (out: seq<byte>, st: Status)
      requires PageBytes(f.pageSize, Size()) <= Max(|pagebuf|, PageBytes(f.pageSize, SizeWord()))
      modifies f
      ensures ReadOutcome(f.State(), out, st) == ReadInode(old(f.State()), this, pagebuf)
    {
      var pgsz := f.pageSize;
      var nPages := SizeWord();
      var want := pgsz * nPages;
      PageBytesIsProduct(pgsz, nPages);
      out := pagebuf;
      if |out| < want {
        out := out + Zeros(want - |out|);
      }
      ExtentBytesArePages(pgsz, ext);
      out, st := ReadExtents(f, ext, out);
    }

    /** write(f, pagebuf): pagebuf.size()/pgsz pages written across the
        extents in order, the last extent used only as far as needed. */
    method Write(f: File, pagebuf: seq<byte>) returns (st: Status)
      requires f.pageSize > 0
      requires |pagebuf| % f.pageSize == 0
      requires |pagebuf| <= f.pageSize * SizeWord()
      modifies f
      ensures Step(f.State(), st) == WriteInode(old(f.State()), this, pagebuf)
    {
      var pgsz := f.pageSize;
      var outPages: nat := |pagebuf| / pgsz;
      PlanBytes(pgsz, ext, outPages);
      DivBound(|pagebuf|, pgsz);
      assert ext[0..] == ext;
      var s0 := f.State();
      var p: nat := 0;
      var i := 0;
      while i < |ext| && outPages > 0
        invariant i <= |ext|
        invariant f.pageSize == pgsz
        invariant p + RunBytes(pgsz, Plan(ext[i..], outPages)) <= |pagebuf|
        invariant WriteInode(s0, this, pagebuf)
                  == WriteRuns(f.State(), pagebuf, Plan(ext[i..], outPages), p)
      {
        var e := ext[i];
        var writePages: nat := e.len;
        if writePages > outPages {
          writePages := outPages;
        }
        assert ext[i..][1..] == ext[i + 1..] && ext[i..][0] == e;
        var wst := f.Write(pagebuf[p..], e.page, writePages);
        if wst != Ok {
          return wst;
        }
        outPages := outPages - writePages;
        PageBytesIsProduct(pgsz, writePages);
        p := p + pgsz * writePages;
        i := i + 1;
      }
      st := Ok;
    }
  }

  /** A default-constructed inode. */
  const EMPTY_INODE: Inode := Inode(0, 0, [], false)

  /** Pages covered by a list of extents. */
  function ExtentPages(ext: seq<Extent>): nat {
    if ext == [] then 0 else ext[0].len + ExtentPages(ext[1..])
  }

  /** Bytes covered by a list of extents, for pages of pg bytes. */
  function ExtentBytes(pg: nat, ext: seq<Extent>): nat {
    if ext == [] then 0 else PageBytes(pg, ext[0].len) + ExtentBytes(pg, ext[1..])
  }

  lemma {:induction false} ExtentBytesArePages(pg: nat, ext: seq<Extent>)
    ensures ExtentBytes(pg, ext) == PageBytes(pg, ExtentPages(ext))
  {
    if ext != [] {
      ExtentBytesArePages(pg, ext[1..]);
      PageBytesAdd(pg, ext[0].len, ExtentPages(ext[1..]));
    }
  }

  /** The extents before extent i plus those from it on make up the whole. */
  lemma {:induction false} ExtentBytesSplit(pg: nat, ext: seq<Extent>, i: nat)
    requires i <= |ext|
    ensures ExtentBytes(pg, ext[..i]) + ExtentBytes(pg, ext[i..]) == ExtentBytes(pg, ext)
  {
    if i > 0 {
      ExtentBytesSplit(pg, ext[1..], i - 1);
      assert ext[..i][1..] == ext[1..][..i - 1];
      assert ext[1..][i - 1..] == ext[i..];
    } else {
      assert ext[i..] == ext;
    }
  }

  lemma DivBound(n: nat, d: nat)
    requires d > 0
    ensures PageBytes(d, n / d) <= n
  {
    PageBytesIsProduct(d, n / d);
  }

  /* ---------------- read ---------------- */

  /** std::vector::resize to at least n bytes, new bytes zero. */
  function Grown(buf: seq<byte>, n: nat): (r: seq<byte>)
    ensures |r| == Max(|buf|, n) && r[..|buf|] == buf
  {
    if |buf| < n then buf + Zeros(n - |buf|) else buf
  }

  /** The run c preceded by bytes already read. */
  function Behind(done: seq<byte>, c: Fetched): Fetched {
    c.(bytes := done + c.bytes)
  }

  /** What a run of reads returns: the bytes that came back, in order, how
      it ended, and where it left the file cursor. */
  datatype Fetched = Fetched(bytes: seq<byte>, status: Status, pos: int)

  lemma BehindConcat(done: seq<byte>, got: seq<byte>, rest: Fetched)
    ensures Behind(done, Fetched(got + rest.bytes, rest.status, rest.pos)) == Behind(done + got, rest)
  {
    ConcatAssoc(done, got, rest.bytes);
  }

  /** The extents' pages fetched one extent after the other, from a file in
      state s with the cursor at pos: a closed descriptor fails the first
      read, a short read keeps what it got and ends the run. */
  function FetchExtents(s: FileState, ext: seq<Extent>, pos: int): (r: Fetched)
    ensures |r.bytes| <= ExtentBytes(s.pageSize, ext)
    ensures r.status == Ok ==> |r.bytes| == ExtentBytes(s.pageSize, ext)
    decreases |ext|, 1
  {
    if ext == [] then Fetched([], Ok, pos) else FetchMore(s, ext, pos)
  }

  /** The read of the first extent, then the reads of the others. */
  function FetchMore(s: FileState, ext: seq<Extent>, pos: int): (r: Fetched)
    requires ext != []
    ensures |r.bytes| <= ExtentBytes(s.pageSize, ext)
    ensures r.status == Ok ==> |r.bytes| == ExtentBytes(s.pageSize, ext)
    decreases |ext|, 0
  {
    if s.fd < 0 then Fetched([], Fail(SeekFailed), pos)
    else
      var from, n := PageBytes(s.pageSize, ext[0].page), PageBytes(s.pageSize, ext[0].len);
      var got := Fetch(s.data, from, n);
      if |got| != n then Fetched(got, Fail(ShortRead), pos)
      else
        var rest := FetchExtents(s, ext[1..], from + n);
        Fetched(got + rest.bytes, rest.status, rest.pos)
  }

  /** A File::read of extent ext[0] into g at p that fails ends FetchMore
      the same way: same status, same cursor, the same bytes in front of
      the rest of g. */
  lemma ReadTurnFail(s: FileState, cur: int, g: seq<byte>, done: seq<byte>, p: nat, ext: seq<Extent>)
    requires ext != [] && p == |done| && p + ExtentBytes(s.pageSize, ext) <= |g|
    requires ReadStep(s.(curFpos := cur), g[p..], ext[0].page, ext[0].len).status != Ok
    ensures var r := ReadStep(s.(curFpos := cur), g[p..], ext[0].page, ext[0].len);
      var c := Behind(done, FetchMore(s, ext, cur));
      c.status == r.status && c.pos == r.state.curFpos && done + r.buf == c.bytes + g[|c.bytes|..]
  {
    var c := FetchMore(s, ext, cur);
    assert g[p..][|c.bytes|..] == g[p + |c.bytes|..];
    ConcatAssoc(done, c.bytes, g[p + |c.bytes|..]);
  }

  /** When the first extent's read is whole, FetchMore is that read's bytes
      followed by the run over the other extents from the cursor after it. */
  lemma FetchMoreWhole(s: FileState, ext: seq<Extent>, cur: int, done: seq<byte>)
    requires ext != [] && s.IsOpen()
    requires var from, n := PageBytes(s.pageSize, ext[0].page), PageBytes(s.pageSize, ext[0].len);
      |Fetch(s.data, from, n)| == n
    ensures var from, n := PageBytes(s.pageSize, ext[0].page), PageBytes(s.pageSize, ext[0].len);
      Behind(done, FetchMore(s, ext, cur))
        == Behind(done + Fetch(s.data, from, n), FetchExtents(s, ext[1..], from + n))
  {
    var from, n := PageBytes(s.pageSize, ext[0].page), PageBytes(s.pageSize, ext[0].len);
    var rest := FetchExtents(s, ext[1..], from + n);
    BehindConcat(done, Fetch(s.data, from, n), rest);
  }

  /** The buffer after that read: the bytes read so far, the n new ones,
      then g from p + n on. */
  lemma ReadTurnBuffer(g: seq<byte>, done: seq<byte>, p: nat, n: nat, rbuf: seq<byte>)
    requires p == |done| && p + n <= |g| && n <= |rbuf| && rbuf[n..] == g[p + n..]
    ensures done + rbuf == (done + rbuf[..n]) + g[p + n..]
  {
    assert rbuf == rbuf[..n] + rbuf[n..];
    ConcatAssoc(done, rbuf[..n], rbuf[n..]);
  }

  /** One turn of Inode::read's loop: extent e = ext[0] read into out at p,
      where out holds the bytes read so far and then the grown buffer g. */
  method ReadNext(f: File, ghost s0: FileState, ghost g: seq<byte>, ghost done: seq<byte>,
                  out: seq<byte>, p: nat, ghost ext: seq<Extent>, e: Extent)
      returns (out': seq<byte>, st: Status, ghost done': seq<byte>)
    requires ext != [] && e == ext[0]
    requires f.State() == s0.(curFpos := f.curFpos)
    requires p == |done| && p + ExtentBytes(s0.pageSize, ext) <= |g| && out == done + g[p..]
    modifies f
    ensures f.State() == s0.(curFpos := f.curFpos)
    ensures var c := Behind(done, FetchMore(s0, ext, old(f.curFpos)));
      if st != Ok then c.status == st && c.pos == f.curFpos && out' == c.bytes + g[|c.bytes|..]
      else && c == Behind(done', FetchExtents(s0, ext[1..], f.curFpos))
           && |done'| == p + PageBytes(s0.pageSize, e.len) && out' == done' + g[|done'|..]
  {
    ghost var cur := f.curFpos;
    assert out[..p] == done && out[p..] == g[p..];
    var got;
    got, st := f.Read(out[p..], e.page, e.len);
    out' := out[..p] + got;
    if st == Ok {
      ReadStepOk(s0.(curFpos := cur), out[p..], e.page, e.len);
      FetchMoreWhole(s0, ext, cur, done);
      TakeConcat(Fetch(s0.data, PageBytes(s0.pageSize, e.page), PageBytes(s0.pageSize, e.len)),
                 out[p..][PageBytes(s0.pageSize, e.len)..]);
      DropDrop(g, p, PageBytes(s0.pageSize, e.len));
      ReadTurnBuffer(g, done, p, PageBytes(s0.pageSize, e.len), got);
      done' := done + got[..PageBytes(s0.pageSize, e.len)];
    } else {
      ReadTurnFail(s0, cur, g, done, p, ext);
      done' := done;
    }
  }

  /** The extents read one after the other into g from its front on: the
      bytes fetched replace g's first bytes, the cursor ends where the last
      read left it, and the status is that of the run. */
  function ReadExtentsInto(s: FileState, ext: seq<Extent>, g: seq<byte>): ReadOutcome
    requires ExtentBytes(s.pageSize, ext) <= |g|
  {
    var c := FetchExtents(s, ext, s.curFpos);
    ReadOutcome(s.(curFpos := c.pos), c.bytes + g[|c.bytes|..], c.status)
  }

  /** Inode::read as a transition of the file and the buffer: the buffer is
      grown to pgsz * size() bytes, then the extents land back to back at its
      front. */
  function ReadInode(s: FileState, ino: Inode, pagebuf: seq<byte>): ReadOutcome
    requires PageBytes(s.pageSize, ino.Size()) <= Max(|pagebuf|, PageBytes(s.pageSize, ino.SizeWord()))
  {
    ExtentBytesArePages(s.pageSize, ino.ext);
    ReadExtentsInto(s, ino.ext, Grown(pagebuf, PageBytes(s.pageSize, ino.SizeWord())))
  }

  /** The loop of Inode::read over a buffer g already grown. */
  method ReadExtents(f: File, ext: seq<Extent>, g: seq<byte>) returns (out: seq<byte>, st: Status)
    requires ExtentBytes(f.pageSize, ext) <= |g|
    modifies f
    ensures ReadOutcome(f.State(), out, st) == ReadExtentsInto(old(f.State()), ext, g)
  {
    ghost var s0 := f.State();
    var pgsz := f.pageSize;
    assert ext[0..] == ext;
    ghost var done: seq<byte> := [];
    out := g;
    var p: nat := 0;
    var i := 0;
    while i < |ext|
      invariant i <= |ext| && p == |done|
      invariant f.State() == s0.(curFpos := f.curFpos)
      invariant p + ExtentBytes(pgsz, ext[i..]) <= |g|
      invariant out == done + g[p..]
      invariant FetchExtents(s0, ext, s0.curFpos) == Behind(done, FetchExtents(s0, ext[i..], f.curFpos))
    {
      var e := ext[i];
      assert ext[i..][1..] == ext[i + 1..] && ext[i..][0] == e;
      var rst;
      ghost var done2;
      out, rst, done2 := ReadNext(f, s0, g, done, out, p, ext[i..], e);
      if rst != Ok {
        return out, rst;
      }
      PageBytesIsProduct(pgsz, e.len);
      done := done2;
      p := p + pgsz * e.len;
      i := i + 1;
    }
    assert done + [] == done;
    st := Ok;
  }

  /** `n` bytes at `at` in buf are the device bytes at `from`. */
  predicate Landed(buf: seq<byte>, data: seq<byte>, at: nat, from: nat, n: nat) {
    at + n <= |buf| && (n > 0 ==> from + n <= |data|)
    && forall k :: at <= k < at + n ==> buf[k] == data[from + (k - at)]
  }

  /** Extent e lies wholly inside the device's bytes (or is empty). */
  predicate InDevice(s: FileState, e: Extent) {
    var n := PageBytes(s.pageSize, e.len);
    n == 0 || PageBytes(s.pageSize, e.page) + n <= |s.data|
  }

  /** The buffer only grows, to max(size, pgsz * size()) bytes; the file
      itself is not changed, only its cursor; and the bytes past the
      extents' pages are the caller's (or the zeros of the growth). */
  lemma ReadInodeFrame(s: FileState, ino: Inode, pagebuf: seq<byte>)
    requires PageBytes(s.pageSize, ino.Size()) <= Max(|pagebuf|, PageBytes(s.pageSize, ino.SizeWord()))
    ensures var r := ReadInode(s, ino, pagebuf);
      var g := Grown(pagebuf, PageBytes(s.pageSize, ino.SizeWord()));
      && |r.buf| == Max(|pagebuf|, PageBytes(s.pageSize, ino.SizeWord())) >= |pagebuf|
      && r.state.(curFpos := s.curFpos) == s
      && r.buf[PageBytes(s.pageSize, ino.Size())..] == g[PageBytes(s.pageSize, ino.Size())..]
  {
    ExtentBytesArePages(s.pageSize, ino.ext);
    var g := Grown(pagebuf, PageBytes(s.pageSize, ino.SizeWord()));
    var c := FetchExtents(s, ino.ext, s.curFpos);
    var k := PageBytes(s.pageSize, ino.Size());
    assert (c.bytes + g[|c.bytes|..])[k..] == g[|c.bytes|..][k - |c.bytes|..];
  }

  /** A read of the extents succeeds exactly when there is none, or the file
      is open and every extent lies inside it. */
  lemma {:induction false} FetchExtentsOk(s: FileState, ext: seq<Extent>, pos: int)
    ensures FetchExtents(s, ext, pos).status == Ok
            <==> (ext == [] || s.IsOpen()) && forall i :: 0 <= i < |ext| ==> InDevice(s, ext[i])
    decreases |ext|
  {
    if ext != [] && s.IsOpen() {
      var from, n := PageBytes(s.pageSize, ext[0].page), PageBytes(s.pageSize, ext[0].len);
      FetchExtentsOk(s, ext[1..], from + n);
      assert forall i :: 1 <= i < |ext| ==> ext[i] == ext[1..][i - 1];
      if !InDevice(s, ext[0]) {
        assert |Fetch(s.data, from, n)| != n;
      }
    }
  }

  /** Bytes that landed in b still sit there once a is put in front of b,
      shifted by |a|; and bytes that landed in a stay put when b follows. */
  lemma LandedConcat(a: seq<byte>, b: seq<byte>, data: seq<byte>, at: nat, from: nat, n: nat)
    ensures Landed(b, data, at, from, n) ==> Landed(a + b, data, |a| + at, from, n)
    ensures Landed(a, data, at, from, n) ==> Landed(a + b, data, at, from, n)
  {
    if Landed(b, data, at, from, n) {
      forall k | |a| + at <= k < |a| + at + n
        ensures (a + b)[k] == data[from + (k - (|a| + at))]
      {
        assert (a + b)[k] == b[k - |a|];
      }
    }
  }

  /** Bytes that landed in b, seen in all = a + b at |a| further on. */
  lemma LandedShift(a: seq<byte>, b: seq<byte>, all: seq<byte>, data: seq<byte>,
                    at: nat, at2: nat, from: nat, n: nat)
    requires all == a + b && at2 == |a| + at && Landed(b, data, at, from, n)
    ensures Landed(all, data, at2, from, n)
  {
    LandedConcat(a, b, data, at, from, n);
  }

  /** Bytes that landed in a, seen in all = a + b at the same place. */
  lemma LandedFront(a: seq<byte>, b: seq<byte>, all: seq<byte>, data: seq<byte>, at: nat, from: nat, n: nat)
    requires all == a + b && Landed(a, data, at, from, n)
    ensures Landed(all, data, at, from, n)
  {
    LandedConcat(a, b, data, at, from, n);
  }

  /** The bytes of the first i extents are those of the first one plus
      those of the next i - 1. */
  lemma ExtentBytesPrefix(pg: nat, ext: seq<Extent>, i: nat)
    requires 0 < i <= |ext|
    ensures ExtentBytes(pg, ext[..i]) == PageBytes(pg, ext[0].len) + ExtentBytes(pg, ext[1..][..i - 1])
  {
    assert ext[..i][1..] == ext[1..][..i - 1];
  }

  /** After a successful read, extent i's pages sit right after the pages
      of the extents before it. */
  lemma {:induction false} FetchExtentsLandedAt(s: FileState, ext: seq<Extent>, pos: int, i: nat)
    requires i < |ext| && FetchExtents(s, ext, pos).status == Ok
    ensures Landed(FetchExtents(s, ext, pos).bytes, s.data, ExtentBytes(s.pageSize, ext[..i]),
                   PageBytes(s.pageSize, ext[i].page), PageBytes(s.pageSize, ext[i].len))
    decreases i
  {
    var pg := s.pageSize;
    var from, n := PageBytes(pg, ext[0].page), PageBytes(pg, ext[0].len);
    var got := Fetch(s.data, from, n);
    var rest := FetchExtents(s, ext[1..], from + n);
    var all := FetchExtents(s, ext, pos).bytes;
    assert |got| == n && all == got + rest.bytes && rest.status == Ok;
    var k, m := PageBytes(pg, ext[i].page), PageBytes(pg, ext[i].len);
    if i == 0 {
      assert Landed(got, s.data, 0, k, m);
      LandedFront(got, rest.bytes, all, s.data, 0, k, m);
      assert ExtentBytes(pg, ext[..i]) == 0 by {
        assert ext[..0] == [];
      }
    } else {
      var at' := ExtentBytes(pg, ext[1..][..i - 1]);
      FetchExtentsLandedAt(s, ext[1..], from + n, i - 1);
      ExtentBytesPrefix(pg, ext, i);
      assert ext[1..][i - 1] == ext[i];
      LandedShift(got, rest.bytes, all, s.data, at', ExtentBytes(pg, ext[..i]), k, m);
    }
  }

  /** After a successful Inode::read, extent i's pages sit in the buffer at
      byte pgsz * (pages of the extents before it). */
  lemma ReadInodeLanded(s: FileState, ino: Inode, pagebuf: seq<byte>)
    requires PageBytes(s.pageSize, ino.Size()) <= Max(|pagebuf|, PageBytes(s.pageSize, ino.SizeWord()))
    ensures var r := ReadInode(s, ino, pagebuf);
      r.status == Ok ==>
        forall i :: 0 <= i < |ino.ext| ==>
          Landed(r.buf, s.data, ExtentBytes(s.pageSize, ino.ext[..i]),
                 PageBytes(s.pageSize, ino.ext[i].page), PageBytes(s.pageSize, ino.ext[i].len))
  {
    var r := ReadInode(s, ino, pagebuf);
    var c := FetchExtents(s, ino.ext, s.curFpos);
    ExtentBytesArePages(s.pageSize, ino.ext);
    if r.status == Ok {
      var g := Grown(pagebuf, PageBytes(s.pageSize, ino.SizeWord()));
      forall i | 0 <= i < |ino.ext|
        ensures Landed(r.buf, s.data, ExtentBytes(s.pageSize, ino.ext[..i]),
                       PageBytes(s.pageSize, ino.ext[i].page), PageBytes(s.pageSize, ino.ext[i].len))
      {
        FetchExtentsLandedAt(s, ino.ext, s.curFpos, i);
        LandedConcat(c.bytes, g[|c.bytes|..], s.data, ExtentBytes(s.pageSize, ino.ext[..i]),
                     PageBytes(s.pageSize, ino.ext[i].page), PageBytes(s.pageSize, ino.ext[i].len));
      }
    }
  }

  /* ---------------- write ---------------- */

  /** One f.write call: `count` pages from page `page` on. */
  datatype PageRun = PageRun(page: u64, count: nat)

  function RunPages(runs: seq<PageRun>): nat {
    if runs == [] then 0 else runs[0].count + RunPages(runs[1..])
  }

  /** Bytes written by the runs, for pages of pg bytes. */
  function RunBytes(pg: nat, runs: seq<PageRun>): nat {
    if runs == [] then 0 else PageBytes(pg, runs[0].count) + RunBytes(pg, runs[1..])
  }

  /** The writes write() issues for outPages pages: each extent in turn, the
      last one cut to what is left. */
  function Plan(ext: seq<Extent>, outPages: nat): (runs: seq<PageRun>)
    ensures RunPages(runs) <= outPages
    decreases |ext|
  {
    if ext == [] || outPages == 0 then []
    else
      var w := Min(ext[0].len, outPages);
      [PageRun(ext[0].page, w)] + Plan(ext[1..], outPages - w)
  }

  /** Issuing the runs in order from byte `p` of buf on, stopping at the
      first failed write. */
  function WriteRuns(s: FileState, buf: seq<byte>, runs: seq<PageRun>, p: nat): (r: Step)
    requires p + RunBytes(s.pageSize, runs) <= |buf|
    decreases |runs|, 1
  {
    if runs == [] then Step(s, Ok) else WriteMore(s, buf, runs, p)
  }

  /** The write of the first run, then those of the others. */
  function WriteMore(s: FileState, buf: seq<byte>, runs: seq<PageRun>, p: nat): (r: Step)
    requires runs != [] && p + RunBytes(s.pageSize, runs) <= |buf|
    decreases |runs|, 0
  {
    var run := runs[0];
    var r := WriteStep(s, buf[p..], run.page, run.count);
    if r.status != Ok then r
    else WriteRuns(r.state, buf, runs[1..], p + PageBytes(s.pageSize, run.count))
  }

  /** Inode::write as a transition of the file. */
  function WriteInode(s: FileState, ino: Inode, pagebuf: seq<byte>): Step
    requires s.pageSize > 0
  {
    PlanBytes(s.pageSize, ino.ext, |pagebuf| / s.pageSize);
    DivBound(|pagebuf|, s.pageSize);
    WriteRuns(s, pagebuf, Plan(ino.ext, |pagebuf| / s.pageSize), 0)
  }

  /** The runs never take more than the outPages pages of the buffer. */
  lemma {:induction false} PlanBytes(pg: nat, ext: seq<Extent>, outPages: nat)
    ensures RunBytes(pg, Plan(ext, outPages)) <= PageBytes(pg, outPages)
    decreases |ext|
  {
    if ext != [] && outPages > 0 {
      var w := Min(ext[0].len, outPages);
      PlanBytes(pg, ext[1..], outPages - w);
      PageBytesAdd(pg, w, outPages - w);
    }
  }

  /** All of the buffer is written when it fits the extents: the runs add up
      to outPages. */
  lemma {:induction false} PlanCovers(ext: seq<Extent>, outPages: nat)
    requires outPages <= ExtentPages(ext)
    ensures RunPages(Plan(ext, outPages)) == outPages
    decreases |ext|
  {
    if ext != [] && outPages > 0 {
      PlanCovers(ext[1..], outPages - Min(ext[0].len, outPages));
    }
  }

  /** The runs follow the extents in order: run i targets extent i's first
      page and takes all of it, except that the last run may take fewer;
      extents past the last run are not written. */
  lemma {:induction false} PlanShape(ext: seq<Extent>, outPages: nat)
    ensures var runs := Plan(ext, outPages);
      && |runs| <= |ext|
      && (forall i :: 0 <= i < |runs| ==>
            runs[i].page == ext[i].page && runs[i].count <= ext[i].len)
      && (forall i :: 0 <= i < |runs| - 1 ==> runs[i].count == ext[i].len)
    decreases |ext|
  {
    if ext != [] && outPages > 0 {
      var w := Min(ext[0].len, outPages);
      PlanShape(ext[1..], outPages - w);
      var runs := Plan(ext, outPages);
      assert runs[1..] == Plan(ext[1..], outPages - w);
    }
  }
}

/** A backup that reports DONE has written the source, byte for byte. */
module BackupCommit {
  import opened Arithmetic
  import opened BackupPages
  import opened BackupSpec
  import opened Seqs
  import opened BackupProof

  /** The file holds the source, apart from the source's unused page and the
      header fields that a commit rewrites. */
  ghost predicate FileIs(s: Source, size: nat, d: Pager, fileSize: nat)
    requires s.Valid() && size > 0 && d.Valid(size)
  {
    && fileSize == |s.pages| * s.pgsz
    && forall off: nat :: off / s.pgsz < |s.pages| && off / s.pgsz + 1 != s.PendingPage() && !Rewritten(off) ==>
         ByteAt(d, size, off) == s.PageAt(off / s.pgsz + 1)[off % s.pgsz]
  }

  // ----- the header -----

  lemma HeaderBytes(d: Pager, size: nat, header: Page, off: nat)
    requires d.Valid(size) && size >= 100 && |header| == 100 && !Rewritten(off)
    ensures ByteAt(RewriteHeader(d, size, header), size, off) == ByteAt(d, size, off)
  {
    var old1 := PageData(d, size, 1);
    var data := seq(100, i requires 0 <= i < 100 => if Rewritten(i) then header[i] else old1[i]);
    WriteBytes(d, size, 1, 0, data, off);
    if off < 100 {
      DivUnique(off, size, 0, off);
    }
  }

  // ----- the unused pages -----

  lemma PendingAligned(g: Geometry)
    requires g.Valid()
    ensures g.pending % g.src == 0 && g.pending % g.dest == 0
    ensures (g.SrcPending() - 1) * g.src == g.pending && (g.DestPending() - 1) * g.dest == g.pending
    ensures g.pending >= 65536
  {
    PendingDivides(g.src, g.pending);
    PendingDivides(g.dest, g.pending);
  }

  /** The offsets of the unused pages start at the locking byte. */
  lemma PendingRange(g: Geometry, off: nat)
    requires g.Valid()
    ensures off / g.src + 1 == g.SrcPending() <==> g.pending <= off < g.pending + g.src
    ensures off / g.dest + 1 == g.DestPending() <==> g.pending <= off < g.pending + g.dest
  {
    PendingAligned(g);
    InBlock(off, g.src, g.SrcPending() - 1);
    Distribute(g.SrcPending() - 1, 1, g.src);
    InBlock(off, g.dest, g.DestPending() - 1);
    Distribute(g.DestPending() - 1, 1, g.dest);
  }

  // ----- writing the pages next to the locking byte -----

  lemma {:induction false} FixUpBytes(g: Geometry, pages: seq<Page>, d: Pager, iOff: nat, iEnd: nat, off: nat)
    requires g.Valid() && g.src < g.dest && d.Valid(g.dest) && Aligned(g, iOff) && Aligned(g, iEnd)
    requires iEnd <= |pages| * g.src && forall q :: 0 <= q < |pages| ==> |pages[q]| == g.src
    ensures var r := FixUp(g, pages, d, iOff, iEnd);
            if iOff <= off < iEnd
            then off / g.src < |pages| && ByteAt(r, g.dest, off) == pages[off / g.src][off % g.src]
            else ByteAt(r, g.dest, off) == ByteAt(d, g.dest, off)
    decreases iEnd - iOff
  {
    hide ByteAt, WriteAt;
    if iOff <= off < iEnd {
      DivLess(off, |pages|, g.src);
    }
    if iOff < iEnd {
      AlignedFits(g, iOff);
      FixUpNext(g, iOff);
      DivLess(iOff, |pages|, g.src);
      MultiplesApart(iOff, iEnd, g.src);
      var data := pages[iOff / g.src];
      WriteBytesAt(d, g.dest, iOff, data, off);
      if iOff <= off < iOff + g.src {
        PiecePlace(g, iOff, off);
        SameBlock(iOff, off, g.src);
      }
      FixUpBytes(g, pages, WriteAt(d, g.dest, iOff / g.dest + 1, iOff % g.dest, data), iOff + g.src, iEnd, off);
    }
  }

  lemma SameBlock(a: nat, b: nat, n: nat)
    requires n > 0 && a % n == 0 && a <= b < a + n
    ensures b / n == a / n && b % n == b - a
  {
    assert a == (a / n) * n;
    DivUnique(b, n, a / n, b - a);
  }

  // ----- size of the destination -----

  lemma LastOffset(g: Geometry, n: nat)
    requires g.Valid() && n > 0
    ensures n * g.src >= 512 && (n * g.src - 1) / g.src == n - 1
  {
    MulMonotone(1, n, g.src);
    Distribute(n, 1, g.src);
    InBlock(n * g.src - 1, g.src, n - 1);
  }

  /** The final page counts of the destination, as the assertions of the commit
      have them: the pages cover the source, or stop just below the unused page; and
      no fewer pages would do. */
  lemma TruncateCovers(g: Geometry, n: nat)
    requires g.Valid() && n > 0
    ensures var t := DestTruncate(g, n);
            && t > 0
            && (g.dest <= g.src ==> t * g.dest == n * g.src) && (t - 1) * g.dest < n * g.src
            && (g.src < g.dest ==>
                  t * g.dest >= n * g.src
                  || (t == g.DestPending() - 1 && g.pending <= n * g.src <= g.pending + g.dest))
  {
    hide DestTruncate;
    if g.src < g.dest {
      TruncateCoversSmall(g, n);
    } else {
      TruncateCoversLarge(g, n);
    }
  }

  lemma TruncateCoversLarge(g: Geometry, n: nat)
    requires g.Valid() && n > 0 && g.dest <= g.src
    ensures DestTruncate(g, n) > 0 && DestTruncate(g, n) * g.dest == n * g.src
    ensures (DestTruncate(g, n) - 1) * g.dest < n * g.src
  {
    PageSizesDivide(g.dest, g.src);
    var k := g.src / g.dest;
    assert g.src == k * g.dest;
    assert n * g.src == (n * k) * g.dest;
    MulMonotone(1, n, k);
    Distribute(n * k, 1, g.dest);
  }

  lemma TruncateCoversSmall(g: Geometry, n: nat)
    requires g.Valid() && n > 0 && g.src < g.dest
    ensures var t := DestTruncate(g, n);
            && t > 0 && (t - 1) * g.dest < n * g.src
            && (t * g.dest >= n * g.src
                || (t == g.DestPending() - 1 && g.pending <= n * g.src <= g.pending + g.dest))
  {
    PendingAligned(g);
    PageSizesDivide(g.src, g.dest);
    var ratio := g.dest / g.src;
    assert g.dest == ratio * g.src;
    CeilCovers(n, ratio, g.src);
    Distribute(g.DestPending() - 1, 1, g.dest);
    Distribute(g.DestPending() - 1, 2, g.dest);
  }

  lemma CeilCovers(n: nat, ratio: nat, src: nat)
    requires n > 0 && ratio > 0
    ensures var t := (n + ratio - 1) / ratio;
            t > 0 && t * (ratio * src) >= n * src && (t - 1) * (ratio * src) < n * src + (if src == 0 then 1 else 0)
  {
    var t, r := (n + ratio - 1) / ratio, (n + ratio - 1) % ratio;
    assert n + ratio - 1 == t * ratio + r;
    if t == 0 {
      assert false;
    }
    assert t * (ratio * src) == (t * ratio) * src;
    MulMonotone(n, t * ratio, src);
    Distribute(t, 1, ratio);
    assert (t - 1) * (ratio * src) == ((t - 1) * ratio) * src;
    assert (t - 1) * ratio <= n - 1;
    MulMonotone((t - 1) * ratio, n - 1, src);
    Distribute(n, 1, src);
  }

  // ----- commit -----

  /** A source that is completely copied can be read back from the destination's
      pages, but for the destination's unused page. */
  lemma CopiedByte(s: Source, b: Backup, off: nat)
    requires Ready(s, b) && s.holes == {} && Agrees(s, b, |s.pages| + 1)
    requires off / s.pgsz < |s.pages| && off / s.pgsz + 1 != s.PendingPage() && Wanted(Geo(s, b), off)
    ensures off / b.kind.pgsz < b.dest.dbSize
    ensures ByteAt(b.dest, b.kind.pgsz, off) == s.PageAt(off / s.pgsz + 1)[off % s.pgsz]
  {
    hide ByteAt;
    var q := off / s.pgsz + 1;
    assert PageAgrees(Geo(s, b), s.PageAt(q), b.dest, q);
  }

  /** Same or larger source pages: the pages of the destination are the file. */
  lemma CommitLarge(s: Source, b: Backup, header: Page)
    requires Ready(s, b) && |header| == 100 && |s.pages| > 0 && s.holes == {} && Agrees(s, b, |s.pages| + 1)
    requires b.kind.pgsz <= s.pgsz
    ensures var r := Commit(s, b, header); FileIs(s, r.kind.pgsz, r.dest, r.fileSize)
  {
    hide Agrees, ByteAt, RewriteHeader;
    var g, n, r := Geo(s, b), |s.pages|, Commit(s, b, header);
    var d := RewriteHeader(b.dest, g.dest, header);
    TruncateCovers(g, n);
    forall off: nat | off / s.pgsz < n && off / s.pgsz + 1 != s.PendingPage() && !Rewritten(off)
      ensures ByteAt(r.dest, g.dest, off) == s.PageAt(off / s.pgsz + 1)[off % s.pgsz]
    {
      PendingRange(g, off);
      CopiedByte(s, b, off);
      HeaderBytes(b.dest, g.dest, header, off);
      SamePages(d, DestTruncate(g, n), g.dest, off);
    }
  }

  /** The destination is large enough to be truncated to its final size. */
  lemma CommitLargeTruncates(s: Source, b: Backup)
    requires Ready(s, b) && |s.pages| > 0 && s.holes == {} && Agrees(s, b, |s.pages| + 1) && b.kind.pgsz <= s.pgsz
    ensures DestTruncate(Geo(s, b), |s.pages|) <= b.dest.dbSize
  {
    hide Agrees, ByteAt;
    var g, n := Geo(s, b), |s.pages|;
    TruncateCovers(g, n);
    var last := n * g.src - 1;
    LastOffset(g, n);
    PendingRange(g, last);
    CopiedByte(s, b, last);
    var t := DestTruncate(g, n);
    Distribute(t, 1, g.dest);
    InBlock(last, g.dest, t - 1);
  }

  lemma SamePages(d: Pager, n: nat, size: nat, off: nat)
    requires d.Valid(size) && size > 0
    ensures d.(dbSize := n).Valid(size) && ByteAt(d.(dbSize := n), size, off) == ByteAt(d, size, off)
  {
  }

  /** The range that the fix-up loop covers, within the source. */
  lemma FixUpRange(g: Geometry, n: nat)
    requires g.Valid() && g.src < g.dest
    ensures Aligned(g, g.pending + g.src) && Aligned(g, Min(g.pending + g.dest, g.src * n))
    ensures g.src * n == n * g.src
  {
    FixUpStart(g);
    PendingAligned(g);
    PageSizesDivide(g.src, g.dest);
    AddMultiples(g.pending, g.dest, g.src);
    DivUnique(g.src * n, g.src, n, 0);
  }

  lemma BelowEnd(off: nat, n: nat, size: nat)
    requires size > 0 && off / size < n
    ensures off < n * size
  {
    InBlock(off, size, off / size);
    MulMonotone(off / size + 1, n, size);
  }

  /** Smaller source pages: the source pages next to the locking byte have been
      written to the file as well. */
  lemma CommitSmallBytes(s: Source, b: Backup, header: Page, off: nat)
    requires Ready(s, b) && |header| == 100 && s.holes == {} && Agrees(s, b, |s.pages| + 1) && s.pgsz < b.kind.pgsz
    requires off / s.pgsz < |s.pages| && off / s.pgsz + 1 != s.PendingPage() && !Rewritten(off)
    ensures ByteAt(Commit(s, b, header).dest, b.kind.pgsz, off) == s.PageAt(off / s.pgsz + 1)[off % s.pgsz]
  {
    hide Agrees, ByteAt, RewriteHeader, FixUp, Aligned, FixUpEnd;
    var g, n := Geo(s, b), |s.pages|;
    var d := RewriteHeader(b.dest, g.dest, header);
    FixUpRange(g, n);
    PendingRange(g, off);
    BelowEnd(off, n, g.src);
    FixUpBytes(g, s.pages, d, g.pending + g.src, Min(g.pending + g.dest, g.src * n), off);
    if !(g.pending <= off < g.pending + g.dest) {
      HeaderBytes(b.dest, g.dest, header, off);
      CopiedByte(s, b, off);
    }
  }

  /** The file is as long as the source when it reaches the source's last byte. */
  lemma FinalSize(g: Geometry, n: nat, dbSize: nat)
    requires g.Valid() && n > 0 && g.src < g.dest
    requires var last := n * g.src - 1;
             last >= 0 && if g.pending <= last < g.pending + g.dest then last >= g.pending + g.src else last / g.dest < dbSize
    ensures Min(g.src * n, Max(dbSize * g.dest, FixUpEnd(g, g.src * n))) == n * g.src
  {
    var last := n * g.src - 1;
    if !(g.pending <= last < g.pending + g.dest) {
      MulMonotone(last / g.dest + 1, dbSize, g.dest);
      InBlock(last, g.dest, last / g.dest);
    }
  }

  lemma CommitSmallSize(s: Source, b: Backup, header: Page)
    requires Ready(s, b) && |header| == 100 && |s.pages| > 0 && s.holes == {} && Agrees(s, b, |s.pages| + 1) && s.pgsz < b.kind.pgsz
    ensures Commit(s, b, header).fileSize == |s.pages| * s.pgsz
  {
    hide Agrees, ByteAt, RewriteHeader, FixUpAll, Min, Max, FixUpEnd;
    var g, n := Geo(s, b), |s.pages|;
    var d := RewriteHeader(b.dest, g.dest, header);
    var last := n * g.src - 1;
    LastOffset(g, n);
    PendingRange(g, last);
    if !(g.pending <= last < g.pending + g.dest) {
      CopiedByte(s, b, last);
    }
    FinalSize(g, n, d.dbSize);
  }

  lemma CommitExact(s: Source, b: Backup, header: Page)
    requires Ready(s, b) && |header| == 100 && |s.pages| > 0 && s.holes == {} && Agrees(s, b, |s.pages| + 1)
    ensures var r := Commit(s, b, header); FileIs(s, r.kind.pgsz, r.dest, r.fileSize)
  {
    hide Agrees, ByteAt, Commit;
    if b.kind.pgsz <= s.pgsz {
      CommitLarge(s, b, header);
    } else {
      CommitSmallSize(s, b, header);
      forall off: nat | off / s.pgsz < |s.pages| && off / s.pgsz + 1 != s.PendingPage() && !Rewritten(off)
        ensures ByteAt(Commit(s, b, header).dest, b.kind.pgsz, off) == s.PageAt(off / s.pgsz + 1)[off % s.pgsz]
      {
        CommitSmallBytes(s, b, header, off);
      }
    }
  }

  // ----- a step that reports DONE -----

  /** A complete copy with more than the existing pages covered is a full copy. */
  lemma AgreesAll(s: Source, b: Backup)
    requires Ready(s, b) && b.iNext > |s.pages| && Agrees(s, b, b.iNext)
    ensures Agrees(s, b, |s.pages| + 1)
  {
  }

  /** When a step reports DONE, the destination file is the current source. */
  lemma StepDone(s: Source, b: Backup, nPage: int, e: Env)
    requires BackupInv(s, b) && e.Valid() && !IsFatal(b.rc)
    requires Step(s, b, nPage, e).rc == DONE && |s.pages| > 0
    requires s.holes != {} ==> e.srcInWrite
    ensures var r := Step(s, b, nPage, e);
            Ready(s, r) && FileIs(s, r.kind.pgsz, r.dest, r.fileSize)
  {
    hide Agrees, ByteAt, Commit, FileIs, CopyLoop, DestTruncate, IsPageSize;
    var l := Lock(b, e);
    assert Prepare(s, b, e) == OK;
    StartAgrees(s, b, e);
    CopyLoopAgrees(s, l, 0, nPage, e.faults);
    var (c, rc) := CopyLoop(s, l, 0, nPage, e.faults);
    assert rc == OK;
    var n := |s.pages|;
    var c' := c.(nPagecount := n, nRemaining := (n + 1 - c.iNext) % U32);
    SameCopy(s, c, c');
    AgreesAll(s, c');
    CommitExact(s, c', e.header);
  }

  /** When a step reports DONE for an empty source, the destination is the new database
      of one page, in a file as long as one source page. */
  lemma EmptyDone(s: Source, b: Backup, nPage: int, e: Env)
    requires BackupInv(s, b) && e.Valid() && !IsFatal(b.rc) && s.pages == []
    requires Step(s, b, nPage, e).rc == DONE && |e.newDb| == Lock(b, e).kind.pgsz
    ensures var r := Step(s, b, nPage, e);
            r.dest.pages == map[1 := e.newDb] && r.dest.dbSize == 1 && r.fileSize == s.pgsz
  {
    hide Agrees, Commit;
    var l := Lock(b, e);
    assert Prepare(s, b, e) == OK;
    hide DestTruncate;
    if l.kind.pgsz <= s.pgsz {
      TruncateCovers(Geo(s, l), 1);
    }
  }

  lemma StartAgrees(s: Source, b: Backup, e: Env)
    requires BackupInv(s, b) && e.Valid() && !IsFatal(b.rc) && Prepare(s, b, e) == OK
    ensures Ready(s, Lock(b, e)) && Agrees(s, Lock(b, e), Lock(b, e).iNext)
  {
  }

  lemma SameCopy(s: Source, b: Backup, c: Backup)
    requires Ready(s, b) && c == b.(nPagecount := c.nPagecount, nRemaining := c.nRemaining) && Agrees(s, b, b.iNext)
    ensures Ready(s, c) && Agrees(s, c, c.iNext)
  {
  }
}

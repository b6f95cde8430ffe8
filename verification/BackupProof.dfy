/** What a copy leaves in the destination, byte by byte, and the invariant that
    ties the destination to the source while a backup is under way. */
module BackupProof {
  import opened Arithmetic
  import opened BackupPages
  import opened Bytes
  import opened BackupSpec

  // ----- one page -----

  /** The byte that copying a source page puts at an offset: the page count of the
      source in the header field for it, unless a change is reported, or else the byte
      of the page. */
  function CopiedByteAt(g: Geometry, data: Page, h: HeaderCount, off: nat): Byte
    requires |data| == g.src > 0
  {
    if h.Count? && 28 <= off < 32 then Put4(h.n)[off-28] else data[off % g.src]
  }

  /** The part of the source page, without the header field. */
  function Part(g: Geometry, d: Pager, iOff: nat, data: Page): (r: Pager)
    requires Aligned(g, iOff) && d.Valid(g.dest) && |data| == g.src
    ensures r.Valid(g.dest)
  {
    AlignedFits(g, iOff);
    WriteAt(d, g.dest, iOff / g.dest + 1, iOff % g.dest, data[iOff % g.src..iOff % g.src + Min(g.src, g.dest)])
  }

  lemma WriteRange(d: Pager, size: nat, iOff: nat, data: Page, x: nat, n: nat, off: nat)
    requires d.Valid(size) && size > 0 && x + n <= |data| && iOff % size + n <= size
    ensures ByteAt(WriteAt(d, size, iOff / size + 1, iOff % size, data[x..x+n]), size, off)
            == if iOff <= off < iOff + n then data[x + (off - iOff)] else ByteAt(d, size, off)
  {
    hide ByteAt, WriteAt;
    WriteBytesAt(d, size, iOff, data[x..x+n], off);
  }

  lemma PartIs(g: Geometry, d: Pager, iOff: nat, data: Page)
    requires Aligned(g, iOff) && d.Valid(g.dest) && |data| == g.src
    ensures g.src > 0 && g.dest > 0 && iOff % g.src + Min(g.src, g.dest) <= g.src && iOff % g.dest + Min(g.src, g.dest) <= g.dest
    ensures var n := Min(g.src, g.dest);
            Part(g, d, iOff, data) == WriteAt(d, g.dest, iOff / g.dest + 1, iOff % g.dest, data[iOff % g.src..iOff % g.src + n])
  {
    AlignedFits(g, iOff);
    hide WriteAt;
  }

  lemma PartBytes(g: Geometry, d: Pager, iOff: nat, data: Page, off: nat)
    requires Aligned(g, iOff) && d.Valid(g.dest) && |data| == g.src
    ensures iOff % g.src + Min(g.src, g.dest) <= g.src
    ensures ByteAt(Part(g, d, iOff, data), g.dest, off)
            == if iOff <= off < iOff + Min(g.src, g.dest) then data[iOff % g.src + (off - iOff)] else ByteAt(d, g.dest, off)
  {
    hide ByteAt, WriteAt, Aligned, Min, Part;
    PartIs(g, d, iOff, data);
    WriteRange(d, g.dest, iOff, data, iOff % g.src, Min(g.src, g.dest), off);
  }

  lemma PieceIs(g: Geometry, d: Pager, iOff: nat, data: Page, h: HeaderCount)
    requires Aligned(g, iOff) && d.Valid(g.dest) && |data| == g.src
    ensures g.dest >= 512 && (iOff > 0 ==> iOff >= 512) && Min(g.src, g.dest) >= 512
    ensures var r := Part(g, d, iOff, data);
            CopyPiece(g, d, iOff, data, h) == if iOff == 0 && h.Count? then WriteAt(r, g.dest, 1, 28, Put4(h.n)) else r
  {
    AlignedFits(g, iOff);
    AlignedZero(g, iOff);
    hide WriteAt, Put4;
  }

  lemma PieceBytes(g: Geometry, d: Pager, iOff: nat, data: Page, h: HeaderCount, off: nat)
    requires Aligned(g, iOff) && d.Valid(g.dest) && |data| == g.src
    ensures iOff % g.src + Min(g.src, g.dest) <= g.src
    ensures ByteAt(CopyPiece(g, d, iOff, data, h), g.dest, off)
            == if !(iOff <= off < iOff + Min(g.src, g.dest)) then ByteAt(d, g.dest, off)
               else if h.Count? && 28 <= off < 32 then Put4(h.n)[off-28]
               else data[iOff % g.src + (off - iOff)]
  {
    hide CopyPiece, Part, ByteAt, WriteAt, Put4, Aligned, Min;
    PartBytes(g, d, iOff, data, off);
    PieceIs(g, d, iOff, data, h);
    if iOff == 0 && h.Count? {
      WriteBytes(Part(g, d, iOff, data), g.dest, 1, 28, Put4(h.n), off);
    }
  }

  lemma AlignedZero(g: Geometry, iOff: nat)
    requires Aligned(g, iOff)
    ensures Min(g.src, g.dest) >= 512 && (iOff > 0 ==> iOff >= 512)
  {
    if 0 < iOff {
      MultiplesApart(0, iOff, Min(g.src, g.dest));
    }
  }

  lemma PiecePlace(g: Geometry, iOff: nat, off: nat)
    requires Aligned(g, iOff) && iOff <= off < iOff + Min(g.src, g.dest)
    ensures off / g.dest == iOff / g.dest && off % g.src == iOff % g.src + (off - iOff)
  {
    AlignedFits(g, iOff);
    assert iOff == (iOff / g.src) * g.src + iOff % g.src;
    OffsetInPage(iOff / g.src, g.src, iOff % g.src + (off - iOff));
    assert iOff == (iOff / g.dest) * g.dest + iOff % g.dest;
    OffsetInPage(iOff / g.dest, g.dest, iOff % g.dest + (off - iOff));
  }

  lemma PieceCopied(g: Geometry, d: Pager, iOff: nat, data: Page, h: HeaderCount, off: nat)
    requires Aligned(g, iOff) && d.Valid(g.dest) && |data| == g.src
    ensures iOff <= off < iOff + Min(g.src, g.dest) ==> off / g.dest == iOff / g.dest
    ensures ByteAt(CopyPiece(g, d, iOff, data, h), g.dest, off)
            == if iOff <= off < iOff + Min(g.src, g.dest) then CopiedByteAt(g, data, h, off) else ByteAt(d, g.dest, off)
  {
    hide CopyPiece, ByteAt;
    PieceBytes(g, d, iOff, data, h, off);
    if iOff <= off < iOff + Min(g.src, g.dest) {
      PiecePlace(g, iOff, off);
    }
  }

  /** The offset is one that the copy is to bring over. */
  predicate Wanted(g: Geometry, off: nat)
    requires g.dest > 0
  {
    off / g.dest + 1 != g.DestPending() && !Rewritten(off)
  }

  /** After a copy that succeeds, the bytes of the source page stand at the same
      offsets of the destination, except in its unused page. */
  lemma {:induction false} CopyBytes(g: Geometry, d: Pager, iOff: nat, iEnd: nat, data: Page, h: HeaderCount, write: map<nat, Rc>, off: nat)
    requires Aligned(g, iOff) && Aligned(g, iEnd) && d.Valid(g.dest) && |data| == g.src
    requires g.src < g.dest ==> iEnd <= iOff + g.src
    requires CopyFrom(g, d, iOff, iEnd, data, h, write).1 == OK
    ensures var r := CopyFrom(g, d, iOff, iEnd, data, h, write).0;
            if iOff <= off < iEnd
            then off / g.dest + 1 != g.DestPending() ==>
                   off / g.dest < r.dbSize && ByteAt(r, g.dest, off) == CopiedByteAt(g, data, h, off)
            else ByteAt(r, g.dest, off) == ByteAt(d, g.dest, off)
    decreases iEnd - iOff
  {
    hide CopyPiece, ByteAt, CopiedByteAt;
    if iOff < iEnd {
      AlignedNext(g, iOff);
      PieceCopied(g, d, iOff, data, h, off);
      MultiplesApart(iOff, iEnd, Min(g.src, g.dest));
      var d' := if iOff / g.dest + 1 == g.DestPending() then d else CopyPiece(g, d, iOff, data, h);
      CopyBytes(g, d', iOff + g.dest, iEnd, data, h, write, off);
    }
  }

  /** Source page `q` has its bytes in the destination. */
  ghost predicate PageAgrees(g: Geometry, data: Page, d: Pager, q: nat)
    requires g.Valid() && d.Valid(g.dest) && |data| == g.src
  {
    forall off: nat :: off / g.src + 1 == q && Wanted(g, off) ==>
      off / g.dest < d.dbSize && ByteAt(d, g.dest, off) == data[off % g.src]
  }

  lemma OnePageBytes(g: Geometry, d: Pager, memdb: bool, q: nat, data: Page, h: HeaderCount, write: map<nat, Rc>, off: nat)
    requires g.Valid() && d.Valid(g.dest) && |data| == g.src && q > 0
    requires OnePage(g, d, memdb, q, data, h, write).1 == OK
    ensures var r := OnePage(g, d, memdb, q, data, h, write).0;
            if off / g.src + 1 == q
            then off / g.dest + 1 != g.DestPending() ==>
                   off / g.dest < r.dbSize && ByteAt(r, g.dest, off) == CopiedByteAt(g, data, h, off)
            else ByteAt(r, g.dest, off) == ByteAt(d, g.dest, off)
  {
    hide CopyFrom, ByteAt, CopiedByteAt;
    PageAligned(g, q);
    PageAligned(g, q + 1);
    InBlock(off, g.src, q - 1);
    Distribute(q - 1, 1, g.src);
    CopyBytes(g, d, (q - 1) * g.src, q * g.src, data, h, write, off);
  }

  lemma OnePageAgrees(g: Geometry, d: Pager, memdb: bool, q: nat, data: Page, h: HeaderCount, write: map<nat, Rc>)
    requires g.Valid() && d.Valid(g.dest) && |data| == g.src && q > 0
    requires OnePage(g, d, memdb, q, data, h, write).1 == OK
    ensures PageAgrees(g, data, OnePage(g, d, memdb, q, data, h, write).0, q)
  {
    hide OnePage, ByteAt;
    var r := OnePage(g, d, memdb, q, data, h, write).0;
    forall off: nat | off / g.src + 1 == q && Wanted(g, off)
      ensures off / g.dest < r.dbSize && ByteAt(r, g.dest, off) == data[off % g.src]
    {
      OnePageBytes(g, d, memdb, q, data, h, write, off);
    }
  }

  /** Copying one page leaves the bytes of every other page alone. */
  lemma OtherPageAgrees(g: Geometry, d: Pager, memdb: bool, q: nat, data: Page, h: HeaderCount, write: map<nat, Rc>, o: nat, other: Page)
    requires g.Valid() && d.Valid(g.dest) && |data| == |other| == g.src && q > 0 && o != q
    requires OnePage(g, d, memdb, q, data, h, write).1 == OK && PageAgrees(g, other, d, o)
    ensures PageAgrees(g, other, OnePage(g, d, memdb, q, data, h, write).0, o)
  {
    hide OnePage, ByteAt;
    var r := OnePage(g, d, memdb, q, data, h, write).0;
    forall off: nat | off / g.src + 1 == o && Wanted(g, off)
      ensures off / g.dest < r.dbSize && ByteAt(r, g.dest, off) == other[off % g.src]
    {
      OnePageBytes(g, d, memdb, q, data, h, write, off);
    }
  }

  // ----- the invariant -----

  /** Every source page below `upTo` that has been written and is used is in the
      destination. */
  ghost predicate Agrees(s: Source, b: Backup, upTo: nat)
    requires Ready(s, b)
  {
    forall q :: 1 <= q < upTo && q <= |s.pages| && q != s.PendingPage() && q !in s.holes ==>
      PageAgrees(Geo(s, b), s.PageAt(q), b.dest, q)
  }

  /** A backup that can still go on is registered with the source pager as soon
      as it has copied a page, and its copies are those of the current source. */
  ghost predicate BackupInv(s: Source, b: Backup) {
    && s.Valid() && b.iNext > 0
    && (b.bDestLocked ==> Ready(s, b))
    && (b.isAttached ==> b.bDestLocked)
    && (!IsFatal(b.rc) && b.iNext > 1 ==> b.isAttached && Agrees(s, b, b.iNext))
  }

  // ----- the copy loop -----

  lemma CopyNextAgrees(s: Source, b: Backup, f: Faults)
    requires Ready(s, b) && b.iNext <= |s.pages| && Agrees(s, b, b.iNext)
    requires CopyNext(s, b, f).1 == OK
    ensures Agrees(s, CopyNext(s, b, f).0, b.iNext + 1)
  {
    hide PageAgrees, OnePage;
    var q, g := b.iNext, Geo(s, b);
    var r := CopyNext(s, b, f).0;
    if q != s.PendingPage() {
      OnePageAgrees(g, b.dest, b.kind.memdb, q, s.PageAt(q), Count(|s.pages|), f.write);
      forall o | 1 <= o < q + 1 && o <= |s.pages| && o != s.PendingPage() && o !in s.holes
        ensures PageAgrees(g, s.PageAt(o), r.dest, o)
      {
        if o != q {
          OtherPageAgrees(g, b.dest, b.kind.memdb, q, s.PageAt(q), Count(|s.pages|), f.write, o, s.PageAt(o));
        }
      }
    }
  }

  /** An error from copying one page is one of the faults, or the refusal to
      change the page size of an in-memory database. */
  lemma {:induction false} CopyFromError(g: Geometry, d: Pager, iOff: nat, iEnd: nat, data: Page, h: HeaderCount, write: map<nat, Rc>)
    requires Aligned(g, iOff) && d.Valid(g.dest) && |data| == g.src && forall q :: q in write ==> IsError(write[q])
    ensures var rc := CopyFrom(g, d, iOff, iEnd, data, h, write).1; rc == OK || IsError(rc)
    decreases iEnd - iOff
  {
    hide CopyPiece;
    assert g.dest > 0;
    if iOff < iEnd {
      AlignedNext(g, iOff);
      hide Aligned;
      var iDest := iOff / g.dest + 1;
      if iDest == g.DestPending() {
        CopyFromError(g, d, iOff + g.dest, iEnd, data, h, write);
      } else if iDest !in write {
        CopyFromError(g, CopyPiece(g, d, iOff, data, h), iOff + g.dest, iEnd, data, h, write);
      }
    }
  }

  lemma OnePageError(g: Geometry, d: Pager, memdb: bool, q: nat, data: Page, h: HeaderCount, write: map<nat, Rc>)
    requires g.Valid() && d.Valid(g.dest) && |data| == g.src && q > 0 && forall p :: p in write ==> IsError(write[p])
    ensures var rc := OnePage(g, d, memdb, q, data, h, write).1; rc == OK || IsError(rc)
  {
    PageAligned(g, q);
    CopyFromError(g, d, (q - 1) * g.src, q * g.src, data, h, write);
  }

  lemma {:induction false} CopyLoopAgrees(s: Source, b: Backup, ii: nat, nPage: int, f: Faults)
    requires Ready(s, b) && Agrees(s, b, b.iNext) && f.AllFatal()
    ensures var (r, rc) := CopyLoop(s, b, ii, nPage, f);
            if rc == OK then Agrees(s, r, r.iNext) else IsError(rc)
    decreases |s.pages| + 1 - b.iNext
  {
    hide PageAgrees, OnePage;
    if (nPage < 0 || ii < nPage) && b.iNext <= |s.pages| {
      var q := b.iNext;
      if q != s.PendingPage() && q !in f.read {
        OnePageError(Geo(s, b), b.dest, b.kind.memdb, q, s.PageAt(q), Count(|s.pages|), f.write);
      }
      var (b', rc) := CopyNext(s, b, f);
      if rc == OK {
        CopyNextAgrees(s, b, f);
        CopyLoopAgrees(s, b', ii + 1, nPage, f);
      }
    }
  }

  // ----- reported changes of the source -----

  function Range(lo: nat, hi: nat): (r: set<nat>)
    ensures forall p :: p in r <==> lo <= p < hi
    decreases hi - lo
  {
    if lo < hi then {lo} + Range(lo + 1, hi) else {}
  }

  /** The source after page `q` has been written; writing past the end makes it
      grow, and the new pages in front of `q` are holes. */
  function WritePage(s: Source, q: nat, data: Page): (r: Source)
    requires s.Valid() && |data| == s.pgsz && 0 < q && q != s.PendingPage()
    ensures r.Valid() && r.pgsz == s.pgsz && r.pending == s.pending
    ensures |r.pages| == Max(q, |s.pages|) && r.PageAt(q) == data
    ensures forall p :: 1 <= p <= |s.pages| && p != q ==> r.PageAt(p) == s.PageAt(p)
    ensures q !in r.holes && forall p :: p != q && p != s.PendingPage() ==>
              (p in r.holes <==> p in s.holes || |s.pages| < p < q)
  {
    var n := |s.pages|;
    if q <= n then s.(pages := s.pages[q-1 := data], holes := s.holes - {q})
    else s.(pages := s.pages + seq(q - 1 - n, _ => ZeroPage(s.pgsz)) + [data],
            holes := s.holes + (Range(n + 1, q) - {s.PendingPage()}))
  }

  lemma UpdateKeeps(s: Source, b: Backup, q: nat, data: Page, write: map<nat, Rc>)
    requires BackupInv(s, b) && b.isAttached && |data| == s.pgsz && 0 < q && q != s.PendingPage()
    requires forall p :: p in write ==> IsError(write[p])
    ensures BackupInv(WritePage(s, q, data), Update(s, b, q, data, write))
  {
    hide PageAgrees, OnePage;
    var s', b' := WritePage(s, q, data), Update(s, b, q, data, write);
    var g := Geo(s, b);
    if !IsFatal(b.rc) && b.iNext > 1 {
      if q < b.iNext {
        OnePageError(g, b.dest, b.kind.memdb, q, data, Keep, write);
        if !IsFatal(b'.rc) {
          OnePageAgrees(g, b.dest, b.kind.memdb, q, data, Keep, write);
        }
      }
      if !IsFatal(b'.rc) {
        forall o | 1 <= o < b.iNext && o <= |s'.pages| && o != s.PendingPage() && o !in s'.holes
          ensures PageAgrees(g, s'.PageAt(o), b'.dest, o)
        {
          if o != q {
            assert o <= |s.pages| && s'.PageAt(o) == s.PageAt(o);
            assert PageAgrees(g, s.PageAt(o), b.dest, o);
            if q < b.iNext {
              OtherPageAgrees(g, b.dest, b.kind.memdb, q, data, Keep, write, o, s.PageAt(o));
            }
          }
        }
      }
    }
  }

  // ----- one step -----

  lemma StepKeeps(s: Source, b: Backup, nPage: int, e: Env)
    requires BackupInv(s, b) && e.Valid()
    ensures BackupInv(s, Step(s, b, nPage, e))
  {
    hide PageAgrees, OnePage;
    if !IsFatal(b.rc) {
      var rc, l := Prepare(s, b, e), Lock(b, e);
      if rc == OK {
        assert Ready(s, l) && Agrees(s, l, l.iNext);
        CopyLoopAgrees(s, l, 0, nPage, e.faults);
      }
    }
  }
}

/** The online backup on values: copying a page, one backup step, and the calls
    that the source pager makes while the backup is under way. */
module BackupSpec {
  import opened Arithmetic
  import opened Bytes
  import opened BackupPages
  import opened Seqs

  datatype Rc = OK | BUSY | LOCKED | DONE | READONLY | NOMEM | ERROR

  predicate IsFatal(rc: Rc) {
    rc != OK && rc != BUSY && rc != LOCKED
  }

  /** An error that ends the backup. */
  predicate IsError(rc: Rc) {
    IsFatal(rc) && rc != DONE
  }

  type Page = seq<Byte>

  function Min(a: nat, b: nat): nat {
    if a < b then a else b
  }

  function Max(a: nat, b: nat): nat {
    if a < b then b else a
  }

  /** Errors that I/O on the two files would return: by source page number when
      reading, by destination page number when fetching or writing. */
  datatype Faults = Faults(read: map<nat, Rc>, write: map<nat, Rc>) {
    ghost predicate AllFatal() {
      && (forall q :: q in read ==> IsError(read[q]))
      && (forall q :: q in write ==> IsError(write[q]))
    }
  }

  // ----- backupOnePage -----

  /** An offset at a boundary of the smaller of the two page sizes. */
  predicate Aligned(g: Geometry, iOff: nat) {
    g.Valid() && iOff % Min(g.src, g.dest) == 0
  }

  lemma PieceFits(iOff: nat, n: nat, size: nat)
    requires n > 0 && size >= n && size % n == 0 && iOff % n == 0
    ensures iOff % size + n <= size
  {
    var k, m, q, r := size / n, iOff / n, iOff / size, iOff % size;
    assert size == k * n && iOff == m * n && iOff == q * size + r;
    assert q * size == (q * k) * n;
    assert r == (m - q * k) * n;
    if r + n > size {
      MulLess(m - q * k, k, n);
    }
  }

  lemma AlignedFits(g: Geometry, iOff: nat)
    requires Aligned(g, iOff)
    ensures iOff % g.src + Min(g.src, g.dest) <= g.src
    ensures iOff % g.dest + Min(g.src, g.dest) <= g.dest
  {
    if g.src <= g.dest {
      PageSizesDivide(g.src, g.dest);
    } else {
      PageSizesDivide(g.dest, g.src);
    }
    PieceFits(iOff, Min(g.src, g.dest), g.src);
    PieceFits(iOff, Min(g.src, g.dest), g.dest);
  }

  lemma AlignedNext(g: Geometry, iOff: nat)
    requires Aligned(g, iOff)
    ensures Aligned(g, iOff + g.dest)
  {
    var n := Min(g.src, g.dest);
    if g.src <= g.dest {
      PageSizesDivide(g.src, g.dest);
    }
    AddMultiples(iOff, g.dest, n);
  }

  /** The page count the source has, to be stored in the destination's header
      unless the copy reports a change. */
  datatype HeaderCount = Keep | Count(n: nat)

  /** Copy the part of the source page that one destination page takes. */
  function CopyPiece(g: Geometry, d: Pager, iOff: nat, data: Page, h: HeaderCount): (r: Pager)
    requires Aligned(g, iOff) && d.Valid(g.dest) && |data| == g.src
    ensures r.Valid(g.dest) && r.dbSize >= d.dbSize && r.dbSize > iOff / g.dest
  {
    AlignedFits(g, iOff);
    var n := Min(g.src, g.dest);
    var zIn := data[iOff % g.src..iOff % g.src + n];
    var r := WriteAt(d, g.dest, iOff / g.dest + 1, iOff % g.dest, zIn);
    if iOff == 0 && h.Count? then WriteAt(r, g.dest, 1, 28, Put4(h.n)) else r
  }

  /** The loop over the destination pages that the source page spans. */
  function CopyFrom(g: Geometry, d: Pager, iOff: nat, iEnd: nat, data: Page, h: HeaderCount, write: map<nat, Rc>): (r: (Pager, Rc))
    requires Aligned(g, iOff) && d.Valid(g.dest) && |data| == g.src
    ensures r.0.Valid(g.dest) && r.0.dbSize >= d.dbSize
    decreases iEnd - iOff
  {
    if iOff >= iEnd then (d, OK)
    else
      AlignedNext(g, iOff);
      var iDest := iOff / g.dest + 1;
      if iDest == g.DestPending() then CopyFrom(g, d, iOff + g.dest, iEnd, data, h, write)
      else if iDest in write && write[iDest] != OK then (d, write[iDest])
      else CopyFrom(g, CopyPiece(g, d, iOff, data, h), iOff + g.dest, iEnd, data, h, write)
  }

  lemma PageAligned(g: Geometry, q: nat)
    requires g.Valid() && q > 0
    ensures Aligned(g, (q - 1) * g.src)
  {
    var n := Min(g.src, g.dest);
    if g.dest < g.src {
      PageSizesDivide(g.dest, g.src);
    }
    assert g.src == (g.src / n) * n;
    assert (q - 1) * g.src == ((q - 1) * (g.src / n)) * n;
    DivUnique((q - 1) * g.src, n, (q - 1) * (g.src / n), 0);
  }

  function OnePage(g: Geometry, d: Pager, memdb: bool, q: nat, data: Page, h: HeaderCount, write: map<nat, Rc>): (r: (Pager, Rc))
    requires g.Valid() && d.Valid(g.dest) && |data| == g.src && q > 0
    ensures r.0.Valid(g.dest) && r.0.dbSize >= d.dbSize
  {
    PageAligned(g, q);
    if g.src != g.dest && memdb then (d, READONLY)
    else CopyFrom(g, d, (q - 1) * g.src, q * g.src, data, h, write)
  }

  // ----- the backup object -----

  /** What is fixed about the destination once it has been locked. */
  datatype DestKind = DestKind(pgsz: nat, memdb: bool, wal: bool)

  datatype Backup = Backup(
    iNext: nat, rc: Rc, bDestLocked: bool, isAttached: bool,
    nRemaining: nat, nPagecount: nat,
    kind: DestKind, dest: Pager, fileSize: nat)

  /** The source database, shared by all its backups.  A transaction may write a
      new page before the new pages in front of it: those are `holes` until their
      turn comes. */
  datatype Source = Source(pgsz: nat, pending: nat, pages: seq<Page>, holes: set<nat>) {
    predicate Valid() {
      && IsPageSize(pgsz) && pending > 0 && pending % 65536 == 0
      && (forall q :: 0 <= q < |pages| ==> |pages[q]| == pgsz)
      && |pages| != PendingPage()
      && forall q :: q in holes ==> 1 <= q <= |pages|
    }

    function PendingPage(): nat
      requires pgsz > 0
    {
      pending / pgsz + 1
    }

    function PageAt(q: nat): Page
      requires 1 <= q <= |pages|
    {
      pages[q-1]
    }
  }

  function Geo(s: Source, b: Backup): Geometry {
    Geometry(s.pgsz, b.kind.pgsz, s.pending)
  }

  predicate Ready(s: Source, b: Backup) {
    s.Valid() && IsPageSize(b.kind.pgsz) && b.dest.Valid(b.kind.pgsz) && b.iNext > 0
  }

  // ----- sqlite3_backup_step -----

  /** What the rest of the system answers during one step.  `header` holds the
      bytes of the page-1 header fields that the commit rewrites. */
  datatype Env = Env(
    srcInWrite: bool, srcBegin: Rc, setPgsz: Rc, destBegin: Rc,
    kind: DestKind, dest: Pager, faults: Faults, finish: Rc, header: Page, newDb: Page)
  {
    ghost predicate Valid() {
      && IsPageSize(kind.pgsz) && dest.Valid(kind.pgsz) && |header| == 100
      && srcBegin != DONE && destBegin != DONE
      && faults.AllFatal() && (finish == OK || IsError(finish))
    }
  }

  /** Read one source page and copy it, unless it is the unused one. */
  function CopyNext(s: Source, b: Backup, f: Faults): (r: (Backup, Rc))
    requires Ready(s, b) && b.iNext <= |s.pages|
    ensures Ready(s, r.0) && r.0 == b.(iNext := b.iNext + 1, dest := r.0.dest)
  {
    var q := b.iNext;
    if q == s.PendingPage() then (b.(iNext := q + 1), OK)
    else if q in f.read && f.read[q] != OK then (b.(iNext := q + 1), f.read[q])
    else
      var (d, rc) := OnePage(Geo(s, b), b.dest, b.kind.memdb, q, s.PageAt(q), Count(|s.pages|), f.write);
      (b.(iNext := q + 1, dest := d), rc)
  }

  /** The copy loop; `left` is the number of pages still allowed, if limited. */
  function CopyLoop(s: Source, b: Backup, ii: nat, nPage: int, f: Faults): (r: (Backup, Rc))
    requires Ready(s, b)
    ensures Ready(s, r.0) && r.0 == b.(iNext := r.0.iNext, dest := r.0.dest)
    decreases |s.pages| + 1 - b.iNext
  {
    if (nPage < 0 || ii < nPage) && b.iNext <= |s.pages| then
      var (b', rc) := CopyNext(s, b, f);
      if rc != OK then (b', rc) else CopyLoop(s, b', ii + 1, nPage, f)
    else (b, OK)
  }

  /** The header fields that committing a backup rewrites: file format versions,
      change counter, page count, schema cookie and library version. */
  predicate Rewritten(off: nat) {
    18 <= off < 20 || 24 <= off < 32 || 40 <= off < 44 || 92 <= off < 100
  }

  function RewriteHeader(d: Pager, size: nat, header: Page): (r: Pager)
    requires d.Valid(size) && size >= 100 && |header| == 100
    ensures r.Valid(size) && r.dbSize >= d.dbSize
  {
    var old1 := PageData(d, size, 1);
    WriteAt(d, size, 1, 0,
      seq(100, i requires 0 <= i < 100 => if Rewritten(i) then header[i] else old1[i]))
  }

  /** Number of pages the destination is to have for `n` source pages. */
  function DestTruncate(g: Geometry, n: nat): nat
    requires g.Valid()
  {
    if g.src < g.dest then
      var ratio := g.dest / g.src;
      PageSizesDivide(g.src, g.dest);
      var t := if ratio == 0 then 0 else (n + ratio - 1) / ratio;
      if t == g.DestPending() then t - 1 else t
    else n * (g.src / g.dest)
  }

  /** Write the source pages that lie in the destination's unused page straight
      to the file. */
  function FixUp(g: Geometry, pages: seq<Page>, d: Pager, iOff: nat, iEnd: nat): (r: Pager)
    requires g.Valid() && g.src < g.dest && d.Valid(g.dest) && Aligned(g, iOff) && iEnd <= |pages| * g.src
    requires forall q :: 0 <= q < |pages| ==> |pages[q]| == g.src
    ensures r.Valid(g.dest)
    decreases iEnd - iOff
  {
    if iOff >= iEnd then d
    else
      AlignedFits(g, iOff);
      DivLess(iOff, |pages|, g.src);
      FixUpNext(g, iOff);
      FixUp(g, pages, WriteAt(d, g.dest, iOff / g.dest + 1, iOff % g.dest, pages[iOff / g.src]), iOff + g.src, iEnd)
  }

  lemma FixUpNext(g: Geometry, iOff: nat)
    requires Aligned(g, iOff) && g.src < g.dest
    ensures Aligned(g, iOff + g.src)
  {
    AddMultiples(iOff, g.src, g.src);
  }

  lemma FixUpStart(g: Geometry)
    requires g.Valid() && g.src < g.dest
    ensures Aligned(g, g.pending + g.src)
  {
    PendingDivides(g.src, g.pending);
    FixUpNext(g, g.pending);
  }

  /** The file after the whole fix-up loop. */
  function FixUpAll(g: Geometry, pages: seq<Page>, d: Pager): (r: Pager)
    requires g.Valid() && g.src < g.dest && d.Valid(g.dest)
    requires forall q :: 0 <= q < |pages| ==> |pages[q]| == g.src
    ensures r.Valid(g.dest)
  {
    FixUpStart(g);
    FixUp(g, pages, d, g.pending + g.src, Min(g.pending + g.dest, g.src * |pages|))
  }

  lemma FixUpEnds(g: Geometry, pages: seq<Page>, d: Pager, iOff: nat, iEnd: nat)
    requires g.Valid() && g.src < g.dest && d.Valid(g.dest) && Aligned(g, iOff) && iEnd <= iOff && iEnd <= |pages| * g.src
    requires forall q :: 0 <= q < |pages| ==> |pages[q]| == g.src
    ensures FixUp(g, pages, d, iOff, iEnd) == d
  {
  }

  /** One round of the fix-up loop. */
  lemma FixUpStep(g: Geometry, pages: seq<Page>, d: Pager, iOff: nat, iEnd: nat)
    requires g.Valid() && g.src < g.dest && d.Valid(g.dest) && Aligned(g, iOff) && iOff < iEnd <= |pages| * g.src
    requires forall q :: 0 <= q < |pages| ==> |pages[q]| == g.src
    ensures iOff % g.dest + g.src <= g.dest && iOff / g.src < |pages| && Aligned(g, iOff + g.src)
    ensures var d' := WriteAt(d, g.dest, iOff / g.dest + 1, iOff % g.dest, pages[iOff / g.src]);
            FixUp(g, pages, d, iOff, iEnd) == FixUp(g, pages, d', iOff + g.src, iEnd)
  {
    AlignedFits(g, iOff);
    DivLess(iOff, |pages|, g.src);
    FixUpNext(g, iOff);
  }

  /** End of the last write of the fix-up loop, as far as the file grows. */
  function FixUpEnd(g: Geometry, iSize: nat): nat {
    if g.pending + g.src < Min(g.pending + g.dest, iSize) then Min(g.pending + g.dest, iSize) else 0
  }

  /** Commit of a complete copy: the file image and the size of the file. */
  function Commit(s: Source, b: Backup, header: Page): (r: Backup)
    requires Ready(s, b) && |header| == 100
    ensures Ready(s, r) && r == b.(dest := r.dest, fileSize := r.fileSize)
  {
    var g := Geo(s, b);
    var d := RewriteHeader(b.dest, g.dest, header);
    var n := |s.pages|;
    if g.src < g.dest then
      var iSize := g.src * n;
      b.(dest := FixUpAll(g, s.pages, d), fileSize := Min(iSize, Max(d.dbSize * g.dest, FixUpEnd(g, iSize))))
    else
      var t := DestTruncate(g, n);
      b.(dest := d.(dbSize := t), fileSize := t * g.dest)
  }

  /** An empty source leaves a new, empty database of one page. */
  function CommitEmpty(s: Source, b: Backup, newDb: Page): (r: Backup)
    requires Ready(s, b)
    ensures Ready(s, r) && r == b.(dest := r.dest, fileSize := r.fileSize)
  {
    var page := if |newDb| == b.kind.pgsz then newDb else ZeroPage(b.kind.pgsz);
    b.(dest := Pager(map[1 := page], 1),
       fileSize := if s.pgsz < b.kind.pgsz then s.pgsz else DestTruncate(Geo(s, b), 1) * b.kind.pgsz)
  }

  /** The step up to the end of the copy loop, where it records its progress. */
  function Copied(s: Source, b: Backup, nPage: int, e: Env): (r: (Backup, Rc))
    requires s.Valid() && b.iNext > 0 && IsPageSize(e.kind.pgsz) && e.dest.Valid(e.kind.pgsz)
    requires b.bDestLocked ==> Ready(s, b)
    ensures r.0.bDestLocked ==> Ready(s, r.0)
    ensures (r.1 == OK ==> r.0.bDestLocked) && r.0.isAttached == b.isAttached
  {
    var rc, n := Prepare(s, b, e), |s.pages|;
    var b := Lock(b, e);
    if rc != OK then (b, rc)
    else
      var (b', rc') := CopyLoop(s, b, 0, nPage, e.faults);
      (if rc' != OK then b' else b'.(nPagecount := n, nRemaining := (n + 1 - b'.iNext) % U32), rc')
  }

  /** After the copy loop: commit or attach. */
  function AfterLoop(s: Source, b: Backup, e: Env): (r: Backup)
    requires Ready(s, b) && |e.header| == 100
    ensures Ready(s, r)
  {
    var n := |s.pages|;
    if b.iNext <= n then b.(isAttached := true, rc := OK)
    else if e.finish != OK then b.(rc := e.finish)
    else (if n == 0 then CommitEmpty(s, b, e.newDb) else Commit(s, b, e.header)).(rc := DONE)
  }

  /** Error code of the preparations, before any page is copied. */
  function Prepare(s: Source, b: Backup, e: Env): Rc {
    if e.srcInWrite then BUSY
    else if e.srcBegin != OK then e.srcBegin
    else if b.bDestLocked then (if b.kind.wal && s.pgsz != b.kind.pgsz then READONLY else OK)
    else if e.setPgsz == NOMEM then NOMEM
    else if e.destBegin != OK then e.destBegin
    else if e.kind.wal && s.pgsz != e.kind.pgsz then READONLY
    else OK
  }

  /** The destination is locked on the first step that gets that far. */
  function Lock(b: Backup, e: Env): Backup {
    if !b.bDestLocked && !e.srcInWrite && e.srcBegin == OK && e.setPgsz != NOMEM && e.destBegin == OK
    then b.(bDestLocked := true, kind := e.kind, dest := e.dest) else b
  }

  function Step(s: Source, b: Backup, nPage: int, e: Env): (r: Backup)
    requires s.Valid() && b.iNext > 0 && IsPageSize(e.kind.pgsz) && e.dest.Valid(e.kind.pgsz) && |e.header| == 100
    requires b.bDestLocked ==> Ready(s, b)
  {
    if IsFatal(b.rc) then b
    else
      var (c, rc) := Copied(s, b, nPage, e);
      if rc != OK then c.(rc := rc) else AfterLoop(s, c, e)
  }

  // ----- calls from the source pager -----

  /** sqlite3BackupUpdate() for one backup. */
  function Update(s: Source, b: Backup, q: nat, data: Page, write: map<nat, Rc>): (r: Backup)
    requires Ready(s, b) && q > 0 && |data| == s.pgsz
    ensures Ready(s, r)
  {
    if !IsFatal(b.rc) && q < b.iNext then
      var (d, rc) := OnePage(Geo(s, b), b.dest, b.kind.memdb, q, data, Keep, write);
      b.(dest := d, rc := if rc != OK then rc else b.rc)
    else b
  }

  /** sqlite3BackupRestart() for one backup. */
  function Restart(b: Backup): Backup {
    b.(iNext := 1)
  }
}

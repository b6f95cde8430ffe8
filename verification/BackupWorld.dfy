/** All backups of one source database: every interleaving of steps, reported
    source writes, truncations, external changes, starts and finishes. */
module BackupWorld {
  import opened BackupPages
  import opened BackupSpec
  import opened BackupProof
  import opened BackupCommit

  datatype World = World(src: Source, backups: seq<Backup>)

  datatype Event =
    | Start(dest: Pager)                                        // sqlite3_backup_init
    | StepOf(i: nat, nPage: int, e: Env)                        // sqlite3_backup_step
    | Finish(i: nat)                                            // sqlite3_backup_finish
    | Write(q: nat, data: Page, faults: seq<map<nat, Rc>>)      // a page write, reported to the backups
    | Truncate(n: nat)                                          // the source shrinks
    | External(pages: seq<Page>)                                // another process changed the source

  /** A backup object fresh from sqlite3_backup_init(). */
  function NewBackup(dest: Pager): Backup {
    Backup(1, OK, false, false, 0, 0, DestKind(512, false, false), dest, 0)
  }

  /** The source cut off to `n` pages, and the source as another process leaves it. */
  function Shortened(s: Source, n: nat): Source
    requires n <= |s.pages|
  {
    s.(pages := s.pages[..n], holes := set q | q in s.holes && q <= n)
  }

  function Changed(s: Source, pages: seq<Page>): Source {
    s.(pages := pages, holes := {})
  }

  /** New pages without content occur inside a write transaction only, in which
      a step is refused. */
  ghost predicate Enabled(w: World, ev: Event) {
    && w.src.Valid()
    && match ev
       case Start(_) => true
       case StepOf(i, _, e) => i < |w.backups| && e.Valid() && (w.src.holes != {} ==> e.srcInWrite)
       case Finish(i) => i < |w.backups|
       case Write(q, data, faults) =>
         && |data| == w.src.pgsz && 0 < q && q != w.src.PendingPage()
         && |faults| == |w.backups|
         && forall i, p :: 0 <= i < |faults| && p in faults[i] ==> IsError(faults[i][p])
       case Truncate(n) => n <= |w.src.pages| && n != w.src.PendingPage()
       case External(pages) => Changed(w.src, pages).Valid()
  }

  ghost predicate Inv(w: World) {
    w.src.Valid() && forall i :: 0 <= i < |w.backups| ==> BackupInv(w.src, w.backups[i])
  }

  /** The source pager calls the backups registered with it, and only those. */
  function UpdateOne(s: Source, b: Backup, q: nat, data: Page, write: map<nat, Rc>): Backup
    requires b.isAttached ==> Ready(s, b)
    requires s.Valid() && q > 0 && |data| == s.pgsz
  {
    if b.isAttached then Update(s, b, q, data, write) else b
  }

  function RestartOne(b: Backup): Backup {
    if b.isAttached then Restart(b) else b
  }

  ghost function Next(w: World, ev: Event): World
    requires Inv(w) && Enabled(w, ev)
  {
    var n := |w.backups|;
    match ev
    case Start(dest) => w.(backups := w.backups + [NewBackup(dest)])
    case StepOf(i, nPage, e) => w.(backups := w.backups[i := Step(w.src, w.backups[i], nPage, e)])
    case Finish(i) => w.(backups := w.backups[..i] + w.backups[i+1..])
    case Write(q, data, faults) =>
      World(WritePage(w.src, q, data),
            seq(n, i requires 0 <= i < n => UpdateOne(w.src, w.backups[i], q, data, faults[i])))
    case Truncate(k) => w.(src := Shortened(w.src, k))
    case External(pages) =>
      World(Changed(w.src, pages), seq(n, i requires 0 <= i < n => RestartOne(w.backups[i])))
  }

  lemma WriteKeeps(s: Source, b: Backup, q: nat, data: Page, write: map<nat, Rc>)
    requires BackupInv(s, b) && |data| == s.pgsz && 0 < q && q != s.PendingPage()
    requires forall p :: p in write ==> IsError(write[p])
    ensures BackupInv(WritePage(s, q, data), UpdateOne(s, b, q, data, write))
  {
    if b.isAttached {
      UpdateKeeps(s, b, q, data, write);
    }
  }

  lemma TruncateKeeps(s: Source, b: Backup, n: nat)
    requires BackupInv(s, b) && n <= |s.pages| && n != s.PendingPage()
    ensures BackupInv(Shortened(s, n), b)
  {
    hide PageAgrees;
    var t := Shortened(s, n);
    if !IsFatal(b.rc) && b.iNext > 1 {
      forall q | 1 <= q < b.iNext && q <= n && q != s.PendingPage() && q !in t.holes
        ensures PageAgrees(Geo(t, b), t.PageAt(q), b.dest, q)
      {
        assert t.PageAt(q) == s.PageAt(q);
      }
    }
  }

  lemma ExternalKeeps(s: Source, b: Backup, pages: seq<Page>)
    requires BackupInv(s, b) && Changed(s, pages).Valid()
    ensures BackupInv(Changed(s, pages), RestartOne(b))
  {
    hide PageAgrees;
  }

  lemma NextKeeps(w: World, ev: Event)
    requires Inv(w) && Enabled(w, ev)
    ensures Inv(Next(w, ev))
  {
    hide BackupInv, Step, UpdateOne, RestartOne, WritePage;
    match ev
    case Start(dest) => StartKeeps(w.src, dest);
    case StepOf(i, nPage, e) => StepKeeps(w.src, w.backups[i], nPage, e);
    case Finish(_) =>
    case Write(q, data, faults) =>
      forall i | 0 <= i < |w.backups|
        ensures BackupInv(WritePage(w.src, q, data), Next(w, ev).backups[i])
      {
        WriteKeeps(w.src, w.backups[i], q, data, faults[i]);
      }
    case Truncate(n) =>
      forall i | 0 <= i < |w.backups| ensures BackupInv(Next(w, ev).src, w.backups[i]) {
        TruncateKeeps(w.src, w.backups[i], n);
      }
    case External(pages) =>
      forall i | 0 <= i < |w.backups| ensures BackupInv(Next(w, ev).src, Next(w, ev).backups[i]) {
        ExternalKeeps(w.src, w.backups[i], pages);
      }
  }

  lemma StartKeeps(s: Source, dest: Pager)
    requires s.Valid()
    ensures BackupInv(s, NewBackup(dest))
  {
  }

  // ----- whole runs -----

  /** `ws` is a run: it starts without backups and each event is enabled. */
  ghost predicate IsRun(ws: seq<World>, evs: seq<Event>) {
    && |ws| == |evs| + 1
    && ws[0].src.Valid() && ws[0].backups == []
    && forall k :: 0 <= k < |evs| ==> RunStep(ws[k], evs[k], ws[k+1])
  }

  /** Next() is defined on worlds that satisfy the invariant, which is all of them. */
  ghost predicate RunStep(w: World, ev: Event, w': World) {
    Enabled(w, ev) && (Inv(w) ==> w' == Next(w, ev))
  }

  lemma {:induction false} RunInv(ws: seq<World>, evs: seq<Event>, k: nat)
    requires IsRun(ws, evs) && k <= |evs|
    ensures Inv(ws[k])
  {
    hide BackupInv, Next, Enabled;
    if k > 0 {
      RunInv(ws, evs, k - 1);
      assert RunStep(ws[k-1], evs[k-1], ws[k-1+1]);
      NextKeeps(ws[k-1], evs[k-1]);
    }
  }

  /** Throughout every run, a backup that can go on and has copied a page is
      registered with the source, and every page it has copied and that still
      exists is that of the current source, but for new pages that the source itself
      has not written yet. */
  lemma CopiedPagesCurrent(ws: seq<World>, evs: seq<Event>, k: nat, i: nat)
    requires IsRun(ws, evs) && k <= |evs| && i < |ws[k].backups|
    requires !IsFatal(ws[k].backups[i].rc) && ws[k].backups[i].iNext > 1
    ensures var s, b := ws[k].src, ws[k].backups[i];
            && b.isAttached && b.bDestLocked && Ready(s, b)
            && forall off: nat ::
                 (off / s.pgsz + 1 < b.iNext && off / s.pgsz < |s.pages|
                  && off / s.pgsz + 1 != s.PendingPage() && off / s.pgsz + 1 !in s.holes && Wanted(Geo(s, b), off)) ==>
                 ByteAt(b.dest, b.kind.pgsz, off) == s.PageAt(off / s.pgsz + 1)[off % s.pgsz]
  {
    RunInv(ws, evs, k);
    var s, b := ws[k].src, ws[k].backups[i];
    assert BackupInv(s, b);
    forall off: nat | off / s.pgsz + 1 < b.iNext && off / s.pgsz < |s.pages|
                 && off / s.pgsz + 1 != s.PendingPage() && off / s.pgsz + 1 !in s.holes && Wanted(Geo(s, b), off)
      ensures ByteAt(b.dest, b.kind.pgsz, off) == s.PageAt(off / s.pgsz + 1)[off % s.pgsz]
    {
      assert PageAgrees(Geo(s, b), s.PageAt(off / s.pgsz + 1), b.dest, off / s.pgsz + 1);
    }
  }

  /** Whenever a step of any run reports DONE, the destination file is, byte for
      byte and in its size, the source as it is at that moment. */
  lemma DoneMeansEqual(ws: seq<World>, evs: seq<Event>, k: nat)
    requires IsRun(ws, evs) && k < |evs| && evs[k].StepOf? && evs[k].i < |ws[k].backups|
    requires !IsFatal(ws[k].backups[evs[k].i].rc) && evs[k].i < |ws[k+1].backups|
    requires ws[k+1].backups[evs[k].i].rc == DONE && |ws[k].src.pages| > 0
    ensures var s, b := ws[k+1].src, ws[k+1].backups[evs[k].i];
            s == ws[k].src && Ready(s, b) && FileIs(s, b.kind.pgsz, b.dest, b.fileSize)
  {
    hide BackupInv, FileIs, Step;
    RunInv(ws, evs, k);
    assert RunStep(ws[k], evs[k], ws[k+1]);
    StepDone(ws[k].src, ws[k].backups[evs[k].i], evs[k].nPage, evs[k].e);
  }
}

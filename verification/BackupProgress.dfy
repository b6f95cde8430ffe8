/** What a backup gets done: how far a step comes, that repeated steps reach DONE, and
    that nothing but a fault makes a backup fail. */
module BackupProgress {
  import opened BackupPages
  import opened BackupSpec
  import opened BackupProof
  import opened BackupCommit
  import opened BackupWorld
  import opened Seqs

  // ----- how far a step comes -----

  /** The next page after copying at most `nPage` pages of `n`, or all if negative. */
  function NextAfter(iNext: nat, n: nat, nPage: int): nat {
    if nPage < 0 then Max(iNext, n + 1) else Max(iNext, Min(iNext + nPage, n + 1))
  }

  /** Without an error the copy loop passes exactly the pages it is allowed; with one
      it does not come further. */
  lemma {:induction false} CopyLoopCounts(s: Source, b: Backup, ii: nat, nPage: int, f: Faults)
    requires Ready(s, b) && (nPage < 0 || ii <= nPage)
    ensures var (r, rc) := CopyLoop(s, b, ii, nPage, f);
            var end := NextAfter(b.iNext, |s.pages|, if nPage < 0 then nPage else nPage - ii);
            if rc == OK then r.iNext == end else b.iNext < r.iNext <= end
    decreases |s.pages| + 1 - b.iNext
  {
    hide OnePage;
    if (nPage < 0 || ii < nPage) && b.iNext <= |s.pages| {
      var (b', rc) := CopyNext(s, b, f);
      if rc == OK {
        CopyLoopCounts(s, b', ii + 1, nPage, f);
      }
    }
  }

  lemma {:induction false} NoFaultCopy(g: Geometry, d: Pager, iOff: nat, iEnd: nat, data: Page, h: HeaderCount)
    requires Aligned(g, iOff) && d.Valid(g.dest) && |data| == g.src
    ensures CopyFrom(g, d, iOff, iEnd, data, h, map[]).1 == OK
    decreases iEnd - iOff
  {
    hide CopyPiece;
    if iOff < iEnd {
      AlignedNext(g, iOff);
      NoFaultCopy(g, d, iOff + g.dest, iEnd, data, h);
      NoFaultCopy(g, CopyPiece(g, d, iOff, data, h), iOff + g.dest, iEnd, data, h);
    }
  }

  /** The destination can take pages of the source: the page size of a database in
      memory, or in WAL mode, cannot be another one. */
  predicate KindOk(s: Source, kind: DestKind) {
    (kind.memdb || kind.wal) ==> s.pgsz == kind.pgsz
  }

  lemma NoFaultPage(s: Source, b: Backup, q: nat, data: Page, h: HeaderCount)
    requires Ready(s, b) && q > 0 && |data| == s.pgsz && KindOk(s, b.kind)
    ensures OnePage(Geo(s, b), b.dest, b.kind.memdb, q, data, h, map[]).1 == OK
  {
    hide CopyFrom, Aligned;
    PageAligned(Geo(s, b), q);
    NoFaultCopy(Geo(s, b), b.dest, (q - 1) * s.pgsz, q * s.pgsz, data, h);
  }

  lemma {:induction false} NoFaultLoop(s: Source, b: Backup, ii: nat, nPage: int)
    requires Ready(s, b) && KindOk(s, b.kind)
    ensures CopyLoop(s, b, ii, nPage, Faults(map[], map[])).1 == OK
    decreases |s.pages| + 1 - b.iNext
  {
    hide OnePage, KindOk;
    var f := Faults(map[], map[]);
    if (nPage < 0 || ii < nPage) && b.iNext <= |s.pages| {
      var q := b.iNext;
      if q != s.PendingPage() {
        NoFaultPage(s, b, q, s.PageAt(q), Count(|s.pages|));
      }
      NoFaultLoop(s, CopyNext(s, b, f).0, ii + 1, nPage);
    }
  }

  /** The step gets past its preparations, and no fault or mismatch is in its way. */
  ghost predicate Clear(s: Source, b: Backup, e: Env) {
    && e.Valid() && Prepare(s, b, e) == OK && KindOk(s, Lock(b, e).kind)
    && e.faults == Faults(map[], map[]) && e.finish == OK
  }

  /** A step without obstacles copies exactly the pages it is allowed, reports its
      progress, and is DONE exactly when no more pages than that were left. */
  lemma StepCounts(s: Source, b: Backup, nPage: int, e: Env)
    requires BackupInv(s, b) && !IsFatal(b.rc) && Clear(s, b, e)
    ensures var r, n := Step(s, b, nPage, e), |s.pages|;
            && (r.rc == DONE <==> nPage < 0 || n + 1 - b.iNext <= nPage)
            && (r.rc != DONE ==> r.rc == OK && r.isAttached)
            && r.iNext == NextAfter(b.iNext, n, nPage)
            && r.nPagecount == n && (n < U32 && b.iNext <= n + 1 ==> r.nRemaining == n + 1 - r.iNext)
            && r.bDestLocked && r.kind == Lock(b, e).kind
  {
    hide Agrees, Commit, CommitEmpty, CopyLoop;
    var l := Lock(b, e);
    NoFaultLoop(s, l, 0, nPage);
    CopyLoopCounts(s, l, 0, nPage, e.faults);
  }

  /** One step without a page limit completes the backup when nothing fails and the
      page sizes do not rule it out. */
  lemma UnlimitedStep(s: Source, b: Backup, e: Env)
    requires BackupInv(s, b) && e.Valid() && !IsFatal(b.rc) && Prepare(s, b, e) == OK
    requires e.faults == Faults(map[], map[]) && e.finish == OK
    requires var k := Lock(b, e).kind; !(k.memdb && s.pgsz != k.pgsz)
    ensures Step(s, b, -1, e).rc == DONE
  {
    assert Clear(s, b, e);
    hide BackupInv, Step, Clear;
    StepCounts(s, b, -1, e);
  }

  // ----- steps that are repeated -----

  /** No transaction, lock or fault, and a destination that can take the pages. */
  ghost predicate Easy(s: Source, e: Env) {
    && e.Valid() && !e.srcInWrite && e.srcBegin == OK && e.destBegin == OK && e.setPgsz != NOMEM
    && e.faults == Faults(map[], map[]) && e.finish == OK && KindOk(s, e.kind)
  }

  /** The backup has not failed, and its destination, once locked, can take the pages. */
  ghost predicate Alive(s: Source, b: Backup) {
    !IsError(b.rc) && (b.bDestLocked ==> KindOk(s, b.kind))
  }

  lemma EasyIsClear(s: Source, b: Backup, e: Env)
    requires Easy(s, e) && Alive(s, b)
    ensures Clear(s, b, e)
  {
  }

  ghost function Steps(s: Source, b: Backup, nPage: int, es: seq<Env>): (r: Backup)
    requires BackupInv(s, b) && forall i :: 0 <= i < |es| ==> es[i].Valid()
    ensures BackupInv(s, r)
  {
    if es == [] then b
    else
      var n := |es| - 1;
      var t := Steps(s, b, nPage, es[..n]);
      StepKeeps(s, t, nPage, es[n]);
      Step(s, t, nPage, es[n])
  }

  /** `r` is what `b` becomes when up to `k` times `nPage` pages are copied. */
  ghost predicate Reached(s: Source, b: Backup, nPage: nat, k: nat, r: Backup) {
    && BackupInv(s, r) && Alive(s, r)
    && (r.rc == DONE <==> k > 0 && |s.pages| + 1 - b.iNext <= k * nPage)
    && (r.rc != DONE ==> !IsFatal(r.rc) && r.iNext == b.iNext + k * nPage)
    && (r.rc == DONE && |s.pages| > 0 && s.holes == {} ==>
          Ready(s, r) && FileIs(s, r.kind.pgsz, r.dest, r.fileSize))
  }

  lemma NextReached(s: Source, b: Backup, nPage: nat, k: nat, t: Backup, e: Env)
    requires Reached(s, b, nPage, k, t) && Easy(s, e)
    ensures Reached(s, b, nPage, k + 1, Step(s, t, nPage, e))
  {
    EasyIsClear(s, t, e);
    StepKeeps(s, t, nPage, e);
    assert (k + 1) * nPage == k * nPage + nPage;
    if t.rc != DONE {
      StepCounts(s, t, nPage, e);
      var r := Step(s, t, nPage, e);
      StillAlive(s, t, e);
      hide Step, BackupInv, FileIs, Prepare, Lock, Clear;
      if r.rc == DONE && |s.pages| > 0 && s.holes == {} {
        StepDone(s, t, nPage, e);
      }
    }
  }

  lemma StillAlive(s: Source, b: Backup, e: Env)
    requires Alive(s, b) && Easy(s, e)
    ensures KindOk(s, Lock(b, e).kind)
  {
  }

  /** While the source does not change, steps of any size reach DONE, exactly when
      together they may copy as many pages as there were left; then the file is the
      source. */
  lemma {:induction false} StepsReachDone(s: Source, b: Backup, nPage: nat, es: seq<Env>)
    requires BackupInv(s, b) && !IsFatal(b.rc) && Alive(s, b)
    requires forall i :: 0 <= i < |es| ==> es[i].Valid() && Easy(s, es[i])
    ensures Reached(s, b, nPage, |es|, Steps(s, b, nPage, es))
  {
    hide Reached, BackupInv, Easy, Env.Valid, Step;
    if es == [] {
      NoneReached(s, b, nPage);
    } else {
      var n := |es| - 1;
      StepsReachDone(s, b, nPage, es[..n]);
      NextReached(s, b, nPage, n, Steps(s, b, nPage, es[..n]), es[n]);
    }
  }

  lemma NoneReached(s: Source, b: Backup, nPage: nat)
    requires BackupInv(s, b) && !IsFatal(b.rc) && Alive(s, b)
    ensures Reached(s, b, nPage, 0, b)
  {
  }

  // ----- why a backup fails -----

  /** The code is one of the faults, or the refusal to change the page size of a
      database in memory. */
  ghost predicate FailsBy(s: Source, kind: DestKind, write: map<nat, Rc>, rc: Rc) {
    || (exists q :: q in write && write[q] == rc && rc != OK)
    || (rc == READONLY && kind.memdb && s.pgsz != kind.pgsz)
  }

  lemma {:induction false} CopyFails(g: Geometry, d: Pager, iOff: nat, iEnd: nat, data: Page, h: HeaderCount, write: map<nat, Rc>)
    requires Aligned(g, iOff) && d.Valid(g.dest) && |data| == g.src
    ensures var rc := CopyFrom(g, d, iOff, iEnd, data, h, write).1;
            rc != OK ==> exists q :: q in write && write[q] == rc
    decreases iEnd - iOff
  {
    hide CopyPiece;
    if iOff < iEnd {
      AlignedNext(g, iOff);
      CopyFails(g, d, iOff + g.dest, iEnd, data, h, write);
      CopyFails(g, CopyPiece(g, d, iOff, data, h), iOff + g.dest, iEnd, data, h, write);
    }
  }

  lemma PageFails(s: Source, b: Backup, q: nat, data: Page, h: HeaderCount, write: map<nat, Rc>)
    requires Ready(s, b) && q > 0 && |data| == s.pgsz
    ensures var rc := OnePage(Geo(s, b), b.dest, b.kind.memdb, q, data, h, write).1;
            (rc != OK ==> FailsBy(s, b.kind, write, rc)) && (b.kind.memdb && s.pgsz != b.kind.pgsz ==> rc == READONLY)
  {
    hide CopyFrom, Aligned;
    PageAligned(Geo(s, b), q);
    CopyFails(Geo(s, b), b.dest, (q - 1) * s.pgsz, q * s.pgsz, data, h, write);
  }

  /** A reported write leaves the result code alone, or a fault of copying it is the
      reason: without one a backup never fails here. */
  lemma UpdateFails(s: Source, b: Backup, q: nat, data: Page, write: map<nat, Rc>)
    requires Ready(s, b) && q > 0 && |data| == s.pgsz
    ensures var r := Update(s, b, q, data, write);
            && (r.rc == b.rc || (!IsFatal(b.rc) && q < b.iNext && FailsBy(s, b.kind, write, r.rc)))
            && (q >= b.iNext || IsFatal(b.rc) ==> r == b)
            && (!IsFatal(b.rc) && q < b.iNext && b.kind.memdb && s.pgsz != b.kind.pgsz ==> r.rc == READONLY)
  {
    hide OnePage;
    PageFails(s, b, q, data, Keep, write);
  }

  lemma {:induction false} LoopFails(s: Source, b: Backup, ii: nat, nPage: int, f: Faults)
    requires Ready(s, b)
    ensures var (r, rc) := CopyLoop(s, b, ii, nPage, f);
            rc != OK ==> r.iNext > 1
                         && ((r.iNext - 1 in f.read && f.read[r.iNext-1] == rc) || FailsBy(s, b.kind, f.write, rc))
    ensures var (r, rc) := CopyLoop(s, b, ii, nPage, f);
            rc == OK && b.iNext < r.iNext && b.iNext != s.PendingPage() ==> !(b.kind.memdb && s.pgsz != b.kind.pgsz)
    decreases |s.pages| + 1 - b.iNext
  {
    hide OnePage, FailsBy;
    if (nPage < 0 || ii < nPage) && b.iNext <= |s.pages| {
      var q := b.iNext;
      if q != s.PendingPage() {
        PageFails(s, b, q, s.PageAt(q), Count(|s.pages|), f.write);
      }
      var (b', rc) := CopyNext(s, b, f);
      if rc == OK {
        LoopFails(s, b', ii + 1, nPage, f);
      }
    }
  }

  /** Every result of a step has its cause, and no used page is copied into a
      destination that cannot take it.  What keeps it from starting leaves the
      backup as it was, but for the lock; BUSY for a source in a write transaction comes
      first, and WAL mode with another page size is refused even with the lock. */
  lemma StepFails(s: Source, b: Backup, nPage: int, e: Env)
    requires BackupInv(s, b) && e.Valid() && !IsFatal(b.rc)
    ensures var r, k := Step(s, b, nPage, e), Lock(b, e).kind;
            if e.srcInWrite then r == b.(rc := BUSY)
            else if e.srcBegin != OK then r == b.(rc := e.srcBegin)
            else if !b.bDestLocked && e.setPgsz == NOMEM then r == b.(rc := NOMEM)
            else if !b.bDestLocked && e.destBegin != OK then r == b.(rc := e.destBegin)
            else
              && r.bDestLocked && r.kind == (if b.bDestLocked then b.kind else e.kind)
              && (r.kind.wal && r.kind.pgsz != s.pgsz ==> r.rc == READONLY && r.iNext == b.iNext)
              && (!IsError(r.rc) && b.iNext < r.iNext && b.iNext != s.PendingPage() ==> KindOk(s, r.kind))
              && (IsError(r.rc) ==>
                    || (r.kind.wal && r.kind.pgsz != s.pgsz)
                    || (r.iNext - 1 in e.faults.read && e.faults.read[r.iNext-1] == r.rc)
                    || FailsBy(s, r.kind, e.faults.write, r.rc)
                    || r.rc == e.finish)
  {
    hide Agrees, Commit, CommitEmpty, CopyLoop;
    var l := Lock(b, e);
    if Prepare(s, b, e) == OK {
      LoopFails(s, l, 0, nPage, e.faults);
    }
  }

  // ----- runs without faults -----

  /** No fault, no error of a transaction, and only destinations that can take the
      pages; locks and transactions may still make a step wait. */
  ghost predicate Calm(w: World, ev: Event) {
    match ev
    case StepOf(_, _, e) =>
      && e.faults == Faults(map[], map[]) && e.finish == OK && e.setPgsz != NOMEM && KindOk(w.src, e.kind)
      && !IsFatal(e.srcBegin) && !IsFatal(e.destBegin)
    case Write(_, _, faults) => forall i :: 0 <= i < |faults| ==> faults[i] == map[]
    case _ => true
  }

  lemma CalmStep(s: Source, b: Backup, nPage: int, e: Env)
    requires BackupInv(s, b) && e.Valid() && Alive(s, b) && KindOk(s, e.kind)
    requires e.faults == Faults(map[], map[]) && e.finish == OK && e.setPgsz != NOMEM
    requires !IsFatal(e.srcBegin) && !IsFatal(e.destBegin)
    ensures Alive(s, Step(s, b, nPage, e))
  {
    hide Agrees, Ready, Commit, CommitEmpty, CopyLoop;
    if !IsFatal(b.rc) {
      var rc := Prepare(s, b, e);
      if rc == OK {
        StepCounts(s, b, nPage, e);
      }
    }
  }

  lemma CalmWrite(s: Source, b: Backup, q: nat, data: Page)
    requires BackupInv(s, b) && q > 0 && |data| == s.pgsz && Alive(s, b)
    ensures UpdateOne(s, b, q, data, map[]).rc == b.rc
  {
    hide OnePage;
    if b.isAttached {
      UpdateFails(s, b, q, data, map[]);
    }
  }

  ghost predicate AllAlive(w: World) {
    forall i :: 0 <= i < |w.backups| ==> Alive(w.src, w.backups[i])
  }

  /** No event without a fault makes any backup fail, and all but a step and a finish
      leave the result code of every backup alone. */
  lemma CalmKeeps(w: World, ev: Event)
    requires Inv(w) && Enabled(w, ev) && Calm(w, ev) && AllAlive(w)
    ensures AllAlive(Next(w, ev))
    ensures !ev.StepOf? && !ev.Finish? ==>
              forall i :: 0 <= i < |w.backups| ==> Next(w, ev).backups[i].rc == w.backups[i].rc
  {
    hide BackupInv, Step, Update, WritePage;
    match ev
    case StepOf(i, nPage, e) =>
      CalmStep(w.src, w.backups[i], nPage, e);
    case Write(q, data, faults) =>
      forall i | 0 <= i < |w.backups|
        ensures var r := Next(w, ev).backups[i]; Alive(w.src, r) && r.rc == w.backups[i].rc
      {
        CalmWriteOne(w, ev, i);
      }
    case _ =>
  }

  lemma CalmWriteOne(w: World, ev: Event, i: nat)
    requires Inv(w) && Enabled(w, ev) && Calm(w, ev) && AllAlive(w) && ev.Write? && i < |w.backups|
    ensures var r := Next(w, ev).backups[i];
            r.rc == w.backups[i].rc && r.kind == w.backups[i].kind && r.bDestLocked == w.backups[i].bDestLocked
  {
    hide OnePage, WritePage, Update;
    assert BackupInv(w.src, w.backups[i]) && Alive(w.src, w.backups[i]);
    CalmWrite(w.src, w.backups[i], ev.q, ev.data);
    UpdateFrame(w.src, w.backups[i], ev.q, ev.data);
  }

  lemma UpdateFrame(s: Source, b: Backup, q: nat, data: Page)
    requires BackupInv(s, b) && q > 0 && |data| == s.pgsz
    ensures var r := UpdateOne(s, b, q, data, map[]); r.kind == b.kind && r.bDestLocked == b.bDestLocked
  {
    hide OnePage;
  }

  /** In every run without faults, whatever the order of its events and however often a
      step has to wait: no backup ever fails, and at any moment one step without a page
      limit, if nothing holds it up, ends it with the source in the destination file. */
  lemma CalmRun(ws: seq<World>, evs: seq<Event>, k: nat, i: nat, e: Env)
    requires IsRun(ws, evs) && k <= |evs| && i < |ws[k].backups|
    requires forall m :: 0 <= m < k ==> Calm(ws[m], evs[m])
    requires Easy(ws[k].src, e)
    ensures var s, b := ws[k].src, ws[k].backups[i];
            && !IsError(b.rc) && BackupInv(s, b)
            && (b.rc != DONE ==> Step(s, b, -1, e).rc == DONE)
            && (b.rc != DONE && |s.pages| > 0 && s.holes == {} ==>
                  var r := Step(s, b, -1, e); Ready(s, r) && FileIs(s, r.kind.pgsz, r.dest, r.fileSize))
  {
    hide BackupInv, FileIs, Step, Next, Calm;
    RunInv(ws, evs, k);
    CalmAlive(ws, evs, k);
    var s, b := ws[k].src, ws[k].backups[i];
    assert BackupInv(s, b) && Alive(s, b);
    if b.rc != DONE {
      EasyIsClear(s, b, e);
      StepCounts(s, b, -1, e);
      if |s.pages| > 0 && s.holes == {} {
        StepDone(s, b, -1, e);
      }
    }
  }

  lemma {:induction false} CalmAlive(ws: seq<World>, evs: seq<Event>, k: nat)
    requires IsRun(ws, evs) && k <= |evs| && forall m :: 0 <= m < k ==> Calm(ws[m], evs[m])
    ensures AllAlive(ws[k])
  {
    hide Inv, Next, Enabled, Calm, Alive;
    if k > 0 {
      CalmAlive(ws, evs, k - 1);
      RunInv(ws, evs, k - 1);
      assert RunStep(ws[k-1], evs[k-1], ws[k-1+1]);
      CalmKeeps(ws[k-1], evs[k-1]);
    }
  }
}

/** The backup object and the list of backups that a source pager keeps, with the
    fields and loops of the original; each method is tied to its function in
    BackupSpec. */
module BackupObject {
  import opened BackupPages
  import opened BackupSpec
  import opened BackupWorld
  import opened BackupProgress
  import opened Seqs

  class BackupHandle {
    var iNext: nat
    var rc: Rc
    var bDestLocked: bool
    var isAttached: bool
    var nRemaining: nat
    var nPagecount: nat
    var kind: DestKind
    var dest: Pager
    var fileSize: nat
    var pNext: BackupHandle?

    ghost function View(): Backup
      reads this
    {
      Backup(iNext, rc, bDestLocked, isAttached, nRemaining, nPagecount, kind, dest, fileSize)
    }

    /** sqlite3_backup_init() */
    constructor (dest: Pager)
      ensures View() == Backup(1, OK, false, false, 0, 0, DestKind(512, false, false), dest, 0)
      ensures pNext == null
    {
      iNext, rc, bDestLocked, isAttached := 1, OK, false, false;
      nRemaining, nPagecount, fileSize := 0, 0, 0;
      kind := DestKind(512, false, false);
      this.dest := dest;
      pNext := null;
    }

    /** backupOnePage() */
    method CopyOnePage(s: Source, q: nat, zSrcData: Page, bUpdate: bool, write: map<nat, Rc>) returns (err: Rc)
      requires Ready(s, View()) && q > 0 && |zSrcData| == s.pgsz
      modifies this`dest
      ensures Ready(s, View())
      ensures (dest, err) == OnePage(Geo(s, old(View())), old(dest), kind.memdb, q, zSrcData,
                                     if bUpdate then Keep else Count(|s.pages|), write)
    {
      hide CopyPiece, Aligned;
      var g := Geometry(s.pgsz, kind.pgsz, s.pending);
      var h := if bUpdate then Keep else Count(|s.pages|);
      var iEnd := q * g.src;
      if g.src != g.dest && kind.memdb {
        return READONLY;
      }
      PageAligned(g, q);
      ghost var all := CopyFrom(g, dest, (q - 1) * g.src, iEnd, zSrcData, h, write);
      var iOff := iEnd - g.src;
      while iOff < iEnd
        invariant Aligned(g, iOff) && dest.Valid(g.dest)
        invariant all == CopyFrom(g, dest, iOff, iEnd, zSrcData, h, write)
        decreases iEnd - iOff
      {
        AlignedNext(g, iOff);
        var iDest := iOff / g.dest + 1;
        if iDest != g.DestPending() {
          if iDest in write && write[iDest] != OK {
            return write[iDest];
          }
          dest := CopyPiece(g, dest, iOff, zSrcData, h);
        }
        iOff := iOff + g.dest;
      }
      return OK;
    }

    /** The start of sqlite3_backup_step(): the locks and the page sizes. */
    method Begin(s: Source, e: Env) returns (err: Rc)
      requires s.Valid() && iNext > 0 && (bDestLocked ==> Ready(s, View()))
      requires IsPageSize(e.kind.pgsz) && e.dest.Valid(e.kind.pgsz)
      modifies this`bDestLocked, this`kind, this`dest
      ensures err == Prepare(s, old(View()), e) && View() == Lock(old(View()), e)
      ensures (bDestLocked ==> Ready(s, View())) && (err == OK ==> bDestLocked)
    {
      err := if e.srcInWrite then BUSY else OK;
      if err == OK {
        err := e.srcBegin;
      }
      if err == OK && !bDestLocked && e.setPgsz == NOMEM {
        err := NOMEM;
      }
      if err == OK && !bDestLocked {
        err := e.destBegin;
        if err == OK {
          bDestLocked, kind, dest := true, e.kind, e.dest;
        }
      }
      if err == OK && kind.wal && s.pgsz != kind.pgsz {
        err := READONLY;
      }
    }

    /** The copy loop of sqlite3_backup_step(). */
    method CopyPages(s: Source, nPage: int, f: Faults) returns (err: Rc)
      requires Ready(s, View())
      modifies this`dest, this`iNext
      ensures Ready(s, View())
      ensures (View(), err) == CopyLoop(s, old(View()), 0, nPage, f)
      ensures err == OK ==> iNext == NextAfter(old(iNext), |s.pages|, nPage)
    {
      hide OnePage;
      var ii := 0;
      err := OK;
      ghost var all := CopyLoop(s, View(), 0, nPage, f);
      while (nPage < 0 || ii < nPage) && iNext <= |s.pages| && err == OK
        invariant Ready(s, View()) && ii >= 0 && (nPage < 0 || ii <= nPage)
        invariant iNext == old(iNext) + ii && (ii == 0 || iNext <= |s.pages| + 1)
        invariant all == if err == OK then CopyLoop(s, View(), ii, nPage, f) else (View(), err)
        decreases |s.pages| + 1 - iNext
      {
        var iSrcPg := iNext;
        if iSrcPg != s.PendingPage() {
          if iSrcPg in f.read {
            err := f.read[iSrcPg];
          }
          if err == OK {
            err := CopyOnePage(s, iSrcPg, s.PageAt(iSrcPg), false, f.write);
          }
        }
        iNext := iNext + 1;
        ii := ii + 1;
      }
    }

    /** sqlite3_backup_step() up to the record of its progress. */
    method CopyPhase(s: Source, nPage: int, e: Env) returns (err: Rc)
      requires s.Valid() && iNext > 0 && (bDestLocked ==> Ready(s, View()))
      requires IsPageSize(e.kind.pgsz) && e.dest.Valid(e.kind.pgsz)
      modifies this`iNext, this`bDestLocked, this`nRemaining, this`nPagecount, this`kind, this`dest
      ensures (View(), err) == Copied(s, old(View()), nPage, e)
    {
      hide CopyLoop, Prepare, Lock;
      err := Begin(s, e);
      if err == OK {
        err := CopyPages(s, nPage, e.faults);
        if err == OK {
          nPagecount := |s.pages|;
          nRemaining := (|s.pages| + 1 - iNext) % U32;
        }
      }
    }

    /** The end of sqlite3_backup_step(), after a copy loop without error. */
    method CommitBackup(s: Source, e: Env) returns (err: Rc)
      requires Ready(s, View()) && |e.header| == 100
      modifies this`dest, this`fileSize
      ensures Ready(s, View())
      ensures err == (if e.finish != OK then e.finish else DONE)
      ensures View() == if e.finish != OK then old(View())
                        else if |s.pages| == 0 then CommitEmpty(s, old(View()), e.newDb)
                        else Commit(s, old(View()), e.header)
    {
      hide FixUpAll, RewriteHeader, DestTruncate;
      if e.finish != OK {
        return e.finish;
      }
      if |s.pages| == 0 {
        dest := Pager(map[1 := if |e.newDb| == kind.pgsz then e.newDb else ZeroPage(kind.pgsz)], 1);
        fileSize := if s.pgsz < kind.pgsz then s.pgsz
                    else DestTruncate(Geometry(s.pgsz, kind.pgsz, s.pending), 1) * kind.pgsz;
      } else {
        dest := RewriteHeader(dest, kind.pgsz, e.header);
        var g := Geometry(s.pgsz, kind.pgsz, s.pending);
        if s.pgsz < kind.pgsz {
          var iSize := g.src * |s.pages|;
          var size := Max(dest.dbSize * g.dest, FixUpEnd(g, iSize));
          WriteTail(s);
          fileSize := Min(iSize, size);
        } else {
          var n := DestTruncate(g, |s.pages|);
          dest := dest.(dbSize := n);
          fileSize := n * kind.pgsz;
        }
      }
      return DONE;
    }

    /** The fix-up loop: source pages inside the destination's unused page are
        written to the file directly. */
    method WriteTail(s: Source)
      requires Ready(s, View()) && s.pgsz < kind.pgsz
      modifies this`dest
      ensures Ready(s, View()) && dest == FixUpAll(Geo(s, old(View())), s.pages, old(dest))
    {
      hide WriteAt, FixUp, Aligned;
      var g := Geometry(s.pgsz, kind.pgsz, s.pending);
      var iEnd := Min(g.pending + g.dest, g.src * |s.pages|);
      FixUpStart(g);
      ghost var all := FixUpAll(g, s.pages, dest);
      var iOff := g.pending + g.src;
      while iOff < iEnd
        invariant Aligned(g, iOff) && dest.Valid(g.dest)
        invariant iEnd <= |s.pages| * g.src && all == FixUp(g, s.pages, dest, iOff, iEnd)
        decreases iEnd - iOff
      {
        FixUpStep(g, s.pages, dest, iOff, iEnd);
        var iSrcPg := iOff / g.src + 1;
        dest := WriteAt(dest, g.dest, iOff / g.dest + 1, iOff % g.dest, s.PageAt(iSrcPg));
        iOff := iOff + g.src;
      }
      FixUpEnds(g, s.pages, dest, iOff, iEnd);
    }

    /** The body of the loop in backupUpdate(). */
    method ApplyUpdate(s: Source, q: nat, aData: Page, write: map<nat, Rc>)
      requires Ready(s, View()) && q > 0 && |aData| == s.pgsz
      modifies this`dest, this`rc
      ensures View() == Update(s, old(View()), q, aData, write)
      ensures rc == old(rc) || (q < iNext && FailsBy(s, kind, write, rc))
    {
      UpdateFails(s, View(), q, aData, write);
      hide OnePage, FailsBy;
      if !IsFatal(rc) && q < iNext {
        var err := CopyOnePage(s, q, aData, true, write);
        if err != OK {
          rc := err;
        }
      }
    }
  }

  predicate Distinct(c: seq<BackupHandle>) {
    forall i, j :: 0 <= i < j < |c| ==> c[i] != c[j]
  }

  function At(c: seq<BackupHandle>, p: BackupHandle): (i: nat)
    requires p in c
    ensures i < |c| && c[i] == p
  {
    if c[0] == p then 0 else 1 + At(c[1..], p)
  }

  lemma OneLess(c: seq<BackupHandle>, k: nat)
    requires k < |c| && Distinct(c)
    ensures var r := c[..k] + c[k+1..];
            Distinct(r) && forall x :: x in r <==> x in c && x != c[k]
  {
  }

  /** The source pager: the list of the backups that it reports changes to, and
      all the backups of this source that have been started and not finished. */
  class SourcePager {
    var pBackup: BackupHandle?
    ghost var chain: seq<BackupHandle>
    ghost var backups: seq<BackupHandle>

    /** The list is linked from pBackup. */
    ghost predicate Linked()
      reads this`pBackup, this`chain, chain`pNext
    {
      && pBackup == (if chain == [] then null else chain[0])
      && (forall i {:trigger chain[i].pNext} :: 0 <= i < |chain| ==>
            chain[i].pNext == if i + 1 < |chain| then chain[i+1] else null)
    }

    /** The list holds exactly the backups marked as attached. */
    ghost predicate Valid()
      reads this, chain`pNext, backups`isAttached
    {
      && Linked() && Distinct(chain) && Distinct(backups)
      && (forall x :: x in chain ==> x in backups)
      && forall x :: x in backups ==> (x.isAttached <==> x in chain)
    }

    /** The backups as the state machine of BackupWorld sees them. */
    ghost function Views(): (v: seq<Backup>)
      reads this, backups
      ensures |v| == |backups| && forall i :: 0 <= i < |v| ==> v[i] == backups[i].View()
    {
      seq(|backups|, i requires 0 <= i < |backups| reads this, backups => backups[i].View())
    }

    constructor ()
      ensures Valid() && chain == [] && Views() == []
    {
      pBackup, chain, backups := null, [], [];
    }

    /** sqlite3_backup_init() */
    method Start(dest: Pager) returns (p: BackupHandle)
      requires Valid()
      modifies this`backups
      ensures Valid() && fresh(p) && backups == old(backups) + [p]
      ensures Views() == old(Views()) + [NewBackup(dest)]
    {
      p := new BackupHandle(dest);
      backups := backups + [p];
    }

    /** attachBackupObject() */
    method Attach(p: BackupHandle)
      requires Valid() && p in backups && !p.isAttached
      modifies this`pBackup, this`chain, p`pNext, p`isAttached
      ensures Valid() && chain == [p] + old(chain)
      ensures p.View() == old(p.View()).(isAttached := true)
    {
      p.pNext := pBackup;
      pBackup := p;
      p.isAttached := true;
      ghost var c := chain;
      chain := [p] + chain;
      assert forall i :: 0 < i < |chain| ==> chain[i] == c[i-1];
    }

    /** sqlite3_backup_step() of the k-th backup. */
    method Step(p: BackupHandle, ghost k: nat, s: Source, nPage: int, e: Env) returns (err: Rc)
      requires Valid() && k < |backups| && backups[k] == p
      requires s.Valid() && p.iNext > 0 && (p.bDestLocked ==> Ready(s, p.View()))
      requires IsPageSize(e.kind.pgsz) && e.dest.Valid(e.kind.pgsz) && |e.header| == 100
      modifies this`pBackup, this`chain, p
      ensures Valid() && backups == old(backups) && err == p.rc
      ensures Views() == old(Views())[k := BackupSpec.Step(s, old(p.View()), nPage, e)]
      ensures chain == if p.isAttached && !old(p.isAttached) then [p] + old(chain) else old(chain)
    {
      assert Distinct(backups);
      hide Copied, Commit, CommitEmpty, Valid, Linked;
      ghost var was := p.View();
      err := p.rc;
      if IsFatal(p.rc) { return; }
      err := p.CopyPhase(s, nPage, e);
      ghost var mid := p.View();
      assert (mid, err) == Copied(s, was, nPage, e) && Valid();
      if err == OK {
        if p.iNext > |s.pages| {
          err := p.CommitBackup(s, e);
        } else if !p.isAttached {
          Attach(p);
        }
      }
      p.rc := err;
    }

    /** The removal from the list in sqlite3_backup_finish(). */
    method Detach(p: BackupHandle, ghost k: nat)
      requires Linked() && Distinct(chain) && k < |chain| && chain[k] == p
      modifies this`pBackup, this`chain, chain`pNext
      ensures Linked() && chain == old(chain)[..k] + old(chain)[k+1..]
    {
      ghost var c := chain;
      if pBackup == p {
        assert c[0] == c[k];
        pBackup := p.pNext;
      } else {
        var prev := pBackup;
        ghost var i := 0;
        while prev.pNext != p
          invariant 0 <= i < k && prev == c[i]
          decreases k - i
        {
          assert c[i].pNext == c[i+1];
          prev := prev.pNext;
          i := i + 1;
        }
        assert c[i].pNext == c[i+1] == c[k];
        prev.pNext := p.pNext;
      }
      chain := c[..k] + c[k+1..];
      assert forall j {:trigger chain[j]} :: 0 <= j < |chain| ==> chain[j] == c[if j < k then j else j + 1];
    }

    /** sqlite3_backup_finish() of the k-th backup. */
    method Finish(p: BackupHandle, ghost k: nat)
      requires Valid() && k < |backups| && backups[k] == p
      modifies this, chain`pNext
      ensures Valid() && backups == old(backups)[..k] + old(backups)[k+1..]
      ensures Views() == old(Views())[..k] + old(Views())[k+1..]
    {
      hide Linked;
      ghost var c, b := chain, backups;
      if p.isAttached {
        ghost var i := At(chain, p);
        Detach(p, i);
        OneLess(c, i);
      }
      OneLess(b, k);
      backups := b[..k] + b[k+1..];
    }

    /** sqlite3BackupUpdate(): every registered backup hears of a changed page. */
    method BackupUpdate(s: Source, q: nat, aData: Page, write: map<BackupHandle, map<nat, Rc>>)
      requires Valid() && q > 0 && |aData| == s.pgsz && s.Valid()
      requires forall x :: x in backups ==> x in write && (x.isAttached ==> Ready(s, x.View()))
      modifies chain
      ensures Valid() && chain == old(chain) && backups == old(backups) && pBackup == old(pBackup)
      ensures forall i :: 0 <= i < |backups| ==>
                Views()[i] == UpdateOne(s, old(Views())[i], q, aData, write[backups[i]])
    {
      hide Update;
      var p := pBackup;
      ghost var i := 0;
      while p != null
        invariant 0 <= i <= |chain| && p == (if i < |chain| then chain[i] else null)
        invariant Valid() && chain == old(chain) && backups == old(backups) && pBackup == old(pBackup)
        invariant forall t :: 0 <= t < i ==> chain[t].View() == Update(s, old(chain[t].View()), q, aData, write[chain[t]])
        invariant forall t :: i <= t < |chain| ==> chain[t].View() == old(chain[t].View())
        decreases |chain| - i
      {
        p.ApplyUpdate(s, q, aData, write[p]);
        p := p.pNext;
        i := i + 1;
      }
    }

    /** sqlite3BackupRestart(): every registered backup starts again. */
    method BackupRestart()
      requires Valid()
      modifies chain`iNext
      ensures Valid() && chain == old(chain) && backups == old(backups) && pBackup == old(pBackup)
      ensures forall i :: 0 <= i < |backups| ==> Views()[i] == RestartOne(old(Views())[i])
    {
      var p := pBackup;
      ghost var i := 0;
      while p != null
        invariant 0 <= i <= |chain| && p == (if i < |chain| then chain[i] else null)
        invariant Valid() && chain == old(chain) && backups == old(backups) && pBackup == old(pBackup)
        invariant forall t :: 0 <= t < i ==> chain[t].View() == Restart(old(chain[t].View()))
        invariant forall t :: i <= t < |chain| ==> chain[t].View() == old(chain[t].View())
        decreases |chain| - i
      {
        p.iNext := 1;
        p := p.pNext;
        i := i + 1;
      }
    }
  }
}

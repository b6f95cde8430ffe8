/** Every step of every connection keeps the invariant. */
module BtMutexProof {
  import opened BtMutexMachine
  import opened BtMutexInv
  import opened Seqs

  // ----- one connection -----

  /** The list and the slots stay, but for counts and flags. */
  predicate SameShape(d: Db, d': Db) {
    && |d'.bts| == |d.bts| && d'.slots == d.slots
    && forall i :: 0 <= i < |d.bts| ==> d'.bts[i].pBt == d.bts[i].pBt
  }

  lemma SameShapeKeeps(d: Db, d': Db)
    requires Sorted(d.bts) && SlotsOk(d.bts, d.slots, d.noSharedCache) && SameShape(d, d')
    requires d'.noSharedCache ==> forall j :: 0 <= j < |d.slots| ==> !d.slots[j].Shared?
    ensures Sorted(d'.bts) && SlotsOk(d'.bts, d'.slots, d'.noSharedCache)
  {
    forall j | 0 <= j < |d.slots| && d.slots[j].Shared? ensures Has(d'.bts, d.slots[j].pBt) {
      var i :| 0 <= i < |d.bts| && d.bts[i].pBt == d.slots[j].pBt;
      assert d'.bts[i].pBt == d.slots[j].pBt;
    }
  }

  /** sqlite3BtreeEnter() called by the user. */
  lemma EnterLocal(d: Db, p: nat)
    requires Local(d) && d.pc.Idle? && p < |d.bts|
    ensures var d' := Entered(d, p, User); Local(d'.(goal := Wants(d'.bts)))
  {
    var d' := Entered(d, p, User);
    SameShapeKeeps(d, d'.(goal := Wants(d'.bts)));
  }

  /** Passing slot `n` completes the Btree of that slot, and no other. */
  lemma SlotDone(d: Db, d': Db, n: nat, up: int, p: nat)
    requires Local(d) && Partly(d.bts, d.slots, d.goal, n, up) && n < |d.slots| && p < |d.bts| && d.slots[n] == Shared(d.bts[p].pBt)
    requires SameShape(d, d') && d'.goal == d.goal
    requires forall i :: 0 <= i < |d.bts| ==> d'.bts[i].want == if i == p then d.bts[i].want + up else d.bts[i].want
    ensures Partly(d'.bts, d'.slots, d'.goal, n + 1, up)
  {
    assert d.slots[..n+1] == d.slots[..n] + [d.slots[n]];
    forall i | 0 <= i < |d.bts|
      ensures d'.bts[i].want == if Shared(d.bts[i].pBt) in d.slots[..n+1] then d.goal[i] else d.goal[i] - up
    {
      if i == p {
        assert d.slots[n] !in d.slots[..n];
      } else {
        assert d.bts[i].pBt != d.bts[p].pBt;
      }
    }
  }

  lemma SlotSkipped(d: Db, n: nat, up: int)
    requires Partly(d.bts, d.slots, d.goal, n, up) && n < |d.slots| && !d.slots[n].Shared?
    ensures Partly(d.bts, d.slots, d.goal, n + 1, up)
  {
    assert d.slots[..n+1] == d.slots[..n] + [d.slots[n]];
  }

  /** After the last slot every count is that of the goal. */
  lemma SlotsDone(d: Db, up: int)
    requires SlotsOk(d.bts, d.slots, d.noSharedCache) && Partly(d.bts, d.slots, d.goal, |d.slots|, up)
    ensures Wants(d.bts) == d.goal
  {
    assert d.slots[..|d.slots|] == d.slots;
  }

  lemma SharedSlot(d: Db, n: nat)
    requires SlotsOk(d.bts, d.slots, d.noSharedCache) && n < |d.slots| && d.slots[n].Shared?
    ensures !d.noSharedCache && d.slots[n] !in d.slots[..n]
  {
  }

  /** sqlite3BtreeEnter() called for slot `n`. */
  lemma EnterSlotLocal(d: Db, n: nat, skipOk: bool, p: nat)
    requires Local(d) && d.pc == EnterAll(n, skipOk) && n < |d.slots| && p < |d.bts| && d.slots[n] == Shared(d.bts[p].pBt)
    ensures Local(Entered(d, p, All(n + 1)))
  {
    hide SlotsOk, Sorted, Partly;
    var d' := Entered(d, p, All(n + 1));
    SlotDone(d, d', n, 1, p);
    SharedSlot(d, n);
    SameShapeKeeps(d, d');
  }

  lemma SkipSlotLocal(d: Db, n: nat, pc: Pc)
    requires Local(d) && n < |d.slots| && !d.slots[n].Shared?
    requires d.pc.EnterAll? || d.pc.LeaveAll?
    requires d.pc.i == n && pc == d.pc.(i := n + 1)
    ensures Local(At(d, pc))
  {
    SlotSkipped(d, n, if d.pc.EnterAll? then 1 else -1);
  }

  /** The connection after sqlite3BtreeLeave(). */
  function Lower(d: Db, p: nat): Db
    requires p < |d.bts| && d.bts[p].want > 0
  {
    var d' := SetWant(d, p, d.bts[p].want - 1);
    if d'.bts[p].want == 0 then SetLocked(d', p, false) else d'
  }

  lemma LeaveLocal(d: Db, p: nat)
    requires Local(d) && d.pc.Idle? && p < |d.bts| && d.bts[p].want > 0
    ensures var g := Wants(SetWant(d, p, d.bts[p].want - 1).bts); Local(Lower(d.(goal := g), p))
  {
    var d' := Lower(d.(goal := Wants(SetWant(d, p, d.bts[p].want - 1).bts)), p);
    SameShapeKeeps(d, d');
  }

  lemma LeaveSlotLocal(d: Db, n: nat, p: nat)
    requires Local(d) && d.pc == LeaveAll(n) && n < |d.slots| && p < |d.bts| && d.slots[n] == Shared(d.bts[p].pBt)
    ensures d.bts[p].want > 0 && Local(Lower(At(d, LeaveAll(n + 1)), p))
  {
    hide SlotsOk, Sorted;
    SharedSlot(d, n);
    var d' := Lower(At(d, LeaveAll(n + 1)), p);
    hide Partly;
    SlotDone(d, d', n, -1, p);
    SameShapeKeeps(d, d');
  }

  /** The last slot of btreeEnterAll() and btreeLeaveAll(). */
  lemma AllLocal(d: Db)
    requires Local(d)
    ensures d.pc.EnterAll? && d.pc.i == |d.slots| ==> Local(At(d, Idle).(noSharedCache := d.pc.skipOk))
    ensures d.pc.LeaveAll? && d.pc.i == |d.slots| ==> Local(At(d, Idle))
  {
    if d.pc.EnterAll? && d.pc.i == |d.slots| {
      SlotsDone(d, 1);
      SameShapeKeeps(d, At(d, Idle).(noSharedCache := d.pc.skipOk));
    } else if d.pc.LeaveAll? && d.pc.i == |d.slots| {
      SlotsDone(d, -1);
    }
  }

  /** Flags change together with what is pending; counts do not. */
  lemma MoveLocal(d: Db, d': Db)
    requires Local(d) && SameShape(d, d') && d'.goal == d.goal && Wants(d'.bts) == Wants(d.bts)
    requires d'.noSharedCache == d.noSharedCache && LockedOk(d')
    requires PcOk(At(d, d'.pc))
    ensures Local(d')
  {
    SameShapeKeeps(d, d');
    assert forall i :: 0 <= i < |d.bts| ==> d'.bts[i].want == Wants(d.bts)[i];
  }

  // btreeLockCarefully(), mutex operation by mutex operation.

  lemma TryLocal(d: Db, p: nat, caller: Caller)
    requires Local(d) && d.pc == Try(p, caller)
    ensures Local(SetLocked(At(d, Return(caller)), p, true)) && Local(At(d, Release(p, p + 1, caller)))
  {
    hide SlotsOk, Sorted, Partly;
    MoveLocal(d, SetLocked(At(d, Return(caller)), p, true));
  }

  lemma ReleaseLocal(d: Db, p: nat, q: nat, caller: Caller)
    requires Local(d) && d.pc == Release(p, q, caller)
    ensures q == |d.bts| ==> Local(At(d, Wait(p, caller)))
    ensures q < |d.bts| && !d.bts[q].locked ==> Local(At(d, Release(p, q + 1, caller)))
    ensures q < |d.bts| && d.bts[q].locked ==> Local(SetLocked(At(d, Release(p, q + 1, caller)), q, false))
  {
    hide SlotsOk, Sorted, Partly;
    if q < |d.bts| && d.bts[q].locked {
      MoveLocal(d, SetLocked(At(d, Release(p, q + 1, caller)), q, false));
    }
  }

  lemma WaitLocal(d: Db, p: nat, caller: Caller)
    requires Local(d) && d.pc == Wait(p, caller)
    ensures Local(SetLocked(At(d, Again(p, p + 1, caller)), p, true))
  {
    hide SlotsOk, Sorted, Partly;
    MoveLocal(d, SetLocked(At(d, Again(p, p + 1, caller)), p, true));
  }

  lemma AgainLocal(d: Db, p: nat, q: nat, caller: Caller)
    requires Local(d) && d.pc == Again(p, q, caller)
    ensures q == |d.bts| ==> Local(At(d, Return(caller)))
    ensures q < |d.bts| && d.bts[q].want == 0 ==> Local(At(d, Again(p, q + 1, caller)))
    ensures q < |d.bts| && d.bts[q].want > 0 ==> Local(SetLocked(At(d, Again(p, q + 1, caller)), q, true))
  {
    hide SlotsOk, Sorted, Partly;
    if q < |d.bts| && d.bts[q].want > 0 {
      MoveLocal(d, SetLocked(At(d, Again(p, q + 1, caller)), q, true));
    }
  }

  lemma OpenSlots(bts: seq<Btree>, slots: seq<Slot>, noSharedCache: bool, p: nat, a: Addr)
    requires SlotsOk(bts, slots, noSharedCache) && p <= |bts| && !Has(bts, a)
    ensures SlotsOk(InsertAt(bts, p, Btree(a, 0, false)), slots + [Shared(a)], false)
  {
    var bts', slots' := InsertAt(bts, p, Btree(a, 0, false)), slots + [Shared(a)];
    forall j | 0 <= j < |slots'| && slots'[j].Shared? ensures Has(bts', slots'[j].pBt) {
      if j < |slots| {
        var i :| 0 <= i < |bts| && bts[i].pBt == slots[j].pBt;
        assert bts'[if i < p then i else i + 1].pBt == slots[j].pBt;
      } else {
        assert bts'[p].pBt == a;
      }
    }
    assert Shared(a) !in slots;
  }

  lemma OpenSorted(bts: seq<Btree>, p: nat, a: Addr)
    requires Sorted(bts) && p <= |bts|
    requires (forall i :: 0 <= i < p ==> bts[i].pBt < a) && (forall i :: p <= i < |bts| ==> a < bts[i].pBt)
    ensures Sorted(InsertAt(bts, p, Btree(a, 0, false)))
  {
    var r := InsertAt(bts, p, Btree(a, 0, false));
    forall i, j | 0 <= i < j < |r| ensures r[i].pBt < r[j].pBt {
      assert r[i].pBt == if i < p then bts[i].pBt else if i == p then a else bts[i-1].pBt;
      assert r[j].pBt == if j < p then bts[j].pBt else if j == p then a else bts[j-1].pBt;
    }
  }

  /** A new Btree goes to its place in the list and to a new slot. */
  lemma OpenLocal(d: Db, p: nat, a: Addr)
    requires Local(d) && d.pc.Idle? && p <= |d.bts|
    requires (forall i :: 0 <= i < p ==> d.bts[i].pBt < a) && (forall i :: p <= i < |d.bts| ==> a < d.bts[i].pBt)
    ensures var bts := InsertAt(d.bts, p, Btree(a, 0, false));
            Local(d.(bts := bts, slots := d.slots + [Shared(a)], noSharedCache := false, goal := Wants(bts)))
  {
    hide SlotsOk, Sorted;
    var bts := InsertAt(d.bts, p, Btree(a, 0, false));
    var d' := d.(bts := bts, slots := d.slots + [Shared(a)], noSharedCache := false, goal := Wants(bts));
    assert !Has(d.bts, a);
    OpenSlots(d.bts, d.slots, d.noSharedCache, p, a);
    OpenSorted(d.bts, p, a);
  }

  lemma CloseSlots(bts: seq<Btree>, slots: seq<Slot>, noSharedCache: bool, p: nat)
    requires SlotsOk(bts, slots, noSharedCache) && p < |bts| && Sorted(bts)
    ensures SlotsOk(RemoveAt(bts, p), Emptied(slots, bts[p].pBt), noSharedCache)
  {
    var bts', slots', a := RemoveAt(bts, p), Emptied(slots, bts[p].pBt), bts[p].pBt;
    forall j | 0 <= j < |slots'| && slots'[j].Shared? ensures Has(bts', slots'[j].pBt) {
      var i :| 0 <= i < |bts| && bts[i].pBt == slots[j].pBt;
      assert bts'[if i < p then i else i - 1].pBt == slots[j].pBt;
    }
    forall i | 0 <= i < |bts'| ensures Shared(bts'[i].pBt) in slots' {
      var i' := if i < p then i else i + 1;
      var j :| 0 <= j < |slots| && slots[j] == Shared(bts[i'].pBt);
      assert slots'[j] == slots[j];
    }
  }

  lemma CloseLocal(d: Db, p: nat)
    requires Local(d) && d.pc.Idle? && p < |d.bts|
    ensures var bts := RemoveAt(d.bts, p);
            Local(d.(bts := bts, slots := Emptied(d.slots, d.bts[p].pBt), goal := Wants(bts)))
  {
    hide SlotsOk;
    CloseSlots(d.bts, d.slots, d.noSharedCache, p);
  }

  // ----- one step of the whole system -----

  /** Only the stepping connection changes; the rest of `Held` follows. */
  lemma OnlyOne(s: State, s': State, c: nat)
    requires Inv(s) && c < |s.dbs| && |s'.dbs| == |s.dbs| && Held(s') && Local(s'.dbs[c])
    requires forall e :: 0 <= e < |s.dbs| && e != c ==> s'.dbs[e] == s.dbs[e]
    ensures Inv(s')
  {
    hide Held, Local;
  }

  lemma PutKeeps(s: State, c: nat, d: Db)
    requires Inv(s) && c < |s.dbs| && Local(d) && |d.bts| == |s.dbs[c].bts|
    requires forall i :: 0 <= i < |d.bts| ==> d.bts[i].pBt == s.dbs[c].bts[i].pBt && d.bts[i].locked == s.dbs[c].bts[i].locked
    ensures Inv(Put(s, c, d))
  {
    hide Local, Held, LockedAddrs;
    SameLocked(s.dbs[c], d);
    PutKeepsHeld(s, c, d);
    OnlyOne(s, Put(s, c, d), c);
  }

  lemma LockKeeps(s: State, c: nat, d: Db, p: nat)
    requires Inv(s) && c < |s.dbs| && p < |d.bts| && d.bts == s.dbs[c].bts && d.bts[p].pBt !in s.owner
    requires Local(SetLocked(d, p, true))
    ensures Inv(Locked(s, c, d, p))
  {
    hide Local, Held, LockedAddrs;
    SameLocked(s.dbs[c], d);
    LockKeepsHeld(s, c, d, p);
    OnlyOne(s, Locked(s, c, d, p), c);
  }

  lemma UnlockKeeps(s: State, c: nat, d: Db, p: nat)
    requires Inv(s) && c < |s.dbs| && p < |d.bts| == |s.dbs[c].bts| && d.bts[p].locked && Sorted(d.bts)
    requires forall i :: 0 <= i < |d.bts| ==> d.bts[i].pBt == s.dbs[c].bts[i].pBt && d.bts[i].locked == s.dbs[c].bts[i].locked
    requires Local(SetLocked(d, p, false))
    ensures Inv(Unlocked(s, c, d, p))
  {
    hide Local, Held, LockedAddrs;
    SameLocked(s.dbs[c], d);
    UnlockKeepsHeld(s, c, d, p);
    OnlyOne(s, Unlocked(s, c, d, p), c);
  }

  lemma LeftKeeps(s: State, c: nat, d: Db, p: nat)
    requires Inv(s) && c < |s.dbs| && p < |d.bts| && d.bts == s.dbs[c].bts && d.bts[p].want > 0 && d.bts[p].locked
    requires Local(Lower(d, p))
    ensures Inv(Left(s, c, d, p))
  {
    assert Local(s.dbs[c]);
    var d' := SetWant(d, p, d.bts[p].want - 1);
    assert Sorted(d'.bts);
    hide Local, Held;
    if d'.bts[p].want == 0 {
      UnlockKeeps(s, c, d', p);
    } else {
      PutKeeps(s, c, d');
    }
  }

  lemma ResumeKeeps(s: State, c: nat, tryOk: bool)
    requires Inv(s) && Enabled(s, c, Run(tryOk)) && Safe(s, c, Run(tryOk))
    ensures Inv(Resume(s, c, tryOk))
  {
    hide Held, Sorted, SlotsOk, Partly, CallerOk, CanEnter, InOrder;
    var d := s.dbs[c];
    match d.pc
    case EnterAll(i, skipOk) =>
      AllLocal(d);
      if i == |d.slots| {
        PutKeeps(s, c, At(d, Idle).(noSharedCache := skipOk));
      } else if d.slots[i].Shared? {
        var p := Pos(d.bts, d.slots[i].pBt);
        EnterSlotLocal(d, i, skipOk, p);
        PutKeeps(s, c, Entered(d, p, All(i + 1)));
      } else {
        SkipSlotLocal(d, i, EnterAll(i + 1, skipOk));
        PutKeeps(s, c, At(d, EnterAll(i + 1, skipOk)));
      }
    case LeaveAll(i) =>
      AllLocal(d);
      if i == |d.slots| {
        PutKeeps(s, c, At(d, Idle));
      } else if d.slots[i].Shared? {
        var p := Pos(d.bts, d.slots[i].pBt);
        LeaveSlotLocal(d, i, p);
        LeftKeeps(s, c, At(d, LeaveAll(i + 1)), p);
      } else {
        SkipSlotLocal(d, i, LeaveAll(i + 1));
        PutKeeps(s, c, At(d, LeaveAll(i + 1)));
      }
    case _ => CarefullyKeeps(s, c, tryOk);
  }

  lemma CarefullyKeeps(s: State, c: nat, tryOk: bool)
    requires Inv(s) && Enabled(s, c, Run(tryOk)) && Safe(s, c, Run(tryOk))
    requires !s.dbs[c].pc.EnterAll? && !s.dbs[c].pc.LeaveAll?
    ensures Inv(Resume(s, c, tryOk))
  {
    hide Held, SlotsOk, Partly, LockedOk, CallerOk;
    var d := s.dbs[c];
    match d.pc
    case Try(p, caller) =>
      TryLocal(d, p, caller);
      if tryOk { LockKeeps(s, c, At(d, Return(caller)), p); } else { PutKeeps(s, c, At(d, Release(p, p + 1, caller))); }
    case Release(p, q, caller) =>
      ReleaseLocal(d, p, q, caller);
      if q == |d.bts| {
        PutKeeps(s, c, At(d, Wait(p, caller)));
      } else if d.bts[q].locked {
        UnlockKeeps(s, c, At(d, Release(p, q + 1, caller)), q);
      } else {
        PutKeeps(s, c, At(d, Release(p, q + 1, caller)));
      }
    case Wait(p, caller) =>
      WaitLocal(d, p, caller);
      LockKeeps(s, c, At(d, Again(p, p + 1, caller)), p);
    case Again(p, q, caller) =>
      AgainLocal(d, p, q, caller);
      if q == |d.bts| {
        PutKeeps(s, c, At(d, Return(caller)));
      } else if d.bts[q].want > 0 {
        LockKeeps(s, c, At(d, Again(p, q + 1, caller)), q);
      } else {
        PutKeeps(s, c, At(d, Again(p, q + 1, caller)));
      }
  }

  /** Opening and closing Btrees, which are not locked. */
  lemma ListKeeps(s: State, c: nat, d: Db)
    requires Inv(s) && c < |s.dbs| && Local(d)
    requires forall i :: 0 <= i < |d.bts| && d.bts[i].locked ==> d.bts[i] in s.dbs[c].bts
    requires forall i :: 0 <= i < |s.dbs[c].bts| && s.dbs[c].bts[i].locked ==> s.dbs[c].bts[i] in d.bts
    ensures Inv(Put(s, c, d))
  {
    hide Local, Held;
    assert LockedAddrs(d) == LockedAddrs(s.dbs[c]);
    PutKeepsHeld(s, c, d);
    OnlyOne(s, Put(s, c, d), c);
  }

  lemma OpenKeeps(s: State, c: nat, p: nat, a: Addr)
    requires Inv(s) && Enabled(s, c, Open(p, a)) && Safe(s, c, Open(p, a))
    ensures Inv(Next(s, c, Open(p, a)))
  {
    hide Held, Sorted, SlotsOk, LockedOk, PcOk;
    var d := s.dbs[c];
    OpenLocal(d, p, a);
    var bts := InsertAt(d.bts, p, Btree(a, 0, false));
    forall i | 0 <= i < |d.bts| ensures d.bts[i] in bts {
      assert bts[if i < p then i else i + 1] == d.bts[i];
    }
    ListKeeps(s, c, Next(s, c, Open(p, a)).dbs[c]);
  }

  lemma CloseKeeps(s: State, c: nat, p: nat)
    requires Inv(s) && Enabled(s, c, Close(p)) && Safe(s, c, Close(p))
    ensures Inv(Next(s, c, Close(p)))
  {
    hide Held, Sorted, SlotsOk, PcOk;
    var d := s.dbs[c];
    CloseLocal(d, p);
    var bts := RemoveAt(d.bts, p);
    forall i | 0 <= i < |d.bts| && i != p ensures d.bts[i] in bts {
      assert bts[if i < p then i else i - 1] == d.bts[i];
    }
    ListKeeps(s, c, Next(s, c, Close(p)).dbs[c]);
  }

  /** A slot without a sharable Btree. */
  lemma PrivateLocal(d: Db)
    requires Local(d) && d.pc.Idle?
    ensures Local(d.(slots := d.slots + [Private], noSharedCache := false))
  {
    assert forall i :: 0 <= i < |d.bts| ==> Shared(d.bts[i].pBt) in d.slots + [Private];
  }

  lemma CallLocal(d: Db)
    requires Local(d) && d.pc.Idle?
    ensures Local(At(d, EnterAll(0, true)).(goal := Raised(Wants(d.bts))))
    ensures (forall i :: 0 <= i < |d.bts| ==> d.bts[i].want > 0) ==> Local(At(d, LeaveAll(0)).(goal := Lowered(Wants(d.bts))))
  {
  }

  lemma LeaveKeeps(s: State, c: nat, p: nat)
    requires Inv(s) && Enabled(s, c, Leave(p)) && Safe(s, c, Leave(p))
    ensures Inv(Next(s, c, Leave(p)))
  {
    hide Held, SlotsOk, Sorted, PcOk;
    var d := s.dbs[c];
    LeaveLocal(d, p);
    LeftKeeps(s, c, d.(goal := Wants(SetWant(d, p, d.bts[p].want - 1).bts)), p);
  }

  /** Every step of every connection keeps the invariant, and no assertion of the
      source fails on the way. */
  lemma NextKeeps(s: State, c: nat, act: Act)
    requires Inv(s) && Enabled(s, c, act)
    ensures Safe(s, c, act) && Inv(Next(s, c, act))
  {
    AssertsHold(s, c, act);
    hide Held, SlotsOk, Sorted, PcOk, LockedOk, Resume;
    var d := s.dbs[c];
    match act
    case Enter(p) =>
      EnterLocal(d, p);
      PutKeeps(s, c, Next(s, c, act).dbs[c]);
    case Leave(p) =>
      LeaveKeeps(s, c, p);
    case CallEnterAll =>
      CallLocal(d);
      PutKeeps(s, c, Next(s, c, act).dbs[c]);
    case CallLeaveAll =>
      CallLocal(d);
      PutKeeps(s, c, Next(s, c, act).dbs[c]);
    case OpenPrivate =>
      PrivateLocal(d);
      PutKeeps(s, c, Next(s, c, act).dbs[c]);
    case Run(tryOk) => ResumeKeeps(s, c, tryOk);
    case Open(p, a) => OpenKeeps(s, c, p, a);
    case Close(p) => CloseKeeps(s, c, p);
  }
}

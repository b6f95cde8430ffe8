/** What every step of the shared-cache mutex protocol keeps. */
module BtMutexInv {
  import opened BtMutexMachine

  // ----- one connection -----

  predicate Sorted(bts: seq<Btree>) {
    forall i, j :: 0 <= i < j < |bts| ==> bts[i].pBt < bts[j].pBt
  }

  /** The Btrees that are wanted but that the thread has not, or no longer, locked. */
  predicate Pending(pc: Pc, i: nat) {
    match pc
    case Try(p, _) => i == p
    case Release(p, q, _) => p <= i < q
    case Wait(p, _) => p <= i
    case Again(_, q, _) => q <= i
    case _ => false
  }

  predicate LockedOk(d: Db) {
    forall i :: 0 <= i < |d.bts| ==> (d.bts[i].locked <==> d.bts[i].want > 0 && !Pending(d.pc, i))
  }

  /** Every slot has its own Btree and every Btree its slot. */
  predicate SlotsOk(bts: seq<Btree>, slots: seq<Slot>, noSharedCache: bool) {
    && (forall i :: 0 <= i < |bts| ==> Shared(bts[i].pBt) in slots)
    && (forall j :: 0 <= j < |slots| && slots[j].Shared? ==> Has(bts, slots[j].pBt))
    && (forall j, k :: 0 <= j < k < |slots| && slots[j].Shared? ==> slots[j] != slots[k])
    && (noSharedCache ==> forall j :: 0 <= j < |slots| ==> !slots[j].Shared?)
  }

  /** The counts of the Btrees of the first `n` slots are those of the goal; the
      others are to go `up`. */
  predicate Partly(bts: seq<Btree>, slots: seq<Slot>, goal: seq<nat>, n: nat, up: int) {
    && n <= |slots| && |goal| == |bts|
    && forall i :: 0 <= i < |bts| ==>
      bts[i].want == if Shared(bts[i].pBt) in slots[..n] then goal[i] else goal[i] - up
  }

  predicate CallerOk(d: Db, p: nat, caller: Caller) {
    && p < |d.bts| && d.bts[p].want > 0
    && match caller
       case User => Wants(d.bts) == d.goal
       case All(n) => Partly(d.bts, d.slots, d.goal, n, 1)
  }

  predicate PcOk(d: Db) {
    match d.pc
    case Idle => Wants(d.bts) == d.goal
    case EnterAll(n, skipOk) => Partly(d.bts, d.slots, d.goal, n, 1) && (skipOk ==> forall j :: 0 <= j < n ==> !d.slots[j].Shared?)
    case LeaveAll(n) => Partly(d.bts, d.slots, d.goal, n, -1)
    case Try(p, caller) => CallerOk(d, p, caller)
    case Release(p, q, caller) => p < q <= |d.bts| && CallerOk(d, p, caller)
    case Wait(p, caller) => CallerOk(d, p, caller)
    case Again(p, q, caller) => p < q <= |d.bts| && CallerOk(d, p, caller)
  }

  predicate Local(d: Db) {
    Sorted(d.bts) && LockedOk(d) && SlotsOk(d.bts, d.slots, d.noSharedCache) && PcOk(d)
  }

  // ----- all connections -----

  ghost function LockedAddrs(d: Db): set<Addr> {
    set i | 0 <= i < |d.bts| && d.bts[i].locked :: d.bts[i].pBt
  }

  function Holds(s: State, c: nat): set<Addr> {
    set a | a in s.owner && s.owner[a] == c
  }

  /** The mutexes a connection holds are those of its locked Btrees, and their
      BtShared objects point back at it. */
  ghost predicate Held(s: State) {
    && (forall c :: 0 <= c < |s.dbs| ==> LockedAddrs(s.dbs[c]) == Holds(s, c))
    && (forall a :: a in s.owner ==> a in s.btDb && s.btDb[a] == s.owner[a] < |s.dbs|)
  }

  ghost predicate Inv(s: State) {
    Held(s) && forall c :: 0 <= c < |s.dbs| ==> Local(s.dbs[c])
  }

  // ----- the parts of a step keep `Held` -----

  lemma LockKeepsHeld(s: State, c: nat, d: Db, p: nat)
    requires Held(s) && c < |s.dbs| && p < |d.bts| && d.bts[p].pBt !in s.owner
    requires LockedAddrs(d) == LockedAddrs(s.dbs[c])
    ensures Held(Locked(s, c, d, p))
  {
    var s', a, d' := Locked(s, c, d, p), d.bts[p].pBt, SetLocked(d, p, true);
    assert LockedAddrs(d') == LockedAddrs(d) + {a} by {
      assert d'.bts[p].locked && d'.bts[p].pBt == a;
      forall b | b in LockedAddrs(d) ensures b in LockedAddrs(d') {
        var i :| 0 <= i < |d.bts| && d.bts[i].locked && d.bts[i].pBt == b;
        assert d'.bts[i].locked && d'.bts[i].pBt == b;
      }
    }
    forall e | 0 <= e < |s.dbs| ensures LockedAddrs(s'.dbs[e]) == Holds(s', e) {
      assert LockedAddrs(s.dbs[e]) == Holds(s, e);
    }
  }

  lemma UnlockKeepsHeld(s: State, c: nat, d: Db, p: nat)
    requires Held(s) && c < |s.dbs| && p < |d.bts| && d.bts[p].locked && Sorted(d.bts)
    requires LockedAddrs(d) == LockedAddrs(s.dbs[c])
    ensures Held(Unlocked(s, c, d, p))
  {
    var s', a, d' := Unlocked(s, c, d, p), d.bts[p].pBt, SetLocked(d, p, false);
    assert LockedAddrs(d') == LockedAddrs(d) - {a} by {
      forall b | b in LockedAddrs(d) && b != a ensures b in LockedAddrs(d') {
        var i :| 0 <= i < |d.bts| && d.bts[i].locked && d.bts[i].pBt == b;
        assert d'.bts[i].locked && d'.bts[i].pBt == b;
      }
    }
    assert a in LockedAddrs(d);
    forall e | 0 <= e < |s.dbs| ensures LockedAddrs(s'.dbs[e]) == Holds(s', e) {
      assert LockedAddrs(s.dbs[e]) == Holds(s, e);
    }
  }

  lemma PutKeepsHeld(s: State, c: nat, d: Db)
    requires Held(s) && c < |s.dbs| && LockedAddrs(d) == LockedAddrs(s.dbs[c])
    ensures Held(Put(s, c, d))
  {
    var s' := Put(s, c, d);
    forall e | 0 <= e < |s.dbs| ensures LockedAddrs(s'.dbs[e]) == Holds(s', e) {
      assert LockedAddrs(s.dbs[e]) == Holds(s, e);
    }
  }

  /** Connections with the same flags on the same objects lock the same addresses. */
  lemma SameLocked(d: Db, d': Db)
    requires |d.bts| == |d'.bts|
    requires forall i :: 0 <= i < |d.bts| ==> d'.bts[i].pBt == d.bts[i].pBt && d'.bts[i].locked == d.bts[i].locked
    ensures LockedAddrs(d) == LockedAddrs(d')
  {
  }

  // ----- the assertions of the source -----

  lemma HolderIsLocked(s: State, c: nat, p: nat)
    requires Held(s) && c < |s.dbs| && p < |s.dbs[c].bts| && Sorted(s.dbs[c].bts)
    ensures var a := s.dbs[c].bts[p].pBt;
            s.dbs[c].bts[p].locked <==> a in s.owner && s.owner[a] == c
    ensures s.dbs[c].bts[p].locked ==> CanUnlock(s, c, p)
    ensures !s.dbs[c].bts[p].locked ==> CanLock(s, c, p)
  {
    var d := s.dbs[c];
    assert LockedAddrs(d) == Holds(s, c);
    if d.bts[p].pBt in LockedAddrs(d) {
      var i :| 0 <= i < |d.bts| && d.bts[i].locked && d.bts[i].pBt == d.bts[p].pBt;
      assert i == p;
    }
  }

  /** No assertion of the source fails. */
  lemma AssertsHold(s: State, c: nat, act: Act)
    requires Inv(s) && Enabled(s, c, act)
    ensures Safe(s, c, act)
  {
    var d := s.dbs[c];
    assert Local(d);
    forall p | 0 <= p < |d.bts|
      ensures (d.bts[p].locked ==> CanUnlock(s, c, p)) && (!d.bts[p].locked ==> CanLock(s, c, p)) && CanEnter(s, c, p)
    {
      HolderIsLocked(s, c, p);
    }
    if act.Run? && d.pc.LeaveAll? && d.pc.i < |d.slots| && d.slots[d.pc.i].Shared? {
      var p := Pos(d.bts, d.slots[d.pc.i].pBt);
      assert d.slots[d.pc.i] !in d.slots[..d.pc.i];
      assert d.bts[p].want > 0;
    }
  }
}

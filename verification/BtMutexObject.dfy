/** The functions of btmutex.c on Btree objects, seen by the thread of one
    connection: a mutex that it waits for is free when the wait ends. */
module BtMutexObject {

  /** No holder */
  const FREE: int := -1

  class BtShared {
    const address: nat
    var db: int
    var holder: int

    constructor (address: nat)
      ensures this.address == address && holder == FREE && db == FREE
    {
      this.address, db, holder := address, FREE, FREE;
    }
  }

  class Btree {
    const db: nat
    const pBt: BtShared
    const sharable: bool
    var locked: bool
    var wantToLock: nat
    var pNext: Btree?

    constructor (db: nat, pBt: BtShared, sharable: bool)
      ensures this.db == db && this.pBt == pBt && this.sharable == sharable && !locked && wantToLock == 0 && pNext == null
    {
      this.db, this.pBt, this.sharable := db, pBt, sharable;
      locked, wantToLock, pNext := false, 0, null;
    }
  }

  // ----- the list of one connection -----

  ghost function Shareds(list: seq<Btree>): set<BtShared> {
    set h | h in list :: h.pBt
  }

  ghost predicate Before(h: Btree, j: Btree) {
    h.pBt.address < j.pBt.address
  }

  /** `list` is what `pNext` chains: sharable Btrees of connection `c`, by address. */
  ghost predicate ListOk(c: nat, list: seq<Btree>)
    reads list`pNext
  {
    && (forall i :: 0 <= i < |list| ==> list[i].sharable && list[i].db == c)
    && (forall i {:trigger list[i].pNext} :: 0 <= i < |list| ==> list[i].pNext == if i + 1 < |list| then list[i+1] else null)
    && (forall i, j :: 0 <= i < j < |list| ==> Before(list[i], list[j]))
  }

  /** A locked Btree holds its mutex and owns its BtShared. */
  ghost predicate Owns(h: Btree)
    reads h`locked, h.pBt
  {
    h.locked <==> h.pBt.holder == h.db && h.pBt.db == h.db
  }

  ghost predicate AllOwn(list: seq<Btree>)
    reads list`locked, Shareds(list)
  {
    forall i :: 0 <= i < |list| ==> Owns(list[i]) && (list[i].locked || list[i].pBt.holder != list[i].db)
  }

  /** As between calls: locked exactly when wanted. */
  ghost predicate Settled(list: seq<Btree>)
    reads list`locked, list`wantToLock, Shareds(list)
  {
    AllOwn(list) && forall i :: 0 <= i < |list| ==> (list[i].locked <==> list[i].wantToLock > 0)
  }

  ghost function Wants(list: seq<Btree>): (w: seq<nat>)
    reads list`wantToLock
    ensures |w| == |list| && forall i :: 0 <= i < |list| ==> w[i] == list[i].wantToLock
  {
    if list == [] then [] else Wants(list[..|list|-1]) + [list[|list|-1].wantToLock]
  }

  // ----- mutexes -----

  /** sqlite3_mutex_enter(): returns when the mutex is free and taken. */
  method MutexEnter(m: BtShared, c: nat)
    requires m.holder != c
    modifies m`holder
    ensures m.holder == c
  {
    m.holder := c;
  }

  /** sqlite3_mutex_try(), which may fail even when the mutex is free. */
  method MutexTry(m: BtShared, c: nat, busy: bool) returns (ok: bool)
    requires m.holder != c
    modifies m`holder
    ensures ok ==> old(m.holder) == FREE && m.holder == c
    ensures !ok ==> m.holder == old(m.holder)
  {
    ok := !busy && m.holder == FREE;
    if ok {
      m.holder := c;
    }
  }

  method MutexLeave(m: BtShared, c: nat)
    requires m.holder == c
    modifies m`holder
    ensures m.holder == FREE
  {
    m.holder := FREE;
  }

  /** lockBtreeMutex() */
  method LockBtreeMutex(p: Btree)
    requires !p.locked && p.pBt.holder != p.db
    modifies p`locked, p.pBt
    ensures p.locked && p.pBt.holder == p.db && p.pBt.db == p.db
  {
    MutexEnter(p.pBt, p.db);
    p.pBt.db := p.db;
    p.locked := true;
  }

  /** unlockBtreeMutex() */
  method UnlockBtreeMutex(p: Btree)
    requires p.locked && p.pBt.holder == p.db && p.pBt.db == p.db
    modifies p`locked, p.pBt`holder
    ensures !p.locked && p.pBt.holder == FREE
  {
    MutexLeave(p.pBt, p.db);
    p.locked := false;
  }

  /** Locking and unlocking one Btree of the list leaves the others as they are. */
  method LockAt(p: Btree, ghost c: nat, ghost list: seq<Btree>, ghost k: nat)
    requires ListOk(c, list) && AllOwn(list) && k < |list| && p == list[k] && !p.locked
    modifies p`locked, p.pBt
    ensures AllOwn(list)
    ensures forall i :: 0 <= i < |list| ==> list[i].locked == (old(list[i].locked) || i == k)
  {
    LockBtreeMutex(p);
    assert forall i :: 0 <= i < k ==> Before(list[i], list[k]);
    assert forall i :: k < i < |list| ==> Before(list[k], list[i]);
  }

  method UnlockAt(p: Btree, ghost c: nat, ghost list: seq<Btree>, ghost k: nat)
    requires ListOk(c, list) && AllOwn(list) && k < |list| && p == list[k] && p.locked
    modifies p`locked, p.pBt`holder
    ensures AllOwn(list)
    ensures forall i :: 0 <= i < |list| ==> list[i].locked == (old(list[i].locked) && i != k)
  {
    UnlockBtreeMutex(p);
    assert forall i :: 0 <= i < k ==> Before(list[i], list[k]);
    assert forall i :: k < i < |list| ==> Before(list[k], list[i]);
  }

  // ----- entering and leaving one Btree -----

  /** btreeLockCarefully(): a wanted Btree gets locked, and with it every wanted
      Btree of the list is locked again. */
  method LockCarefully(p: Btree, busy: bool, ghost c: nat, ghost list: seq<Btree>, ghost k: nat)
    requires ListOk(c, list) && AllOwn(list) && k < |list| && p == list[k] && !p.locked && p.wantToLock > 0
    requires forall i :: 0 <= i < |list| && i != k ==> (list[i].locked <==> list[i].wantToLock > 0)
    modifies list`locked, Shareds(list)
    ensures Settled(list)
  {
    assert p.pBt.holder != c;
    var ok := MutexTry(p.pBt, p.db, busy);
    if ok {
      p.pBt.db := p.db;
      p.locked := true;
      return;
    }
    ReleaseLater(p, c, list, k);
    LockAt(p, c, list, k);
    LockLater(p, c, list, k);
  }

  /** The first loop: no Btree after `p` is locked any more. */
  method ReleaseLater(p: Btree, ghost c: nat, ghost list: seq<Btree>, ghost k: nat)
    requires ListOk(c, list) && AllOwn(list) && k < |list| && p == list[k]
    modifies list`locked, Shareds(list)
    ensures AllOwn(list)
    ensures forall i :: 0 <= i < |list| ==> list[i].locked == (old(list[i].locked) && i <= k)
  {
    hide AllOwn, Before;
    var pLater := p.pNext;
    ghost var q := k + 1;
    while pLater != null
      invariant k < q <= |list| && pLater == (if q < |list| then list[q] else null)
      invariant AllOwn(list)
      invariant forall i :: 0 <= i < |list| ==> list[i].locked == (old(list[i].locked) && !(k < i < q))
      decreases |list| - q
    {
      assert pLater in list && pLater.pBt in Shareds(list);
      if pLater.locked {
        UnlockAt(pLater, c, list, q);
      }
      pLater := pLater.pNext;
      q := q + 1;
    }
  }

  /** The second loop: every wanted Btree after `p` is locked. */
  method LockLater(p: Btree, ghost c: nat, ghost list: seq<Btree>, ghost k: nat)
    requires ListOk(c, list) && AllOwn(list) && k < |list| && p == list[k]
    requires forall i :: k < i < |list| ==> !list[i].locked
    modifies list`locked, Shareds(list)
    ensures AllOwn(list)
    ensures forall i :: 0 <= i < |list| ==> list[i].locked == if i <= k then old(list[i].locked) else list[i].wantToLock > 0
  {
    hide AllOwn, Before;
    var pLater := p.pNext;
    ghost var q := k + 1;
    while pLater != null
      invariant k < q <= |list| && pLater == (if q < |list| then list[q] else null)
      invariant AllOwn(list)
      invariant forall i :: 0 <= i < |list| ==>
        list[i].locked == if i <= k then old(list[i].locked) else i < q && list[i].wantToLock > 0
      decreases |list| - q
    {
      assert pLater in list && pLater.pBt in Shareds(list);
      if pLater.wantToLock > 0 {
        LockAt(pLater, c, list, q);
      }
      pLater := pLater.pNext;
      q := q + 1;
    }
  }

  /** sqlite3BtreeEnter(): one more want, and everything wanted is locked. */
  method Enter(p: Btree, busy: bool, ghost c: nat, ghost list: seq<Btree>, ghost k: nat)
    requires ListOk(c, list) && Settled(list)
    requires if p.sharable then k < |list| && p == list[k] else p !in list
    modifies list`locked, list`wantToLock, Shareds(list)
    ensures Settled(list)
    ensures Wants(list) == if p.sharable then old(Wants(list))[k := old(Wants(list))[k] + 1] else old(Wants(list))
  {
    if !p.sharable { return; }
    p.wantToLock := p.wantToLock + 1;
    if p.locked { return; }
    LockCarefully(p, busy, c, list, k);
  }

  /** sqlite3BtreeLeave(): one want less. */
  method Leave(p: Btree, ghost c: nat, ghost list: seq<Btree>, ghost k: nat)
    requires ListOk(c, list) && Settled(list)
    requires if p.sharable then k < |list| && p == list[k] && p.wantToLock > 0 else p !in list
    modifies list`locked, list`wantToLock, Shareds(list)
    ensures Settled(list)
    ensures Wants(list) == if p.sharable then old(Wants(list))[k := old(Wants(list))[k] - 1] else old(Wants(list))
  {
    if p.sharable {
      p.wantToLock := p.wantToLock - 1;
      if p.wantToLock == 0 {
        UnlockAt(p, c, list, k);
      }
    }
  }

  // ----- entering and leaving all Btrees of a connection -----

  /** The sharable Btrees of aDb[] are those of the list, each once. */
  ghost predicate Covers(aDb: seq<Btree?>, list: seq<Btree>) {
    && (forall i :: 0 <= i < |list| ==> list[i] in aDb)
    && (forall j :: 0 <= j < |aDb| && aDb[j] != null && aDb[j].sharable ==> aDb[j] in list)
    && (forall j, k :: 0 <= j < k < |aDb| && aDb[j] != null ==> aDb[j] != aDb[k])
  }

  /** The Btrees of the first `n` slots have their wants moved by `up`. */
  ghost predicate Moved(list: seq<Btree>, aDb: seq<Btree?>, n: nat, was: seq<nat>, up: int, w: seq<nat>) {
    && |w| == |was| == |list| && n <= |aDb|
    && forall i :: 0 <= i < |list| ==> w[i] == if list[i] in aDb[..n] then was[i] + up else was[i]
  }

  lemma MoveOne(c: nat, list: seq<Btree>, aDb: seq<Btree?>, n: nat, was: seq<nat>, up: int, w: seq<nat>)
    requires ListOk(c, list) && Covers(aDb, list) && n < |aDb| && Moved(list, aDb, n, was, up, w)
    requires forall i :: 0 <= i < |was| ==> was[i] + up >= 0
    ensures if aDb[n] != null && aDb[n].sharable then
              var k := Position(list, aDb[n]);
              k < |list| && list[k] == aDb[n] && w[k] == was[k] && Moved(list, aDb, n + 1, was, up, w[k := w[k] + up])
            else Moved(list, aDb, n + 1, was, up, w)
  {
    hide Position, ListOk, Covers, Before;
    Different(c, list);
    NewSlot(aDb, list, n);
    var p := aDb[n];
    if p != null && p.sharable {
      var k := Position(list, p);
      assert forall i :: 0 <= i < |list| && i != k ==> list[i] != p;
    } else {
      ListSharable(c, list);
    }
  }

  lemma ListSharable(c: nat, list: seq<Btree>)
    requires ListOk(c, list)
    ensures forall i :: 0 <= i < |list| ==> list[i].sharable
  {
  }

  /** Before the first slot nothing has moved. */
  lemma NothingMoved(list: seq<Btree>, aDb: seq<Btree?>, was: seq<nat>, up: int)
    requires |was| == |list|
    ensures Moved(list, aDb, 0, was, up, was)
  {
  }

  lemma NewSlot(aDb: seq<Btree?>, list: seq<Btree>, n: nat)
    requires Covers(aDb, list) && n < |aDb|
    ensures forall i :: 0 <= i < |list| ==>
      (list[i] in aDb[..n+1] <==> list[i] in aDb[..n] || list[i] == aDb[n])
    ensures aDb[n] != null ==> aDb[n] !in aDb[..n] && (aDb[n].sharable ==> aDb[n] in list)
  {
    assert aDb[..n+1] == aDb[..n] + [aDb[n]];
  }

  lemma AllLocked(list: seq<Btree>)
    requires Settled(list)
    ensures forall i :: 0 <= i < |list| && Wants(list)[i] > 0 ==> list[i].locked
  {
  }

  lemma SomeSharable(aDb: seq<Btree?>, list: seq<Btree>, c: nat)
    requires Covers(aDb, list) && ListOk(c, list)
    ensures list == [] <==> forall j :: 0 <= j < |aDb| && aDb[j] != null ==> !aDb[j].sharable
  {
    assert |list| > 0 ==> list[0] in aDb && list[0].sharable;
    forall j | 0 <= j < |aDb| && aDb[j] != null && aDb[j].sharable ensures list != [] {
      NewSlot(aDb, list, j);
    }
  }

  /** After the last slot every want has moved. */
  lemma AllMoved(list: seq<Btree>, aDb: seq<Btree?>, was: seq<nat>, up: int, w: seq<nat>)
    requires Covers(aDb, list) && Moved(list, aDb, |aDb|, was, up, w)
    ensures forall i :: 0 <= i < |list| ==> w[i] == was[i] + up
  {
    assert aDb[..|aDb|] == aDb;
  }

  lemma Different(c: nat, list: seq<Btree>)
    requires ListOk(c, list)
    ensures forall i, j :: 0 <= i < j < |list| ==> list[i] != list[j]
  {
    assert forall i, j :: 0 <= i < j < |list| ==> Before(list[i], list[j]);
  }

  /** The list position of the Btree of slot `n`; Btrees that are not sharable have none. */
  ghost function Position(list: seq<Btree>, p: Btree): (k: nat)
    ensures if p in list then k < |list| && list[k] == p else k == |list|
  {
    if list == [] then 0 else if list[0] == p then 0 else 1 + Position(list[1..], p)
  }

  class Connection {
    const id: nat
    var aDb: seq<Btree?>
    var noSharedCache: bool

    constructor (id: nat)
      ensures this.id == id && aDb == [] && !noSharedCache
    {
      this.id, aDb, noSharedCache := id, [], false;
    }

    /** Everything of this connection is as between calls. */
    ghost predicate Ready(list: seq<Btree>)
      reads this, list`pNext, list`locked, list`wantToLock, Shareds(list)
    {
      ListOk(id, list) && Covers(aDb, list) && Settled(list) && (noSharedCache ==> list == [])
    }

    /** sqlite3BtreeEnterAll(); `busy` says at which slots the try is lost. */
    method EnterAll(busy: nat -> bool, ghost list: seq<Btree>)
      requires Ready(list)
      modifies this`noSharedCache, list`locked, list`wantToLock, Shareds(list)
      ensures Ready(list) && (noSharedCache <==> list == [])
      ensures forall i :: 0 <= i < |list| ==> Wants(list)[i] == old(Wants(list))[i] + 1 && list[i].locked
    {
      hide Settled, ListOk, Covers, Wants;
      if !noSharedCache {
        var skipOk := EnterSlots(busy, list);
        noSharedCache := skipOk;
      }
    }

    /** The loop of btreeEnterAll(). */
    method EnterSlots(busy: nat -> bool, ghost list: seq<Btree>) returns (skipOk: bool)
      requires ListOk(id, list) && Covers(aDb, list) && Settled(list)
      modifies list`locked, list`wantToLock, Shareds(list)
      ensures Settled(list) && forall i :: 0 <= i < |list| ==> Wants(list)[i] == old(Wants(list))[i] + 1 && list[i].locked
      ensures skipOk <==> list == []
    {
      hide Settled, Moved, Before, Wants, Position, ListOk, Covers;
      ghost var was := Wants(list);
      var i := 0;
      skipOk := true;
      NothingMoved(list, aDb, was, 1);
      while i < |aDb|
        invariant i <= |aDb| && Settled(list) && Moved(list, aDb, i, was, 1, Wants(list))
        invariant skipOk <==> forall j :: 0 <= j < i && aDb[j] != null ==> !aDb[j].sharable
      {
        MoveOne(id, list, aDb, i, was, 1, Wants(list));
        var p := aDb[i];
        if p != null && p.sharable {
          Enter(p, busy(i), id, list, Position(list, p));
          skipOk := false;
        }
        i := i + 1;
      }
      AllMoved(list, aDb, was, 1, Wants(list));
      AllLocked(list);
      SomeSharable(aDb, list, id);
    }

    /** sqlite3BtreeLeaveAll() */
    method LeaveAll(ghost list: seq<Btree>)
      requires Ready(list) && forall i :: 0 <= i < |list| ==> Wants(list)[i] > 0
      modifies list`locked, list`wantToLock, Shareds(list)
      ensures Ready(list)
      ensures forall i :: 0 <= i < |list| ==> Wants(list)[i] == old(Wants(list))[i] - 1
    {
      if !noSharedCache {
        LeaveSlots(list);
      }
    }

    /** The loop of btreeLeaveAll(). */
    method LeaveSlots(ghost list: seq<Btree>)
      requires ListOk(id, list) && Covers(aDb, list) && Settled(list)
      requires forall i :: 0 <= i < |list| ==> Wants(list)[i] > 0
      modifies list`locked, list`wantToLock, Shareds(list)
      ensures Settled(list) && forall i :: 0 <= i < |list| ==> Wants(list)[i] == old(Wants(list))[i] - 1
    {
      hide Settled, Moved, Before, Wants, Position, ListOk, Covers;
      ghost var was := Wants(list);
      var i := 0;
      NothingMoved(list, aDb, was, -1);
      while i < |aDb|
        invariant i <= |aDb| && Settled(list) && Moved(list, aDb, i, was, -1, Wants(list))
      {
        MoveOne(id, list, aDb, i, was, -1, Wants(list));
        var p := aDb[i];
        if p != null {
          ListSharable(id, list);
          Leave(p, id, list, Position(list, p));
        }
        i := i + 1;
      }
      AllMoved(list, aDb, was, -1, Wants(list));
    }

    /** sqlite3BtreeHoldsAllMutexes(): after EnterAll it is true. */
    method HoldsAllMutexes(ghost list: seq<Btree>) returns (all: bool)
      requires Ready(list)
      ensures all <==> forall i :: 0 <= i < |list| ==> list[i].wantToLock > 0
    {
      var i := 0;
      while i < |aDb|
        invariant i <= |aDb|
        invariant forall k :: 0 <= k < |list| && list[k] in aDb[..i] ==> list[k].wantToLock > 0
      {
        var p := aDb[i];
        if p != null && p.sharable && (p.wantToLock == 0 || p.pBt.holder != id) {
          ghost var k := Position(list, p);
          assert list[k].wantToLock == 0;
          return false;
        }
        assert aDb[..i+1] == aDb[..i] + [aDb[i]];
        i := i + 1;
      }
      assert aDb[..i] == aDb;
      return true;
    }
  }
}

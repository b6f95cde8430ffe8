/** Shared-cache mutexes as a state machine: any number of connections, one
    thread each, and one step per mutex operation. */
module BtMutexMachine {
  import opened Seqs

  /** The address of a BtShared object names it and orders it. */
  type Addr = nat

  /** A sharable Btree; `bts` below lists those of a connection along `pNext`. */
  datatype Btree = Btree(pBt: Addr, want: nat, locked: bool)

  /** An entry of sqlite3.aDb[]. */
  datatype Slot = NoBtree | Private | Shared(pBt: Addr)

  /** Who called sqlite3BtreeEnter(): the user, or btreeEnterAll() before slot `next`. */
  datatype Caller = User | All(next: nat)

  /** Where the thread of a connection is. */
  datatype Pc =
    | Idle
    | EnterAll(i: nat, skipOk: bool)              // btreeEnterAll(), before slot i
    | LeaveAll(i: nat)                            // btreeLeaveAll(), before slot i
    | Try(p: nat, caller: Caller)                     // before sqlite3_mutex_try()
    | Release(p: nat, q: nat, caller: Caller)         // first loop of btreeLockCarefully()
    | Wait(p: nat, caller: Caller)                    // lockBtreeMutex(p)
    | Again(p: nat, q: nat, caller: Caller)           // second loop of btreeLockCarefully()

  /** A connection.  `goal` is a history variable: the wantToLock counts that the
      call in progress is to end with. */
  datatype Db = Db(bts: seq<Btree>, slots: seq<Slot>, noSharedCache: bool, pc: Pc, goal: seq<nat>)

  /** The connections, the holder of every held mutex, and BtShared.db. */
  datatype State = State(dbs: seq<Db>, owner: map<Addr, nat>, btDb: map<Addr, nat>)

  datatype Act =
    | Enter(p: nat) | Leave(p: nat) | CallEnterAll | CallLeaveAll
    | Open(p: nat, pBt: Addr) | OpenPrivate | Close(p: nat)
    | Run(tryOk: bool)

  // ----- parts of a step -----

  function Wants(bts: seq<Btree>): (w: seq<nat>)
    ensures |w| == |bts| && forall i :: 0 <= i < |bts| ==> w[i] == bts[i].want
  {
    seq(|bts|, i requires 0 <= i < |bts| => bts[i].want)
  }

  predicate Has(bts: seq<Btree>, a: Addr) {
    exists i :: 0 <= i < |bts| && bts[i].pBt == a
  }

  lemma HasTail(bts: seq<Btree>, a: Addr)
    requires Has(bts, a) && bts[0].pBt != a
    ensures Has(bts[1..], a)
  {
    var i :| 0 <= i < |bts| && bts[i].pBt == a;
    assert bts[1..][i-1].pBt == a;
  }

  /** The position of a Btree in the list. */
  function Pos(bts: seq<Btree>, a: Addr): (i: nat)
    requires Has(bts, a)
    ensures i < |bts| && bts[i].pBt == a
  {
    if bts[0].pBt == a then 0 else
      HasTail(bts, a);
      1 + Pos(bts[1..], a)
  }

  /** Only connection `c` differs; its goal and its slots do not. */
  predicate Steps(s: State, c: nat, s': State) {
    && |s'.dbs| == |s.dbs|
    && (forall e :: 0 <= e < |s.dbs| && e != c ==> s'.dbs[e] == s.dbs[e])
    && (c < |s.dbs| ==> s'.dbs[c].goal == s.dbs[c].goal && s'.dbs[c].slots == s.dbs[c].slots)
  }

  function Put(s: State, c: nat, d: Db): (r: State)
    requires c < |s.dbs|
  {
    s.(dbs := s.dbs[c := d])
  }

  function At(d: Db, pc: Pc): Db {
    d.(pc := pc)
  }

  function SetWant(d: Db, p: nat, w: nat): Db
    requires p < |d.bts|
  {
    d.(bts := d.bts[p := d.bts[p].(want := w)])
  }

  function SetLocked(d: Db, p: nat, on: bool): Db
    requires p < |d.bts|
  {
    d.(bts := d.bts[p := d.bts[p].(locked := on)])
  }

  /** The Btree's mutex taken, pBt->db set, `locked` set; then on to `d`'s pc. */
  function Locked(s: State, c: nat, d: Db, p: nat): State
    requires c < |s.dbs| && p < |d.bts|
  {
    var a := d.bts[p].pBt;
    State(s.dbs[c := SetLocked(d, p, true)], s.owner[a := c], s.btDb[a := c])
  }

  /** unlockBtreeMutex() */
  function Unlocked(s: State, c: nat, d: Db, p: nat): State
    requires c < |s.dbs| && p < |d.bts|
  {
    State(s.dbs[c := SetLocked(d, p, false)], s.owner - {d.bts[p].pBt}, s.btDb)
  }

  /** sqlite3BtreeLeave(), then on to `d`'s pc. */
  function Left(s: State, c: nat, d: Db, p: nat): State
    requires c < |s.dbs| && p < |d.bts| && d.bts[p].want > 0
  {
    var d' := SetWant(d, p, d.bts[p].want - 1);
    if d'.bts[p].want == 0 then Unlocked(s, c, d', p) else Put(s, c, d')
  }

  /** Back to the caller of sqlite3BtreeEnter(). */
  function Return(caller: Caller): Pc {
    match caller
    case User => Idle
    case All(n) => EnterAll(n, false)
  }

  /** sqlite3BtreeEnter() up to the first mutex operation. */
  function Entered(d: Db, p: nat, caller: Caller): Db
    requires p < |d.bts|
  {
    At(SetWant(d, p, d.bts[p].want + 1), if d.bts[p].locked then Return(caller) else Try(p, caller))
  }

  function Raised(w: seq<nat>): (r: seq<nat>)
    ensures |r| == |w| && forall i :: 0 <= i < |w| ==> r[i] == w[i] + 1
  {
    seq(|w|, i requires 0 <= i < |w| => w[i] + 1)
  }

  function Lowered(w: seq<nat>): (r: seq<nat>)
    requires forall i :: 0 <= i < |w| ==> w[i] > 0
    ensures |r| == |w| && forall i :: 0 <= i < |w| ==> r[i] == w[i] - 1
  {
    seq(|w|, i requires 0 <= i < |w| => w[i] - 1)
  }

  /** The slot of a closed Btree becomes empty. */
  function Emptied(slots: seq<Slot>, a: Addr): (r: seq<Slot>)
    ensures |r| == |slots| && forall j :: 0 <= j < |slots| ==> r[j] == if slots[j] == Shared(a) then NoBtree else slots[j]
  {
    seq(|slots|, j requires 0 <= j < |slots| => if slots[j] == Shared(a) then NoBtree else slots[j])
  }

  // ----- the steps -----

  predicate Free(s: State, d: Db, p: nat)
    requires p < |d.bts|
  {
    d.bts[p].pBt !in s.owner
  }

  /** What callers owe, and that a mutex must be free to be taken. */
  predicate Enabled(s: State, c: nat, act: Act) {
    c < |s.dbs| && var d := s.dbs[c];
    match act
    case Enter(p) => d.pc.Idle? && p < |d.bts|
    case Leave(p) => d.pc.Idle? && p < |d.bts| && d.bts[p].want > 0
    case CallEnterAll => d.pc.Idle?
    case CallLeaveAll => d.pc.Idle? && forall i :: 0 <= i < |d.bts| ==> d.bts[i].want > 0
    case Open(p, a) =>
      d.pc.Idle? && p <= |d.bts|
      && (forall i :: 0 <= i < p ==> d.bts[i].pBt < a) && (forall i :: p <= i < |d.bts| ==> a < d.bts[i].pBt)
    case OpenPrivate => d.pc.Idle?
    case Close(p) => d.pc.Idle? && p < |d.bts| && d.bts[p].want == 0
    case Run(tryOk) =>
      match d.pc
      case Idle => false
      case Try(p, _) => tryOk ==> p < |d.bts| && Free(s, d, p)
      case Wait(p, _) => p < |d.bts| && Free(s, d, p)
      case Again(p, q, _) => q < |d.bts| && d.bts[q].want > 0 ==> Free(s, d, q)
      case _ => true
  }

  /** What the source asserts before a lock and an unlock. */
  predicate CanLock(s: State, c: nat, p: nat) {
    c < |s.dbs| && p < |s.dbs[c].bts|
    && !s.dbs[c].bts[p].locked
    && (s.dbs[c].bts[p].pBt in s.owner ==> s.owner[s.dbs[c].bts[p].pBt] != c)
  }

  predicate CanUnlock(s: State, c: nat, p: nat) {
    c < |s.dbs| && p < |s.dbs[c].bts|
    && s.dbs[c].bts[p].locked
    && var a := s.dbs[c].bts[p].pBt; a in s.owner && s.owner[a] == c && a in s.btDb && s.btDb[a] == c
  }

  /** The next Btree of the list, and the one before, have larger and smaller addresses. */
  predicate InOrder(bts: seq<Btree>, p: nat) {
    && (p + 1 < |bts| ==> bts[p].pBt < bts[p+1].pBt)
    && (0 < p < |bts| ==> bts[p-1].pBt < bts[p].pBt)
  }

  predicate CanEnter(s: State, c: nat, p: nat) {
    c < |s.dbs| && p < |s.dbs[c].bts|
    && InOrder(s.dbs[c].bts, p)
    && (s.dbs[c].bts[p].locked ==> s.dbs[c].bts[p].want > 0)
    && (s.dbs[c].bts[p].locked ==> s.dbs[c].bts[p].pBt in s.btDb && s.btDb[s.dbs[c].bts[p].pBt] == c)
  }

  predicate CanLeave(s: State, c: nat, p: nat) {
    c < |s.dbs| && p < |s.dbs[c].bts|
    && s.dbs[c].bts[p].want > 0 && (s.dbs[c].bts[p].want == 1 ==> CanUnlock(s, c, p))
  }

  /** Every assertion of the source on the way of a step, and every list access.  That
      a list has sharable Btrees of one connection, whose mutex the thread holds, is
      the form of the state. */
  predicate Safe(s: State, c: nat, act: Act) {
    c < |s.dbs| && var d := s.dbs[c];
    match act
    case Enter(p) => CanEnter(s, c, p)
    case Leave(p) => CanLeave(s, c, p)
    case CallLeaveAll => forall i :: 0 <= i < |d.bts| ==> d.bts[i].want > 0
    case Open(p, a) => p <= |d.bts|
    case Close(p) => p < |d.bts|
    case Run(tryOk) => (
      match d.pc
      case EnterAll(i, _) =>
        i <= |d.slots|
        && (i < |d.slots| && d.slots[i].Shared? ==>
            Has(d.bts, d.slots[i].pBt) && CanEnter(s, c, Pos(d.bts, d.slots[i].pBt)))
      case LeaveAll(i) =>
        i <= |d.slots|
        && (i < |d.slots| && d.slots[i].Shared? ==>
            Has(d.bts, d.slots[i].pBt) && CanLeave(s, c, Pos(d.bts, d.slots[i].pBt)))
      case Try(p, _) => CanLock(s, c, p)
      case Release(p, q, _) =>
        q <= |d.bts|
        && (q + 1 < |d.bts| ==> d.bts[q].pBt < d.bts[q+1].pBt)
        && (q < |d.bts| && d.bts[q].locked ==> d.bts[q].want > 0 && CanUnlock(s, c, q))
      case Wait(p, _) => CanLock(s, c, p)
      case Again(p, q, _) => q <= |d.bts| && (q < |d.bts| && d.bts[q].want > 0 ==> CanLock(s, c, q))
      case Idle => true)
    case _ => true
  }

  /** One more step inside a call. */
  function Resume(s: State, c: nat, tryOk: bool): (s': State)
    requires Enabled(s, c, Run(tryOk)) && Safe(s, c, Run(tryOk))
    ensures Steps(s, c, s')
  {
    var d := s.dbs[c];
    match d.pc
    case EnterAll(i, skipOk) =>
      if i == |d.slots| then Put(s, c, At(d, Idle).(noSharedCache := skipOk))
      else if d.slots[i].Shared? then Put(s, c, Entered(d, Pos(d.bts, d.slots[i].pBt), All(i + 1)))
      else Put(s, c, At(d, EnterAll(i + 1, skipOk)))
    case LeaveAll(i) =>
      if i == |d.slots| then Put(s, c, At(d, Idle))
      else if d.slots[i].Shared? then Left(s, c, At(d, LeaveAll(i + 1)), Pos(d.bts, d.slots[i].pBt))
      else Put(s, c, At(d, LeaveAll(i + 1)))
    case Try(p, caller) =>
      if tryOk then Locked(s, c, At(d, Return(caller)), p) else Put(s, c, At(d, Release(p, p + 1, caller)))
    case Release(p, q, caller) =>
      if q == |d.bts| then Put(s, c, At(d, Wait(p, caller)))
      else if d.bts[q].locked then Unlocked(s, c, At(d, Release(p, q + 1, caller)), q)
      else Put(s, c, At(d, Release(p, q + 1, caller)))
    case Wait(p, caller) => Locked(s, c, At(d, Again(p, p + 1, caller)), p)
    case Again(p, q, caller) =>
      if q == |d.bts| then Put(s, c, At(d, Return(caller)))
      else if d.bts[q].want > 0 then Locked(s, c, At(d, Again(p, q + 1, caller)), q)
      else Put(s, c, At(d, Again(p, q + 1, caller)))
  }

  function Next(s: State, c: nat, act: Act): (s': State)
    requires Enabled(s, c, act) && Safe(s, c, act)
    ensures |s'.dbs| == |s.dbs| && forall e :: 0 <= e < |s.dbs| && e != c ==> s'.dbs[e] == s.dbs[e]
  {
    var d := s.dbs[c];
    match act
    case Enter(p) =>
      var d' := Entered(d, p, User);
      Put(s, c, d'.(goal := Wants(d'.bts)))
    case Leave(p) => Left(s, c, d.(goal := Wants(SetWant(d, p, d.bts[p].want - 1).bts)), p)
    case CallEnterAll =>
      Put(s, c, if d.noSharedCache then d else At(d, EnterAll(0, true)).(goal := Raised(Wants(d.bts))))
    case CallLeaveAll =>
      Put(s, c, if d.noSharedCache then d else At(d, LeaveAll(0)).(goal := Lowered(Wants(d.bts))))
    case Open(p, a) =>
      var bts := InsertAt(d.bts, p, Btree(a, 0, false));
      Put(s, c, d.(bts := bts, slots := d.slots + [Shared(a)], noSharedCache := false, goal := Wants(bts)))
    case OpenPrivate => Put(s, c, d.(slots := d.slots + [Private], noSharedCache := false))
    case Close(p) =>
      var bts := RemoveAt(d.bts, p);
      Put(s, c, d.(bts := bts, slots := Emptied(d.slots, d.bts[p].pBt), goal := Wants(bts)))
    case Run(tryOk) => Resume(s, c, tryOk)
  }
}

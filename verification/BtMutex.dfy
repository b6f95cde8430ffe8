/** What the shared-cache mutex protocol promises in every run. */
module BtMutex {
  import opened BtMutexMachine
  import opened BtMutexInv
  import opened Seqs
  import BtMutexProof

  // ----- runs -----

  /** `n` connections without databases. */
  predicate Init(s: State) {
    && s.owner == map[] && s.btDb == map[]
    && forall c :: 0 <= c < |s.dbs| ==> s.dbs[c] == Db([], [], false, Idle, [])
  }

  /** A run: which connection steps, and how. */
  predicate Runs(s: State, run: seq<(nat, Act)>, s': State)
    decreases |run|
  {
    if run == [] then s == s'
    else
      var (c, act) := run[0];
      Enabled(s, c, act) && Safe(s, c, act) && Runs(Next(s, c, act), run[1..], s')
  }

  lemma {:induction false} RunKeeps(s: State, run: seq<(nat, Act)>, s': State)
    requires Inv(s) && Runs(s, run, s')
    ensures Inv(s')
    decreases |run|
  {
    hide Inv;
    if run != [] {
      var (c, act) := run[0];
      BtMutexProof.NextKeeps(s, c, act);
      RunKeeps(Next(s, c, act), run[1..], s');
    }
  }

  lemma InitInv(s: State)
    requires Init(s)
    ensures Inv(s)
  {
    forall c | 0 <= c < |s.dbs| ensures LockedAddrs(s.dbs[c]) == Holds(s, c) {
      assert LockedAddrs(s.dbs[c]) == {};
      assert Holds(s, c) == {};
    }
  }

  ghost predicate Reachable(s: State) {
    exists s0, run :: Init(s0) && Runs(s0, run, s)
  }

  lemma ReachableInv(s: State)
    requires Reachable(s)
    ensures Inv(s)
  {
    var s0, run :| Init(s0) && Runs(s0, run, s);
    InitInv(s0);
    RunKeeps(s0, run, s);
  }

  /** In a reachable state no assertion of the source can fail. */
  lemma NoAssertionFails(s: State, c: nat, act: Act)
    requires Reachable(s) && Enabled(s, c, act)
    ensures Safe(s, c, act)
  {
    ReachableInv(s);
    BtMutexProof.NextKeeps(s, c, act);
  }

  // ----- no deadlock -----

  /** The Btree whose mutex a connection is inside lockBtreeMutex() for. */
  function Awaited(d: Db): Option<Btree> {
    match d.pc
    case Wait(p, _) => if p < |d.bts| then Some(d.bts[p]) else None
    case Again(_, q, _) => if q < |d.bts| && d.bts[q].want > 0 then Some(d.bts[q]) else None
    case _ => None
  }

  /** Connection `c` waits for a mutex that `e` holds. */
  predicate WaitsFor(s: State, c: nat, e: nat) {
    c < |s.dbs| && Awaited(s.dbs[c]).Some?
    && var a := Awaited(s.dbs[c]).value.pBt; a in s.owner && s.owner[a] == e
  }

  /** A connection inside lockBtreeMutex() holds only mutexes of smaller addresses. */
  lemma HoldsOnlySmaller(s: State, c: nat, a: Addr)
    requires Reachable(s) && c < |s.dbs| && Awaited(s.dbs[c]).Some? && a in Holds(s, c)
    ensures a < Awaited(s.dbs[c]).value.pBt
  {
    ReachableInv(s);
    SmallerInv(s, c, a);
  }

  lemma SmallerInv(s: State, c: nat, a: Addr)
    requires Inv(s) && c < |s.dbs| && Awaited(s.dbs[c]).Some? && a in Holds(s, c)
    ensures a < Awaited(s.dbs[c]).value.pBt
  {
    var d := s.dbs[c];
    assert Local(d);
    assert a in LockedAddrs(d);
    var i :| 0 <= i < |d.bts| && d.bts[i].locked && d.bts[i].pBt == a;
  }

  /** Each connection of the chain waits for the next one. */
  predicate WaitChain(s: State, chain: seq<nat>)
    decreases |chain|
  {
    |chain| > 1 ==> WaitsFor(s, chain[0], chain[1]) && WaitChain(s, chain[1..])
  }

  /** Along a chain of waiting connections the awaited addresses grow. */
  lemma {:induction false} ChainGrows(s: State, chain: seq<nat>)
    requires Inv(s) && |chain| >= 2 && WaitChain(s, chain)
    ensures var z := chain[|chain|-1];
            z < |s.dbs| && WaitsFor(s, chain[0], chain[1])
            && (Awaited(s.dbs[z]).Some? ==> Awaited(s.dbs[chain[0]]).value.pBt < Awaited(s.dbs[z]).value.pBt)
    decreases |chain|
  {
    var e := chain[1];
    var a := Awaited(s.dbs[chain[0]]).value.pBt;
    assert a in Holds(s, e) && e < |s.dbs|;
    if Awaited(s.dbs[e]).Some? {
      SmallerInv(s, e, a);
    }
    if |chain| > 2 {
      ChainGrows(s, chain[1..]);
    }
  }

  /** The wait-for graph has no cycle. */
  lemma NoWaitCycle(s: State, chain: seq<nat>)
    requires Reachable(s) && |chain| >= 2 && WaitChain(s, chain)
    ensures chain[0] != chain[|chain|-1]
  {
    ReachableInv(s);
    ChainGrows(s, chain);
  }

  predicate Blocked(s: State, c: nat) {
    exists e :: 0 <= e < |s.dbs| && WaitsFor(s, c, e)
  }

  /** A chain that leads from `c`, wait by wait, to a connection that does not wait. */
  predicate WaitsUpTo(s: State, c: nat, chain: seq<nat>) {
    && chain != [] && chain[0] == c && WaitChain(s, chain)
    && chain[|chain|-1] < |s.dbs| && !Blocked(s, chain[|chain|-1])
  }

  /** The waiting of every connection ends at one that does not wait. */
  lemma {:induction false} WaitEnds(s: State, c: nat) returns (chain: seq<nat>)
    requires Inv(s) && c < |s.dbs|
    ensures WaitsUpTo(s, c, chain)
    decreases if Awaited(s.dbs[c]).Some? then 1 + |Above(s, Awaited(s.dbs[c]).value.pBt)| else 0
  {
    if !Blocked(s, c) {
      return [c];
    }
    var f :| 0 <= f < |s.dbs| && WaitsFor(s, c, f);
    var a := Awaited(s.dbs[c]).value.pBt;
    assert a in Holds(s, f);
    if Awaited(s.dbs[f]).Some? {
      SmallerInv(s, f, a);
      var b := Awaited(s.dbs[f]).value.pBt;
      assert Above(s, b) < Above(s, a) by {
        assert a in Above(s, a) && a !in Above(s, b);
      }
      SubsetSmaller(Above(s, b), Above(s, a));
    }
    var rest := WaitEnds(s, f);
    chain := [c] + rest;
    assert chain[1..] == rest;
  }

  lemma {:induction false} LastLink(s: State, chain: seq<nat>)
    requires |chain| > 1 && WaitChain(s, chain)
    ensures WaitsFor(s, chain[|chain|-2], chain[|chain|-1])
    decreases |chain|
  {
    if |chain| > 2 {
      LastLink(s, chain[1..]);
    }
  }

  function Above(s: State, a: Addr): set<Addr> {
    set b | b in s.owner && b >= a
  }

  lemma SubsetSmaller(x: set<Addr>, y: set<Addr>)
    requires x < y
    ensures |x| < |y|
  {
    assert y == x + (y - x);
    assert y - x != {};
  }

  /** A connection inside a call that does not wait can take its next step. */
  lemma UnblockedSteps(s: State, c: nat)
    requires Inv(s) && c < |s.dbs| && !Blocked(s, c) && !s.dbs[c].pc.Idle?
    ensures Enabled(s, c, Run(false))
  {
    if Awaited(s.dbs[c]).Some? {
      var a := Awaited(s.dbs[c]).value.pBt;
      if a in s.owner {
        assert WaitsFor(s, c, s.owner[a]);
      }
    }
    assert Local(s.dbs[c]);
  }

  /** No deadlock: from any connection inside a call the waiting leads to one that can
      take its next step, or to one outside of calls that keeps the mutex which the
      connection before it on the chain waits for. */
  lemma SomebodyCanStep(s: State, c: nat) returns (chain: seq<nat>)
    requires Reachable(s) && c < |s.dbs| && !s.dbs[c].pc.Idle?
    ensures chain != [] && chain[0] == c && WaitChain(s, chain)
    ensures var e := chain[|chain|-1];
            && e < |s.dbs|
            && (Enabled(s, e, Run(false)) || (s.dbs[e].pc.Idle? && |chain| > 1 && WaitsFor(s, chain[|chain|-2], e)))
  {
    ReachableInv(s);
    chain := WaitEnds(s, c);
    var e := chain[|chain|-1];
    if !s.dbs[e].pc.Idle? {
      UnblockedSteps(s, e);
    } else {
      LastLink(s, chain);
    }
  }

  // ----- between calls -----

  /** Between calls a Btree is locked exactly when it is wanted, exactly then its
      connection holds the mutex, and BtShared.db is that connection. */
  lemma BetweenCalls(s: State, c: nat, p: nat)
    requires Reachable(s) && c < |s.dbs| && s.dbs[c].pc.Idle? && p < |s.dbs[c].bts|
    ensures var b := s.dbs[c].bts[p];
            && (b.locked <==> b.want > 0)
            && (b.locked <==> b.pBt in s.owner && s.owner[b.pBt] == c)
            && (b.locked ==> b.pBt in s.btDb && s.btDb[b.pBt] == c)
  {
    ReachableInv(s);
    assert Local(s.dbs[c]);
    HolderIsLocked(s, c, p);
  }

  /** At any time at most one connection has a Btree of a BtShared locked. */
  lemma OneLocked(s: State, c: nat, p: nat, e: nat, q: nat)
    requires Reachable(s) && c < |s.dbs| && e < |s.dbs| && p < |s.dbs[c].bts| && q < |s.dbs[e].bts|
    requires s.dbs[c].bts[p].locked && s.dbs[e].bts[q].locked && s.dbs[c].bts[p].pBt == s.dbs[e].bts[q].pBt
    ensures c == e && p == q
  {
    ReachableInv(s);
    assert Local(s.dbs[c]) && Local(s.dbs[e]);
    HolderIsLocked(s, c, p);
    HolderIsLocked(s, e, q);
  }

  // ----- whole calls -----

  /** sqlite3BtreeHoldsAllMutexes() */
  predicate HoldsAll(s: State, c: nat)
    requires c < |s.dbs|
  {
    var d := s.dbs[c];
    forall j :: 0 <= j < |d.slots| && d.slots[j].Shared? ==>
      Has(d.bts, d.slots[j].pBt) && d.bts[Pos(d.bts, d.slots[j].pBt)].want > 0
      && d.slots[j].pBt in s.owner && s.owner[d.slots[j].pBt] == c
  }

  /** What connection `c` itself does in the run. */
  predicate OnlyRuns(run: seq<(nat, Act)>, c: nat) {
    forall k :: 0 <= k < |run| && run[k].0 == c ==> run[k].1.Run?
  }

  /** Nobody else changes a connection, and steps inside a call keep its goal. */
  lemma StepStays(s: State, e: nat, act: Act, c: nat)
    requires Enabled(s, e, act) && Safe(s, e, act) && c < |s.dbs|
    ensures |Next(s, e, act).dbs| == |s.dbs|
    ensures e != c ==> Next(s, e, act).dbs[c] == s.dbs[c]
    ensures act.Run? ==> Next(s, e, act).dbs[c].goal == s.dbs[c].goal && Next(s, e, act).dbs[c].slots == s.dbs[c].slots
  {
    hide Enabled, Safe, Resume;
  }

  /** While a call goes on, its goal and the slots stay. */
  lemma {:induction false} GoalStays(s: State, run: seq<(nat, Act)>, s': State, c: nat)
    requires Inv(s) && Runs(s, run, s') && c < |s.dbs| && OnlyRuns(run, c)
    ensures Inv(s') && c < |s'.dbs| && s'.dbs[c].goal == s.dbs[c].goal && s'.dbs[c].slots == s.dbs[c].slots
    decreases |run|
  {
    hide Inv, Next, Enabled, Safe;
    if run != [] {
      var (e, act) := run[0];
      assert run[0].0 == c ==> run[0].1.Run?;
      StepStays(s, e, act, c);
      BtMutexProof.NextKeeps(s, e, act);
      assert OnlyRuns(run[1..], c);
      GoalStays(Next(s, e, act), run[1..], s', c);
    }
  }

  lemma IdleHoldsAll(s: State, c: nat)
    requires Inv(s) && c < |s.dbs| && s.dbs[c].pc.Idle?
    requires forall i :: 0 <= i < |s.dbs[c].bts| ==> s.dbs[c].bts[i].want > 0
    ensures HoldsAll(s, c)
  {
    var d := s.dbs[c];
    assert Local(d);
    forall j | 0 <= j < |d.slots| && d.slots[j].Shared?
      ensures Has(d.bts, d.slots[j].pBt) && d.slots[j].pBt in s.owner && s.owner[d.slots[j].pBt] == c
    {
      HolderIsLocked(s, c, Pos(d.bts, d.slots[j].pBt));
    }
  }

  /** When sqlite3BtreeEnterAll() returns, whatever the others did meanwhile, the
      connection holds all its mutexes and every count is one higher. */
  lemma EnterAllHolds(s: State, c: nat, run: seq<(nat, Act)>, s': State)
    requires Reachable(s) && Enabled(s, c, CallEnterAll)
    requires OnlyRuns(run, c) && Runs(Next(s, c, CallEnterAll), run, s')
    ensures c < |s'.dbs|
    ensures s'.dbs[c].pc.Idle? ==> Wants(s'.dbs[c].bts) == Raised(Wants(s.dbs[c].bts)) && HoldsAll(s', c)
  {
    ReachableInv(s);
    var d := s.dbs[c];
    assert Local(d);
    assert |d.bts| > 0 ==> Shared(d.bts[0].pBt) in d.slots;
    BtMutexProof.NextKeeps(s, c, CallEnterAll);
    GoalStays(Next(s, c, CallEnterAll), run, s', c);
    var d' := s'.dbs[c];
    if d'.pc.Idle? {
      assert Local(d');
      assert forall i :: 0 <= i < |d'.bts| ==> d'.bts[i].want == Wants(d'.bts)[i];
      IdleHoldsAll(s', c);
    }
  }

  /** What the calls of connection `c` in a run add to the count of its Btree `p`. */
  function Net(run: seq<(nat, Act)>, c: nat, p: nat): int
    decreases |run|
  {
    if run == [] then 0
    else
      var (e, act) := run[0];
      Net(run[1..], c, p) +
      if e != c then 0
      else match act
        case Enter(q) => if q == p then 1 else 0
        case Leave(q) => if q == p then -1 else 0
        case CallEnterAll => 1
        case CallLeaveAll => -1
        case _ => 0
  }

  predicate KeepsList(run: seq<(nat, Act)>, c: nat) {
    forall k :: 0 <= k < |run| && run[k].0 == c ==> !run[k].1.Open? && !run[k].1.Close?
  }

  lemma GoalMoves(s: State, e: nat, act: Act, c: nat, p: nat)
    requires Inv(s) && Enabled(s, e, act) && Safe(s, e, act) && c < |s.dbs| && p < |s.dbs[c].goal|
    requires e == c ==> !act.Open? && !act.Close?
    ensures c < |Next(s, e, act).dbs| && |Next(s, e, act).dbs[c].goal| == |s.dbs[c].goal|
    ensures Next(s, e, act).dbs[c].goal[p] == s.dbs[c].goal[p] + Net([(e, act)], c, p)
  {
    assert [(e, act)][1..] == [];
    assert Net([(e, act)][1..], c, p) == 0;
    assert Local(s.dbs[c]);
    StepStays(s, e, act, c);
  }

  lemma {:induction false} GoalAdds(s: State, run: seq<(nat, Act)>, s': State, c: nat, p: nat)
    requires Inv(s) && Runs(s, run, s') && c < |s.dbs| && KeepsList(run, c) && p < |s.dbs[c].goal|
    ensures c < |s'.dbs| && p < |s'.dbs[c].goal| && s'.dbs[c].goal[p] == s.dbs[c].goal[p] + Net(run, c, p)
    decreases |run|
  {
    hide Inv, Next, Enabled, Safe;
    if run != [] {
      var (e, act) := run[0];
      BtMutexProof.NextKeeps(s, e, act);
      GoalMoves(s, e, act, c, p);
      assert KeepsList(run[1..], c);
      GoalAdds(Next(s, e, act), run[1..], s', c, p);
      assert [(e, act)][1..] == [];
      assert Net([(e, act)][1..], c, p) == 0;
      assert Net(run, c, p) == Net(run[1..], c, p) + Net([(e, act)], c, p);
    }
  }

  /** From outside calls to outside calls, at any nesting, the count of a Btree moves
      by the calls made: every leave undoes an enter, every leave-all an enter-all. */
  lemma CountsAdd(s: State, run: seq<(nat, Act)>, s': State, c: nat, p: nat)
    requires Reachable(s) && Runs(s, run, s') && c < |s.dbs| && KeepsList(run, c)
    requires s.dbs[c].pc.Idle? && p < |s.dbs[c].bts|
    ensures c < |s'.dbs|
    ensures s'.dbs[c].pc.Idle? ==>
      p < |s'.dbs[c].bts| && s'.dbs[c].bts[p].want == s.dbs[c].bts[p].want + Net(run, c, p)
  {
    ReachableInv(s);
    RunKeeps(s, run, s');
    assert Local(s.dbs[c]);
    GoalAdds(s, run, s', c, p);
    if s'.dbs[c].pc.Idle? {
      assert Local(s'.dbs[c]);
      assert s'.dbs[c].bts[p].want == Wants(s'.dbs[c].bts)[p];
    }
  }
}

/** Dropping the b-trees of a table when every drop may move the largest root
    page of the database into the hole. */
module DestroyTable {
  import opened Seqs

  // ----- the code that destroyTable() writes -----

  class Index {
    const tnum: int
    var pNext: Index?

    constructor (tnum: int, pNext: Index?)
      ensures this.tnum == tnum && this.pNext == pNext
    {
      this.tnum, this.pNext := tnum, pNext;
    }
  }

  ghost predicate Chain(head: Index?, list: seq<Index>)
    reads list`pNext
  {
    && head == (if list == [] then null else list[0])
    && forall i {:trigger list[i].pNext} :: 0 <= i < |list| ==> list[i].pNext == if i + 1 < |list| then list[i+1] else null
  }

  predicate Descending(ops: seq<int>) {
    forall i, j :: 0 <= i < j < |ops| ==> ops[i] > ops[j]
  }

  /** The root pages of the table and of its indices. */
  ghost function Roots(iTab: int, list: seq<Index>): set<int> {
    {iTab} + set i | 0 <= i < |list| :: list[i].tnum
  }

  ghost function Below(roots: set<int>, iDestroyed: int): set<int> {
    set r | r in roots && r < iDestroyed
  }

  lemma FewerBelow(roots: set<int>, iDestroyed: int, iLargest: int)
    requires iLargest in roots && iLargest < iDestroyed
    ensures |Below(roots, iLargest)| < |Below(roots, iDestroyed)|
  {
    var less, all := Below(roots, iLargest), Below(roots, iDestroyed);
    assert iLargest in all && iLargest !in less;
    assert all == less + (all - less);
    assert all - less != {};
  }

  /** The code of a statement: the root pages of its OP_Destroy operations, each
      with the UPDATE of the catalogue, and whether an error was found. */
  class Parse {
    var ops: seq<int>
    var corrupt: bool

    constructor ()
      ensures ops == [] && !corrupt
    {
      ops, corrupt := [], false;
    }

    /** destroyRootPage() */
    method DestroyRootPage(iTable: int)
      modifies this
      ensures ops == old(ops) + [iTable] && corrupt == (old(corrupt) || iTable < 2)
    {
      if iTable < 2 {
        corrupt := true;
      }
      ops := ops + [iTable];
    }

    /** The scan for the largest root page below the last one destroyed. */
    method Largest(iTab: int, pIndex: Index?, iDestroyed: int, ghost list: seq<Index>) returns (iLargest: int)
      requires Chain(pIndex, list)
      ensures iLargest == 0 || (iLargest in Roots(iTab, list) && (iDestroyed == 0 || iLargest < iDestroyed))
      ensures iTab >= 0 ==> iLargest >= 0
      ensures iTab < 0 && (iDestroyed == 0 || iTab < iDestroyed) ==> iLargest in Roots(iTab, list)
      ensures iTab < 0 && (iDestroyed == 0 || iTab < iDestroyed) ==>
        forall r :: r in Roots(iTab, list) && (iDestroyed == 0 || r < iDestroyed) ==> r <= iLargest
      ensures forall r :: r in Roots(iTab, list) && r > 0 && (iDestroyed == 0 || r < iDestroyed) ==> r <= iLargest
    {
      iLargest := 0;
      if iDestroyed == 0 || iTab < iDestroyed {
        iLargest := iTab;
      }
      var pIdx := pIndex;
      ghost var k := 0;
      while pIdx != null
        invariant 0 <= k <= |list| && pIdx == (if k < |list| then list[k] else null)
        invariant iLargest == 0 || (iLargest in Roots(iTab, list) && (iDestroyed == 0 || iLargest < iDestroyed))
        invariant (iTab >= 0 ==> iLargest >= 0) && ((iDestroyed == 0 || iTab < iDestroyed) ==> iTab <= iLargest)
        invariant iTab < 0 && (iDestroyed == 0 || iTab < iDestroyed) ==> iLargest in Roots(iTab, list)
        invariant iTab < 0 && (iDestroyed == 0 || iTab < iDestroyed) ==>
          forall i :: 0 <= i < k && (iDestroyed == 0 || list[i].tnum < iDestroyed) ==> list[i].tnum <= iLargest
        invariant forall i :: 0 <= i < k && list[i].tnum > 0 && (iDestroyed == 0 || list[i].tnum < iDestroyed) ==> list[i].tnum <= iLargest
        decreases |list| - k
      {
        var iIdx := pIdx.tnum;
        if (iDestroyed == 0 || iIdx < iDestroyed) && iIdx > iLargest {
          iLargest := iIdx;
          assert iLargest in Roots(iTab, list);
        }
        pIdx := pIdx.pNext;
        k := k + 1;
      }
    }

    /** destroyTable(): every distinct positive root page, the largest first.  Nothing
        else is destroyed exactly when the table's root page is not negative or an
        index has root page 0, which ends the loop. */
    method DestroyTable(iTab: int, pIndex: Index?, ghost list: seq<Index>)
      requires Chain(pIndex, list) && ops == []
      modifies this
      ensures Descending(ops) && corrupt == (old(corrupt) || exists i :: 0 <= i < |ops| && ops[i] < 2)
      ensures forall r :: r in Roots(iTab, list) && r > 0 ==> r in ops
      ensures forall r :: r in ops ==> r in Roots(iTab, list)
      ensures (forall r :: r in ops ==> r > 0) <==> iTab >= 0 || 0 in Roots(iTab, list)
    {
      ghost var roots := Roots(iTab, list);
      ghost var sound := iTab >= 0 || 0 in roots;
      var iDestroyed := 0;
      while true
        invariant Descending(ops) && corrupt == (old(corrupt) || exists i :: 0 <= i < |ops| && ops[i] < 2)
        invariant if ops == [] then iDestroyed == 0 else iDestroyed == ops[|ops|-1] && iDestroyed != 0
        invariant forall r :: r in ops ==> r in roots && (sound ==> r > 0)
        invariant sound ==> iDestroyed >= 0
        invariant forall r :: r in roots && r > 0 && iDestroyed != 0 && r >= iDestroyed ==> r in ops
        decreases iDestroyed == 0, |Below(roots, iDestroyed)|
      {
        var iLargest := Largest(iTab, pIndex, iDestroyed, list);
        if iLargest == 0 {
          assert !sound ==> iDestroyed < 0 && iDestroyed in ops;
          return;
        }
        if iDestroyed != 0 {
          FewerBelow(roots, iDestroyed, iLargest);
        }
        ghost var was := ops;
        DestroyRootPage(iLargest);
        assert forall i :: 0 <= i < |was| ==> ops[i] == was[i];
        assert ops[|was|] == iLargest;
        iDestroyed := iLargest;
      }
    }
  }

  /** A table for which a page that is not positive is destroyed: root page -1 and no
      index. */
  method NegativeRoot() returns (p: Parse)
    ensures fresh(p) && p.ops == [-1] && p.corrupt
  {
    p := new Parse();
    p.DestroyTable(-1, null, []);
    OnlyOne(p.ops, -1);
  }

  lemma OnlyOne(ops: seq<int>, r: int)
    requires Descending(ops) && ops != [] && forall x :: x in ops ==> x == r
    ensures ops == [r]
  {
    var last := |ops| - 1;
    assert ops[0] in ops && ops[last] in ops && ops[0] == ops[last];
  }

  // ----- what the code does to the database -----

  /** A b-tree; its content does not matter here. */
  type Tree = nat

  /** A table or an index with a row in the catalogue. */
  type Name = nat

  /** The b-tree at every root page, and the root page of every catalogue entry. */
  datatype Db = Db(store: map<int, Tree>, cat: map<Name, int>)

  lemma SomeElement(s: set<int>)
    ensures s == {} || exists x :: x in s
  {
    assert (forall x :: x !in s) ==> s == {};
  }

  ghost function Max(s: set<int>): (m: int)
    requires exists x :: x in s
    ensures m in s && forall x :: x in s ==> x <= m
    decreases |s|
  {
    var x :| x in s;
    if s - {x} == {} then
      assert forall y :: y in s ==> y == x by {
        assert forall y :: y in s && y != x ==> y in s - {x};
      }
      x
    else
      assert exists y :: y in s - {x} by {
        SomeElement(s - {x});
      }
      var y := Max(s - {x});
      assert forall z :: z in s && z != x ==> z in s - {x};
      if x > y then x else y
  }

  /** Every entry with root page `iFrom` gets `iTo`. */
  function Renumbered(cat: map<Name, int>, iFrom: int, iTo: int): map<Name, int> {
    map o | o in cat :: if cat[o] == iFrom then iTo else cat[o]
  }

  /** OP_Destroy and the UPDATE after it.  With auto-vacuum the tree of the largest
      root page moves into the hole, and entries that name it are corrected. */
  ghost function Destroyed(db: Db, autoVacuum: bool, p: int): Db
    requires p in db.store
  {
    var max := Max(db.store.Keys);
    if !autoVacuum || p == max then db.(store := db.store - {p})
    else Db((db.store - {max})[p := db.store[max]], Renumbered(db.cat, max, p))
  }

  /** Every page is live when its turn comes; the result is `db'`. */
  ghost predicate Runs(db: Db, autoVacuum: bool, ops: seq<int>, db': Db)
    decreases |ops|
  {
    if ops == [] then db == db'
    else ops[0] in db.store && Runs(Destroyed(db, autoVacuum, ops[0]), autoVacuum, ops[1..], db')
  }

  /** The entries `names` name the trees `tree` by root pages that are not in `ops`. */
  ghost predicate Named(db: Db, names: set<Name>, tree: map<Name, Tree>, ops: seq<int>) {
    forall o :: o in names ==>
      o in db.cat && o in tree && db.cat[o] !in ops && db.cat[o] in db.store && db.store[db.cat[o]] == tree[o]
  }

  predicate OneEach(store: map<int, Tree>) {
    forall p, q :: p in store && q in store && p != q ==> store[p] != store[q]
  }

  lemma OneDestroyed(db: Db, autoVacuum: bool, ops: seq<int>, names: set<Name>, tree: map<Name, Tree>)
    requires ops != [] && Descending(ops) && OneEach(db.store) && (forall r :: r in ops ==> r in db.store)
    requires Named(db, names, tree, ops)
    ensures var db', rest := Destroyed(db, autoVacuum, ops[0]), ops[1..];
            && Descending(rest) && OneEach(db'.store) && (forall r :: r in rest ==> r in db'.store && db'.store[r] == db.store[r])
            && Named(db', names, tree, rest)
            && db'.store.Values == db.store.Values - {db.store[ops[0]]}
  {
    var p, rest := ops[0], ops[1..];
    var db', max := Destroyed(db, autoVacuum, p), Max(db.store.Keys);
    assert p in ops;
    forall r | r in rest ensures r < p && r in ops {
      var i :| 0 <= i < |rest| && rest[i] == r;
      assert ops[i+1] == r;
    }
    forall t | t in db.store.Values && t != db.store[p] ensures t in db'.store.Values {
      var q :| q in db.store && db.store[q] == t;
      if q == max && autoVacuum && p != max {
        assert db'.store[p] == t;
      } else {
        assert q in db'.store && db'.store[q] == t;
      }
    }
    forall t | t in db'.store.Values ensures t in db.store.Values && t != db.store[p] {
      var q :| q in db'.store && db'.store[q] == t;
      var q' := if q == p then max else q;
      assert q' in db.store && db.store[q'] == t;
    }
  }

  /** In descending order no page still to be destroyed is ever moved: every one is
      live, with its own tree, when its turn comes.  In the end exactly the trees of
      these pages are gone, and every surviving entry still names its own tree. */
  lemma {:induction false} DropKeepsOthers(db: Db, autoVacuum: bool, ops: seq<int>, names: set<Name>, tree: map<Name, Tree>)
    returns (db': Db)
    requires Descending(ops) && OneEach(db.store) && (forall r :: r in ops ==> r in db.store)
    requires Named(db, names, tree, ops)
    ensures Runs(db, autoVacuum, ops, db')
    ensures Named(db', names, tree, [])
    ensures db'.store.Values == db.store.Values - TreesAt(db.store, ops)
    decreases |ops|
  {
    assert ops == [] ==> Named(db, names, tree, []);
    hide Named, OneEach, Descending, Destroyed;
    if ops == [] {
      db' := db;
      assert TreesAt(db.store, ops) == {};
    } else {
      OneDestroyed(db, autoVacuum, ops, names, tree);
      var next := Destroyed(db, autoVacuum, ops[0]);
      db' := DropKeepsOthers(next, autoVacuum, ops[1..], names, tree);
      TreesSplit(db.store, next.store, ops);
    }
  }

  /** The trees at the pages of `ops`. */
  ghost function TreesAt(store: map<int, Tree>, ops: seq<int>): set<Tree>
    requires forall r :: r in ops ==> r in store
  {
    set r | r in ops :: store[r]
  }

  lemma TreesSplit(store: map<int, Tree>, next: map<int, Tree>, ops: seq<int>)
    requires ops != [] && forall r :: r in ops ==> r in store
    requires forall r :: r in ops[1..] ==> r in next && next[r] == store[r]
    ensures TreesAt(store, ops) == {store[ops[0]]} + TreesAt(next, ops[1..])
  {
    var p, rest := ops[0], ops[1..];
    assert p in ops;
    assert p in store;
    forall t | t in TreesAt(store, ops) ensures t == store[p] || t in TreesAt(next, rest) {
      var r :| r in ops && store[r] == t;
      assert ops == [p] + rest;
      assert r == p || (r in rest && next[r] == t);
    }
    forall t | t in TreesAt(next, rest) ensures t in TreesAt(store, ops) {
      var r :| r in rest && next[r] == t;
      assert ops == [p] + rest;
      assert r in ops && store[r] == t;
    }
    assert store[p] in TreesAt(store, ops);
  }

  /** A page that a run destroys was live from the start. */
  lemma {:induction false} LiveFromStart(db: Db, autoVacuum: bool, ops: seq<int>, db': Db, r: int)
    requires Runs(db, autoVacuum, ops, db') && r in ops
    ensures r in db.store
    decreases |ops|
  {
    if r != ops[0] {
      assert ops == [ops[0]] + ops[1..];
      LiveFromStart(Destroyed(db, autoVacuum, ops[0]), autoVacuum, ops[1..], db', r);
    }
  }

  ghost predicate JustThese(db: Db, ops: seq<int>) {
    forall r :: r in ops <==> r in db.store
  }

  lemma RestDistinct(p: int, rest: seq<int>)
    requires NoRepeats([p] + rest)
    ensures NoRepeats(rest) && p !in rest
  {
    var ops := [p] + rest;
    assert forall i :: 0 <= i < |rest| ==> ops[i+1] == rest[i];
    assert ops[0] == p;
  }

  lemma RestDescending(p: int, rest: seq<int>)
    requires Descending(rest) && forall r :: r in rest ==> r < p
    ensures Descending([p] + rest)
  {
    var ops := [p] + rest;
    forall i, j | 0 <= i < j < |ops| ensures ops[i] > ops[j] {
      assert ops[j] == rest[j-1] && rest[j-1] in rest;
      assert i > 0 ==> ops[i] == rest[i-1];
    }
  }

  lemma LargestFirst(db: Db, p: int, rest: seq<int>, db': Db)
    requires JustThese(db, [p] + rest) && p !in rest && Runs(db, true, [p] + rest, db')
    ensures p in db.store && JustThese(Destroyed(db, true, p), rest) && forall r :: r in rest ==> r < p
    ensures Runs(Destroyed(db, true, p), true, rest, db')
  {
    var ops := [p] + rest;
    assert ops[0] == p && ops[1..] == rest;
    assert p in ops;
    var next, max := Destroyed(db, true, p), Max(db.store.Keys);
    if p != max {
      assert max in rest && max !in next.store;
      LiveFromStart(next, true, rest, db', max);
    }
    assert p == max;
    forall r | r in rest ensures r < p && r in next.store {
      assert r in ops;
    }
  }

  /** No other order will do: in an auto-vacuum database of just these pages, only
      the descending order finds every page live when its turn comes. */
  lemma {:induction false} OnlyDescending(db: Db, ops: seq<int>, db': Db)
    requires Runs(db, true, ops, db') && JustThese(db, ops) && NoRepeats(ops)
    ensures Descending(ops)
    decreases |ops|
  {
    hide JustThese, NoRepeats, Destroyed;
    if ops != [] {
      var p, rest := ops[0], ops[1..];
      assert ops == [p] + rest;
      RestDistinct(p, rest);
      LargestFirst(db, p, rest, db');
      OnlyDescending(Destroyed(db, true, p), rest, db');
      RestDescending(p, rest);
    }
  }

  /** sqlite3RootPageMoved(), on the root pages of all tables or of all indices. */
  method RootPageMoved(tnum: array<int>, iFrom: int, iTo: int)
    modifies tnum
    ensures forall i :: 0 <= i < tnum.Length ==> tnum[i] == if old(tnum[i]) == iFrom then iTo else old(tnum[i])
  {
    var i := 0;
    while i < tnum.Length
      invariant 0 <= i <= tnum.Length
      invariant forall k :: 0 <= k < tnum.Length ==>
        tnum[k] == if k < i && old(tnum[k]) == iFrom then iTo else old(tnum[k])
    {
      if tnum[i] == iFrom {
        tnum[i] := iTo;
      }
      i := i + 1;
    }
  }
}

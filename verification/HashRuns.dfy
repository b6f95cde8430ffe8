/** The hash table under every sequence of calls. */
module HashRuns {
  import opened Bytes
  import opened Seqs
  import opened HashTable

  /** A call: sqlite3HashInsert(), sqlite3HashFind() or sqlite3HashClear().  `oom` and
      `alloc` are what the allocator does during an insertion. */
  datatype Op =
    | Put(pKey: Key, data: nat, oom: bool, alloc: nat)
    | Get(pKey: Key)
    | ClearAll

  /** The map after one call. */
  function Applied(m: map<seq<Byte>, Entry>, op: Op): map<seq<Byte>, Entry> {
    match op
    case Put(key, data, oom, _) =>
      if Fold(key) in m then Hash.Inserted(m, key, data)
      else if data == 0 || oom then m
      else Hash.Inserted(m, key, data)
    case Get(_) => m
    case ClearAll => map[]
  }

  /** What the call returns; 0 stands for NULL and for no result. */
  function Answer(m: map<seq<Byte>, Entry>, op: Op): nat {
    match op
    case Put(key, data, oom, _) =>
      if Fold(key) in m then m[Fold(key)].data else if data == 0 || oom then data else 0
    case Get(key) => if Fold(key) in m then m[Fold(key)].data else 0
    case ClearAll => 0
  }

  function ApplyAll(m: map<seq<Byte>, Entry>, ops: seq<Op>): map<seq<Byte>, Entry> {
    if ops == [] then m else Applied(ApplyAll(m, ops[..|ops|-1]), ops[|ops|-1])
  }

  function Answers(m: map<seq<Byte>, Entry>, ops: seq<Op>): (r: seq<nat>)
    ensures |r| == |ops|
  {
    if ops == [] then []
    else Answers(m, ops[..|ops|-1]) + [Answer(ApplyAll(m, ops[..|ops|-1]), ops[|ops|-1])]
  }

  // ----- one key at a time -----

  /** What the calls leave behind for one folded key, from what was there before: only
      the calls for this key, and clearing, count. */
  function Latest(was: Option<Entry>, ops: seq<Op>, k: seq<Byte>): Option<Entry> {
    if ops == [] then was
    else
      var before := Latest(was, ops[..|ops|-1], k);
      match ops[|ops|-1]
      case Put(key, data, oom, _) =>
        if Fold(key) != k then before
        else if data == 0 then None
        else if before.None? && oom then None
        else Some(Entry(key, data))
      case Get(_) => before
      case ClearAll => None
  }

  function Lookup(m: map<seq<Byte>, Entry>, k: seq<Byte>): Option<Entry> {
    if k in m then Some(m[k]) else None
  }

  /** The map of the table, key by key: the last effective insertion of the key since
      its last deletion and the last clearing. */
  lemma {:induction false} KeyByKey(m: map<seq<Byte>, Entry>, ops: seq<Op>, k: seq<Byte>)
    ensures Lookup(ApplyAll(m, ops), k) == Latest(Lookup(m, k), ops, k)
  {
    if ops != [] {
      KeyByKey(m, ops[..|ops|-1], k);
    }
  }

  // ----- the table -----

  /** A table of `n` elements that grows with this call gets the buckets it asks for. */
  predicate Served(op: Op, n: nat) {
    op.Put? ==> op.alloc >= Hash.Asked(2 * (n + 1))
  }

  ghost predicate AllServed(m: map<seq<Byte>, Entry>, ops: seq<Op>) {
    forall i :: 0 <= i < |ops| ==> Served(ops[i], |ApplyAll(m, ops[..i])|)
  }

  /** How a call changes the numbers of elements and of buckets. */
  predicate LoadStep(op: Op, n: nat, size: nat, n': nat, size': nat) {
    match op
    case Put(_, _, _, alloc) => n' <= n + 1 && size' == Hash.SizeAfter(n, n', size, alloc)
    case Get(_) => n' == n && size' == size
    case ClearAll => n' == 0 && size' == 0
  }

  lemma LoadStepKeeps(op: Op, n: nat, size: nat, n': nat, size': nat)
    requires LoadStep(op, n, size, n', size') && Hash.LoadOk(n, size) && Served(op, n)
    ensures Hash.LoadOk(n', size')
  {
    if op.Put? {
      Hash.LoadKept(n, n', size, op.alloc);
    }
  }

  lemma CountIs(h: Hash)
    requires h.Valid()
    ensures h.count == |h.M|
  {
    Hash.CountsKeys(h.elems, h.M);
  }

  method RunOne(h: Hash, op: Op) returns (answer: nat)
    requires h.Valid()
    modifies h, h.elems, h.Table()
    ensures h.Valid() && h.M == Applied(old(h.M), op) && answer == Answer(old(h.M), op)
    ensures forall e :: e in h.elems ==> e in old(h.elems) || fresh(e)
    ensures h.ht == null || h.ht == old(h.ht) || fresh(h.ht)
    ensures LoadStep(op, old(h.count), old(h.htsize), h.count, h.htsize)
  {
    hide Hash.Valid, Hash.SizeAfter;
    match op
    case Put(key, data, oom, alloc) =>
      answer := h.Insert(key, data, oom, alloc);
    case Get(key) =>
      answer := h.Find(key);
    case ClearAll =>
      h.Clear();
      answer := 0;
  }

  /** Every sequence of calls does to the table, and answers, what it does to a map from
      folded keys; and with the buckets that it asks for it does not get crowded. */
  method RunAll(h: Hash, ops: seq<Op>) returns (answers: seq<nat>)
    requires h.Valid()
    modifies h, h.elems, h.Table()
    ensures h.Valid() && h.M == ApplyAll(old(h.M), ops) && answers == Answers(old(h.M), ops)
    ensures forall e :: e in h.elems ==> e in old(h.elems) || fresh(e)
    ensures h.ht == null || h.ht == old(h.ht) || fresh(h.ht)
    ensures Hash.LoadOk(old(h.count), old(h.htsize)) && AllServed(old(h.M), ops) ==> Hash.LoadOk(h.count, h.htsize)
  {
    hide Applied, Answer, Hash.Valid, Hash.LoadOk, Served, LoadStep;
    answers := [];
    ghost var m := h.M;
    var i := 0;
    while i < |ops|
      invariant 0 <= i <= |ops| && h.Valid()
      invariant h.M == ApplyAll(m, ops[..i]) && answers == Answers(m, ops[..i])
      invariant forall e :: e in h.elems ==> e in old(h.elems) || fresh(e)
      invariant h.ht == null || h.ht == old(h.ht) || fresh(h.ht)
      invariant Hash.LoadOk(old(h.count), old(h.htsize)) && AllServed(m, ops) ==> Hash.LoadOk(h.count, h.htsize)
    {
      assert ops[..i+1][..i] == ops[..i];
      assert forall t :: 0 <= t < |h.elems| ==> h.elems[t] in old(h.elems) || fresh(h.elems[t]);
      CountIs(h);
      ghost var n, size := h.count, h.htsize;
      var answer := RunOne(h, ops[i]);
      if Hash.LoadOk(n, size) && Served(ops[i], n) {
        LoadStepKeeps(ops[i], n, size, h.count, h.htsize);
      }
      answers := answers + [answer];
      i := i + 1;
    }
    assert ops[..i] == ops;
  }

  /** A new table, after any calls, represents the map that the calls describe, and
      counts its keys. */
  method RunNew(ops: seq<Op>) returns (h: Hash, answers: seq<nat>)
    ensures fresh(h) && h.Valid() && h.count == |h.M|
    ensures h.M == ApplyAll(map[], ops) && answers == Answers(map[], ops)
    ensures AllServed(map[], ops) ==> Hash.LoadOk(h.count, h.htsize)
  {
    h := new Hash();
    answers := RunAll(h, ops);
    CountIs(h);
  }
}

/** The generic hash table: one doubly linked list of all elements, with an
    optional array of buckets that are segments of the list. */
module HashTable {
  import opened Bytes
  import opened HashSegments
  import opened Seqs

  type Key = s: seq<Byte> | NoNul(s)

  /** strHash(), for a folded key */
  function HashOf(z: seq<Byte>): nat {
    if z == [] then 0 else ((HashOf(z[..|z|-1]) + z[|z|-1]) % U32 * 0x9e3779b1) % U32
  }

  method StrHash(z: Key) returns (h: nat)
    ensures h == HashOf(Fold(z))
  {
    h := 0;
    ghost var f := Fold(z);
    var i := 0;
    while i < |z|
      invariant i <= |z| && h == HashOf(f[..i])
    {
      assert f[..i+1][..i] == f[..i];
      h := (h + Lower(z[i])) % U32;
      h := h * 0x9e3779b1 % U32;
      i := i + 1;
    }
    assert f[..i] == f;
  }

  class HashElem {
    var next: HashElem?
    var prev: HashElem?
    var data: nat
    var pKey: Key

    constructor (pKey: Key, data: nat)
      ensures this.pKey == pKey && this.data == data
    {
      this.pKey, this.data := pKey, data;
      next, prev := null, null;
    }
  }

  datatype Bucket = Bucket(count: nat, chain: HashElem?)

  /** What the table knows of a key: the key as last given, and its data. */
  datatype Entry = Entry(pKey: seq<Byte>, data: nat)

  /** The bucket of an element in a table of `size` buckets. */
  function HomeOf(key: Key, size: nat): (h: nat)
    ensures size > 0 ==> h < size
  {
    if size == 0 then 0 else HashOf(Fold(key)) % size
  }

  lemma SameHome(a: Key, b: Key, size: nat)
    requires Fold(a) == Fold(b)
    ensures HomeOf(a, size) == HomeOf(b, size)
  {
  }

  class Hash {
    var htsize: nat
    var count: nat
    var first: HashElem?
    var ht: array?<Bucket>
    ghost var elems: seq<HashElem>
    ghost var starts: seq<nat>
    ghost var M: map<seq<Byte>, Entry>

    /** The bucket array, as a set of objects. */
    ghost function Table(): set<object>
      reads `ht
    {
      if ht == null then {} else {ht}
    }

    static ghost predicate Distinct(c: seq<HashElem>) {
      forall i, j :: 0 <= i < j < |c| ==> c[i] != c[j]
    }

    /** The list starting at `first` is `elems`. */
    ghost predicate Linked()
      reads `first, `elems, elems`next, elems`prev
    {
      && first == (if elems == [] then null else elems[0])
      && (forall i {:trigger elems[i].next} :: 0 <= i < |elems| ==> elems[i].next == if i + 1 < |elems| then elems[i+1] else null)
      && (forall i {:trigger elems[i].prev} :: 0 <= i < |elems| ==> elems[i].prev == if i > 0 then elems[i-1] else null)
      && Distinct(elems)
    }

    static ghost function HomesOf(c: seq<HashElem>, size: nat): (hs: seq<nat>)
      reads c`pKey
      ensures |hs| == |c| && forall i :: 0 <= i < |c| ==> hs[i] == HomeOf(c[i].pKey, size)
    {
      if c == [] then [] else HomesOf(c[..|c|-1], size) + [HomeOf(c[|c|-1].pKey, size)]
    }

    ghost function Homes(size: nat): (hs: seq<nat>)
      reads `elems, elems`pKey
      ensures |hs| == |elems| && forall i :: 0 <= i < |elems| ==> hs[i] == HomeOf(elems[i].pKey, size)
    {
      HomesOf(elems, size)
    }

    ghost function Counts(): (c: seq<nat>)
      requires ht != null
      reads `ht, ht
      ensures |c| == ht.Length
    {
      var t := ht[..];
      seq(|t|, h requires 0 <= h < |t| => t[h].count)
    }

    ghost function Firsts(): (c: seq<HashElem?>)
      requires ht != null
      reads `ht, ht
      ensures |c| == ht.Length
    {
      var t := ht[..];
      seq(|t|, h requires 0 <= h < |t| => t[h].chain)
    }

    /** Every bucket is a segment of the list, holding the elements of its hash. */
    ghost predicate Bucketed()
      reads `elems, `starts, `ht, `htsize, elems`pKey, Table()
    {
      if ht == null then htsize == 0
      else
        && htsize == ht.Length == |starts| && htsize > 0
        && Segments(Homes(htsize), starts, Counts())
        && Chains(elems, starts, Counts(), Firsts())
    }

    /** The elements of `c` are the entries of the map, each key once. */
    static ghost predicate Represents(c: seq<HashElem>, m: map<seq<Byte>, Entry>)
      reads c`pKey, c`data
    {
      && (forall e :: e in c ==> e.data > 0 && Fold(e.pKey) in m && m[Fold(e.pKey)] == Entry(e.pKey, e.data))
      && (forall k :: k in m ==> exists e :: e in c && Fold(e.pKey) == k)
      && (forall e, f :: e in c && f in c && e != f ==> Fold(e.pKey) != Fold(f.pKey))
    }

    ghost predicate Valid()
      reads this, elems, Table()
    {
      Linked() && Bucketed() && Represents(elems, M) && count == |elems|
    }

    /** sqlite3HashInit() */
    constructor ()
      ensures Valid() && M == map[] && elems == [] && ht == null
    {
      first, count, htsize, ht := null, 0, 0, null;
      elems, starts, M := [], [], map[];
    }

    /** sqlite3HashClear() */
    method Clear()
      modifies this
      ensures Valid() && M == map[] && elems == [] && first == null && ht == null && htsize == 0 && count == 0
    {
      first, ht, htsize, count := null, null, 0, 0;
      elems, starts, M := [], [], map[];
    }

    /** insertElement() */
    method InsertElement(useBucket: bool, h: nat, pNew: HashElem)
      requires Linked() && pNew !in elems
      requires useBucket == (ht != null) && Bucketed() && (useBucket ==> h == HomeOf(pNew.pKey, htsize))
      modifies this`first, this`elems, this`starts, elems`next, elems`prev, pNew`next, pNew`prev, Table()
      ensures Linked() && Bucketed()
      ensures exists p :: 0 <= p <= |old(elems)| && elems == InsertAt(old(elems), p, pNew)
    {
      hide Segments, Chains, StartsAfterInsert, HomeOf;
      if useBucket {
        ghost var hs, st, ct, ch := Homes(htsize), starts, Counts(), Firsts();
        ghost var p := Place(st, ct, h);
        InsertKeepsSegments(hs, st, ct, h);
        InsertKeepsChains(elems, hs, st, ct, ch, h, pNew);
        ghost var c := elems;
        AddToBucket(h, pNew, p);
        assert Homes(htsize) == InsertAt(hs, p, h) by {
          HomesAfterInsert(c, p, pNew, htsize, hs);
        }
      } else {
        LinkBefore(null, 0, pNew);
      }
    }

    /** Bookkeeping of the bucket, and the insertion before its first element. */
    method AddToBucket(h: nat, pNew: HashElem, ghost p: nat)
      requires Linked() && pNew !in elems && ht != null && h < ht.Length && |starts| == ht.Length
      requires Chains(elems, starts, Counts(), Firsts())
      requires p == Place(starts, Counts(), h) && p <= |elems|
      modifies this`first, this`elems, this`starts, elems`next, elems`prev, pNew`next, pNew`prev, ht
      ensures Linked() && elems == InsertAt(old(elems), p, pNew)
      ensures starts == StartsAfterInsert(old(starts), old(Counts()), h)
      ensures Counts() == old(Counts())[h := old(Counts())[h] + 1] && Firsts() == old(Firsts())[h := pNew]
    {
      hide StartsAfterInsert;
      ghost var t := ht[..];
      assert ht[h] == t[h];
      var pHead := if ht[h].count > 0 then ht[h].chain else null;
      assert pHead == Firsts()[h] || Counts()[h] == 0;
      starts := StartsAfterInsert(starts, Counts(), h);
      ht[h] := Bucket(ht[h].count + 1, pNew);
      assert ht[..] == t[h := Bucket(t[h].count + 1, pNew)];
      LinkBefore(pHead, p, pNew);
    }

    lemma HomesAfterInsert(c: seq<HashElem>, p: nat, x: HashElem, size: nat, hs: seq<nat>)
      requires p <= |c| && elems == InsertAt(c, p, x) && |hs| == |c|
      requires forall i :: 0 <= i < |c| ==> hs[i] == HomeOf(c[i].pKey, size)
      ensures Homes(size) == InsertAt(hs, p, HomeOf(x.pKey, size))
    {
      forall i | 0 <= i < |elems| ensures Homes(size)[i] == InsertAt(hs, p, HomeOf(x.pKey, size))[i] {
        assert elems[i] == if i < p then c[i] else if i == p then x else c[i-1];
      }
    }

    /** The list part of insertElement(): in front of `pHead`, or of the whole list. */
    method LinkBefore(pHead: HashElem?, ghost p: nat, pNew: HashElem)
      requires Linked() && pNew !in elems
      requires if pHead == null then p == 0 else p < |elems| && pHead == elems[p]
      modifies this`first, this`elems, elems`next, elems`prev, pNew`next, pNew`prev
      ensures Linked() && p <= |old(elems)| && elems == InsertAt(old(elems), p, pNew)
    {
      ghost var c := elems;
      if pHead != null {
        assert pHead.prev == if p > 0 then c[p-1] else null;
        pNew.next := pHead;
        pNew.prev := pHead.prev;
        if pHead.prev != null {
          pHead.prev.next := pNew;
        } else {
          first := pNew;
        }
        pHead.prev := pNew;
      } else {
        pNew.next := first;
        if first != null {
          first.prev := pNew;
        }
        pNew.prev := null;
        first := pNew;
      }
      elems := InsertAt(c, p, pNew);
      assert forall i {:trigger elems[i]} :: 0 <= i < |elems| ==>
        elems[i] == if i < p then c[i] else if i == p then pNew else c[i-1];
    }

    /** The run of elements that a key can be in: its bucket, or the whole list. */
    method RunOf(pKey: Key) returns (elem: HashElem?, n: nat, h: nat, ghost s: nat)
      requires Valid()
      ensures h == HomeOf(pKey, htsize) && s + n <= |elems| && (n > 0 ==> elem == elems[s])
      ensures forall i :: 0 <= i < |elems| && !(s <= i < s + n) ==> Fold(elems[i].pKey) != Fold(pKey)
    {
      hide Represents, HashOf;
      if ht != null {
        var hash := StrHash(pKey);
        h := hash % htsize;
        elem := ht[h].chain;
        n := ht[h].count;
        s := if n > 0 then starts[h] else 0;
        assert n == Counts()[h] && elem == Firsts()[h];
        forall i | 0 <= i < |elems| && !(s <= i < s + n) ensures Fold(elems[i].pKey) != Fold(pKey) {
          assert InSegment(Homes(htsize), starts, Counts(), h, i);
          assert Homes(htsize)[i] == HomeOf(elems[i].pKey, htsize);
        }
      } else {
        h, elem, n, s := 0, first, count, 0;
      }
    }

    /** findElementWithHash(): the element for a key, if there is one. */
    method FindElement(pKey: Key) returns (elem: HashElem?, h: nat)
      requires Valid()
      ensures h == HomeOf(pKey, htsize)
      ensures elem == null <==> Fold(pKey) !in M
      ensures elem != null ==> elem in elems && Fold(elem.pKey) == Fold(pKey) && M[Fold(pKey)] == Entry(elem.pKey, elem.data)
    {
      hide Bucketed;
      var start, n;
      ghost var s;
      start, n, h, s := RunOf(pKey);
      elem := SearchRun(pKey, start, n, s);
    }

    /** The loop of findElementWithHash() over `n` elements from list position `s`. */
    method SearchRun(pKey: Key, start: HashElem?, n: nat, ghost s: nat) returns (elem: HashElem?)
      requires Linked() && s + n <= |elems| && (n > 0 ==> start == elems[s])
      ensures elem == null ==> forall i :: s <= i < s + n ==> Fold(elems[i].pKey) != Fold(pKey)
      ensures elem != null ==> elem in elems && Fold(elem.pKey) == Fold(pKey)
    {
      elem := start;
      var left := n;
      while left > 0
        invariant 0 <= left <= n && (left > 0 ==> elem == elems[s+n-left])
        invariant forall i :: s <= i < s + n - left ==> Fold(elems[i].pKey) != Fold(pKey)
      {
        var c := StrICmp(elem.pKey, pKey);
        if c == 0 { return; }
        elem := elem.next;
        left := left - 1;
      }
      elem := null;
    }

    /** sqlite3HashFind() */
    method Find(pKey: Key) returns (data: nat)
      requires Valid()
      ensures data == if Fold(pKey) in M then M[Fold(pKey)].data else 0
    {
      var elem, h := FindElement(pKey);
      data := if elem == null then 0 else elem.data;
    }

    // ----- resizing -----

    /** Largest number of buckets that keeps the allocation below the soft limit. */
    static const SOFT_LIMIT: nat := 1024
    static const BUCKET_SIZE: nat := 16

    static function Asked(newSize: nat): nat {
      if newSize * BUCKET_SIZE > SOFT_LIMIT then SOFT_LIMIT / BUCKET_SIZE else newSize
    }

    /** Whether `n` elements in `size` buckets make the table ask for more buckets. */
    static predicate Crowded(n: nat, size: nat) {
      n >= 10 && n > 2 * size && Asked(2 * n) != size
    }

    /** At most two elements a bucket on average, unless there are few elements or as
        many buckets as the soft limit allows. */
    static predicate LoadOk(n: nat, size: nat) {
      n < 10 || n <= 2 * size || size >= SOFT_LIMIT / BUCKET_SIZE
    }

    /** The number of buckets after the number of elements has gone from `was` to `n`. */
    static function SizeAfter(was: nat, n: nat, size: nat, alloc: nat): nat {
      if n > was && Crowded(n, size) && alloc > 0 then alloc
      else if n == 0 && was > 0 then 0
      else size
    }

    /** A table that gets the buckets it asks for keeps its load. */
    static lemma LoadKept(was: nat, n: nat, size: nat, alloc: nat)
      requires LoadOk(was, size) && n <= was + 1 && alloc >= Asked(2 * (was + 1))
      ensures LoadOk(n, SizeAfter(was, n, size, alloc))
    {
    }

    /** A new bucket array without elements. */
    method StartEmpty(size: nat)
      requires size > 0
      modifies this`first, this`elems, this`starts, this`htsize, this`ht
      ensures Linked() && Bucketed() && elems == [] && ht != null && fresh(ht) && htsize == size
    {
      ht := new Bucket[size](i => Bucket(0, null));
      htsize, first := size, null;
      elems, starts := [], seq(size, i => 0);
      EmptySegments(size);
      assert Counts() == seq(size, i => 0);
    }

    /** The elements of `c` from position `r` on are still chained by `next`. */
    static ghost predicate Chained(c: seq<HashElem>, r: nat)
      reads c
    {
      && (forall i {:trigger c[i].next} :: r <= i < |c| ==> c[i].next == if i + 1 < |c| then c[i+1] else null)
      && Distinct(c)
    }

    static ghost predicate SameElems(a: seq<HashElem>, b: seq<HashElem>) {
      |a| == |b| && (forall e :: e in a ==> e in b) && (forall e :: e in b ==> e in a)
    }

    static lemma Within(a: seq<HashElem>, c: seq<HashElem>, r: nat)
      requires r < |c| && SameElems(a, c[..r])
      requires Distinct(c)
      ensures (forall e :: e in a ==> e in c) && c[r] !in a
      ensures forall i :: r < i < |c| ==> c[i] !in a
    {
      forall e | e in a ensures e in c {
        assert e in c[..r];
      }
    }

    static lemma MovedOne(a: seq<HashElem>, b: seq<HashElem>, p: nat, c: seq<HashElem>, r: nat)
      requires r < |c| && SameElems(a, c[..r]) && p <= |a| && b == InsertAt(a, p, c[r])
      ensures SameElems(b, c[..r+1])
    {
      assert c[..r+1] == c[..r] + [c[r]];
      assert b == a[..p] + [c[r]] + a[p..];
      assert a == a[..p] + a[p..];
    }

    /** Move one element of the old list into the new table. */
    method MoveElem(elem: HashElem, ghost c: seq<HashElem>, ghost r: nat) returns (nextElem: HashElem?)
      requires Linked() && Bucketed() && ht != null
      requires r < |c| && elem == c[r] && Chained(c, r) && SameElems(elems, c[..r])
      modifies this`first, this`elems, this`starts, c`next, c`prev, ht
      ensures Linked() && Bucketed() && SameElems(elems, c[..r+1]) && Chained(c, r + 1)
      ensures nextElem == if r + 1 < |c| then c[r+1] else null
    {
      hide Linked, SameElems, Segments, Chains, HashOf, Fold, StartsAfterInsert, InsertAt, Counts, Firsts, Homes, HomesOf;
      Within(elems, c, r);
      var hash := StrHash(elem.pKey);
      nextElem := elem.next;
      ghost var before := elems;
      assert Table() == {ht} && elem in c;
      assert forall e <- elems :: e in c;
      assert forall i :: 0 <= i < |elems| ==> elems[i] in c;
      InsertElement(true, hash % htsize, elem);
      ghost var p :| 0 <= p <= |before| && elems == InsertAt(before, p, elem);
      MovedOne(before, elems, p, c, r);
    }

    /** rehash(): `alloc` is the number of buckets the allocator gives, or zero
        when it fails. */
    method Rehash(newSize: nat, alloc: nat) returns (done: bool)
      requires Linked() && Bucketed()
      modifies this`first, this`elems, this`starts, this`htsize, this`ht, elems`next, elems`prev
      ensures Linked() && Bucketed() && SameElems(elems, old(elems))
      ensures done <==> Asked(newSize) != old(htsize) && alloc > 0
      ensures done ==> ht != null && htsize == alloc > 0 && fresh(ht)
      ensures !done ==> ht == old(ht) && htsize == old(htsize)
    {
      hide Bucketed;
      var n := Asked(newSize);
      if n == htsize || alloc == 0 {
        return false;
      }
      var elem := first;
      ghost var c := elems;
      StartEmpty(alloc);
      ghost var r := 0;
      while elem != null
        invariant 0 <= r <= |c| && elem == (if r < |c| then c[r] else null)
        invariant Linked() && Bucketed() && ht != null && fresh(ht) && htsize == alloc
        invariant SameElems(elems, c[..r]) && Chained(c, r)
        decreases |c| - r
      {
        elem := MoveElem(elem, c, r);
        r := r + 1;
      }
      assert c[..r] == c;
      return true;
    }

    // ----- removing -----

    /** Take an element out of the list. */
    method Unlink(elem: HashElem, ghost k: nat)
      requires Linked() && k < |elems| && elem == elems[k]
      modifies this`first, this`elems, elems`next, elems`prev
      ensures Linked() && elems == RemoveAt(old(elems), k)
      ensures elem.next == old(elem.next)
    {
      ghost var c := elems;
      assert c[k].prev == if k > 0 then c[k-1] else null;
      assert c[k].next == if k + 1 < |c| then c[k+1] else null;
      if elem.prev != null {
        elem.prev.next := elem.next;
      } else {
        first := elem.next;
      }
      if elem.next != null {
        elem.next.prev := elem.prev;
      }
      elems := RemoveAt(c, k);
      assert forall i {:trigger elems[i]} :: 0 <= i < |elems| ==> elems[i] == if i < k then c[i] else c[i+1];
    }

    lemma LinkedAt(k: nat)
      requires Linked() && k < |elems|
      ensures Distinct(elems) && elems[k].next == if k + 1 < |elems| then elems[k+1] else null
    {
    }

    /** Take an element out of its bucket and out of the list. */
    method RemoveFromBucket(elem: HashElem, h: nat, ghost k: nat)
      requires Linked() && Bucketed() && k < |elems| && elem == elems[k] && h == HomeOf(elem.pKey, htsize)
      modifies this`first, this`elems, this`starts, elems`next, elems`prev, Table()
      ensures Linked() && Bucketed() && elems == RemoveAt(old(elems), k)
    {
      hide Linked, Segments, Chains, StartsAfterRemove, HomeOf, RemoveAt, Counts, Firsts, Homes, HomesOf;
      ghost var c := elems;
      if ht != null {
        ghost var hs, st, ct, ch := Homes(htsize), starts, Counts(), Firsts();
        assert hs[k] == h;
        RemoveKeepsSegments(hs, st, ct, k);
        LinkedAt(k);
        RemoveChain(hs, st, ct, ch, k, elem);
        Unlink(elem, k);
        DropFromBucket(elem, h);
        starts := StartsAfterRemove(starts, k);
        assert Homes(htsize) == RemoveAt(hs, k) by {
          HomesAfterRemove(c, k, htsize, hs);
        }
      } else {
        Unlink(elem, k);
      }
    }

    lemma RemoveChain(hs: seq<nat>, st: seq<nat>, ct: seq<nat>, ch: seq<HashElem?>, k: nat, elem: HashElem)
      requires Segments(hs, st, ct) && |hs| == |elems| && Chains(elems, st, ct, ch) && k < |hs|
      requires hs[k] < |st| && ct[hs[k]] > 0 && elem == elems[k]
      requires elem.next == if k + 1 < |elems| then elems[k+1] else null
      requires Distinct(elems)
      ensures var h := hs[k];
              Chains(RemoveAt(elems, k), StartsAfterRemove(st, k), ct[h := ct[h] - 1],
                     ch[h := if ch[h] == elem then elem.next else ch[h]])
    {
      var h := hs[k];
      assert InSegment(hs, st, ct, h, k);
      assert ch[h] == elems[st[h]];
      RemoveKeepsChains(elems, hs, st, ct, ch, k, if ch[h] == elem then elem.next else ch[h]);
    }

    lemma HomesAfterRemove(c: seq<HashElem>, k: nat, size: nat, hs: seq<nat>)
      requires k < |c| && elems == RemoveAt(c, k) && |hs| == |c|
      requires forall i :: 0 <= i < |c| ==> hs[i] == HomeOf(c[i].pKey, size)
      ensures Homes(size) == RemoveAt(hs, k)
    {
      forall i | 0 <= i < |elems| ensures Homes(size)[i] == RemoveAt(hs, k)[i] {
        assert elems[i] == if i < k then c[i] else c[i+1];
      }
    }

    /** Bookkeeping of the bucket that loses an element. */
    method DropFromBucket(elem: HashElem, h: nat)
      requires ht != null && h < ht.Length && Counts()[h] > 0
      modifies ht
      ensures Counts() == old(Counts())[h := old(Counts())[h] - 1]
      ensures Firsts() == old(Firsts())[h := if old(Firsts())[h] == elem then elem.next else old(Firsts())[h]]
    {
      ghost var t := ht[..];
      assert ht[h] == t[h];
      if ht[h].chain == elem {
        ht[h] := ht[h].(chain := elem.next);
      }
      ht[h] := ht[h].(count := ht[h].count - 1);
      assert ht[..] == t[h := Bucket(t[h].count - 1, if t[h].chain == elem then elem.next else t[h].chain)];
    }

    /** removeElementGivenHash() */
    method RemoveElement(elem: HashElem, h: nat)
      requires Valid() && elem in elems && h == HomeOf(elem.pKey, htsize)
      modifies this, elems`next, elems`prev, Table()
      ensures Valid() && M == old(M) - {Fold(old(elem.pKey))}
      ensures forall e :: e in elems <==> e in old(elems) && e != elem
      ensures ht == if elems == [] then null else old(ht)
      ensures count == old(count) - 1 && htsize == if count == 0 then 0 else old(htsize)
    {
      hide Linked, Bucketed, Represents, HomeOf, Fold;
      ghost var k :| 0 <= k < |elems| && elems[k] == elem;
      RemoveEntry(elem, h, k);
      if count == 0 {
        NothingRepresented(M);
        Clear();
      }
    }

    method RemoveEntry(elem: HashElem, h: nat, ghost k: nat)
      requires Valid() && k < |elems| && elem == elems[k] && h == HomeOf(elem.pKey, htsize)
      modifies this, elems`next, elems`prev, Table()
      ensures Valid() && M == old(M) - {Fold(old(elem.pKey))} && ht == old(ht)
      ensures count == old(count) - 1 && htsize == old(htsize)
      ensures forall e :: e in elems <==> e in old(elems) && e != elem
    {
      hide Bucketed, HomeOf, Represents;
      RemovedRepresents(elems, M, k);
      RemovedElems(elems, k);
      ghost var c', m' := RemoveAt(elems, k), M - {Fold(elem.pKey)};
      RemoveFromBucket(elem, h, k);
      assert Represents(c', m');
      assert Linked();
      count := count - 1;
      M := M - {Fold(elem.pKey)};
    }

    static lemma RemovedRepresents(c: seq<HashElem>, m: map<seq<Byte>, Entry>, k: nat)
      requires k < |c| && Distinct(c) && Represents(c, m)
      ensures Represents(RemoveAt(c, k), m - {Fold(c[k].pKey)})
    {
      hide Distinct;
      RemovedElems(c, k);
      var c', m' := RemoveAt(c, k), m - {Fold(c[k].pKey)};
      assert c[k] in c;
      forall key | key in m' ensures exists e :: e in c' && Fold(e.pKey) == key {
        var e :| e in c && Fold(e.pKey) == key;
        assert e in c';
      }
    }

    static lemma WithoutLast(c: seq<HashElem>, m: map<seq<Byte>, Entry>)
      requires c != [] && Distinct(c) && Represents(c, m)
      ensures var key := Fold(c[|c|-1].pKey);
              Distinct(c[..|c|-1]) && Represents(c[..|c|-1], m - {key}) && key in m
    {
      assert c[|c|-1] in c;
      assert Fold(c[|c|-1].pKey) in m;
      hide Represents, Fold;
      RemovedRepresents(c, m, |c| - 1);
      assert RemoveAt(c, |c| - 1) == c[..|c|-1];
    }

    static lemma NothingRepresented(m: map<seq<Byte>, Entry>)
      requires Represents([], m)
      ensures m == map[]
    {
    }

    /** One element for each key, so `count` is the number of keys. */
    static lemma {:induction false} CountsKeys(c: seq<HashElem>, m: map<seq<Byte>, Entry>)
      requires Distinct(c) && Represents(c, m)
      ensures |c| == |m|
      decreases |c|
    {
      hide Distinct, Represents, Fold;
      if c == [] {
        NothingRepresented(m);
      } else {
        var key := Fold(c[|c|-1].pKey);
        WithoutLast(c, m);
        CountsKeys(c[..|c|-1], m - {key});
        assert m == (m - {key})[key := m[key]];
      }
    }

    static lemma RemovedElems(c: seq<HashElem>, k: nat)
      requires k < |c| && Distinct(c)
      ensures forall e :: e in RemoveAt(c, k) <==> e in c && e != c[k]
    {
      forall e | e in c && e != c[k] ensures e in RemoveAt(c, k) {
        var i :| 0 <= i < |c| && c[i] == e;
        assert RemoveAt(c, k)[if i < k then i else i - 1] == e;
      }
    }

    // ----- insertion, replacement and deletion -----

    /** The map after sqlite3HashInsert(): empty data deletes the key. */
    static function Inserted(m: map<seq<Byte>, Entry>, pKey: Key, data: nat): map<seq<Byte>, Entry> {
      if data == 0 then m - {Fold(pKey)} else m[Fold(pKey) := Entry(pKey, data)]
    }

    /** New data, and the key as newly spelled, for an element of the list. */
    method ReplaceEntry(elem: HashElem, pKey: Key, data: nat)
      requires Valid() && elem in elems && Fold(elem.pKey) == Fold(pKey) && data > 0
      modifies this`M, elem`data, elem`pKey
      ensures Valid() && M == Inserted(old(M), pKey, data)
    {
      hide Represents, Segments, Chains, HashOf, Fold;
      ghost var hs := Homes(htsize);
      SetEntry(elem, pKey, data);
      assert Homes(htsize) == hs;
    }

    /** The change of one element: its entry leaves the map and the new one enters. */
    method SetEntry(elem: HashElem, pKey: Key, data: nat)
      requires Represents(elems, M) && Distinct(elems) && elem in elems && Fold(elem.pKey) == Fold(pKey) && data > 0
      modifies this`M, elem`data, elem`pKey
      ensures Represents(elems, M) && M == Inserted(old(M), pKey, data) && elem.pKey == pKey
    {
      hide Fold, Represents, Distinct, InsertAt, RemoveAt;
      ghost var k :| 0 <= k < |elems| && elems[k] == elem;
      ghost var c, m := RemoveAt(elems, k), M - {Fold(pKey)};
      RemovedRepresents(elems, M, k);
      RemovedElems(elems, k);
      BackInPlace(elems, k);
      elem.data, elem.pKey := data, pKey;
      assert Represents(c, m);
      AddedRepresents(c, m, k, elem);
      assert m[Fold(pKey) := Entry(pKey, data)] == Inserted(M, pKey, data);
      M := Inserted(M, pKey, data);
    }

    static lemma BackInPlace(c: seq<HashElem>, k: nat)
      requires k < |c|
      ensures k <= |RemoveAt(c, k)| && InsertAt(RemoveAt(c, k), k, c[k]) == c
      ensures forall i :: 0 <= i < |RemoveAt(c, k)| ==> RemoveAt(c, k)[i] in RemoveAt(c, k)
    {
    }

    static lemma SameRepresents(a: seq<HashElem>, b: seq<HashElem>, m: map<seq<Byte>, Entry>)
      requires SameElems(a, b) && Represents(b, m)
      ensures Represents(a, m)
    {
      forall k | k in m ensures exists e :: e in a && Fold(e.pKey) == k {
        var e :| e in b && Fold(e.pKey) == k;
        assert e in a;
      }
    }

    static lemma AddedRepresents(c: seq<HashElem>, m: map<seq<Byte>, Entry>, p: nat, x: HashElem)
      requires p <= |c| && Represents(c, m) && x.data > 0 && Fold(x.pKey) !in m
      ensures Represents(InsertAt(c, p, x), m[Fold(x.pKey) := Entry(x.pKey, x.data)])
    {
      var b, m' := InsertAt(c, p, x), m[Fold(x.pKey) := Entry(x.pKey, x.data)];
      assert c == c[..p] + c[p..];
      assert forall e :: e in b <==> e in c || e == x;
      forall k | k in m' ensures exists e :: e in b && Fold(e.pKey) == k {
        if k != Fold(x.pKey) {
          var e :| e in c && Fold(e.pKey) == k;
          assert e in b;
        } else {
          assert x in b;
        }
      }
    }

    /** The resize of a crowded table, and the bucket of `pKey` after it. */
    method MakeRoom(pKey: Key, hash: nat, alloc: nat) returns (h: nat)
      requires Linked() && Bucketed() && hash == HomeOf(pKey, htsize)
      modifies this`first, this`elems, this`starts, this`htsize, this`ht, elems`next, elems`prev
      ensures Linked() && Bucketed() && SameElems(elems, old(elems)) && h == HomeOf(pKey, htsize)
      ensures ht == old(ht) || (ht != null && fresh(ht))
      ensures htsize == if Crowded(count, old(htsize)) && alloc > 0 then alloc else old(htsize)
    {
      hide Linked, Segments, Chains, HashOf;
      h := hash;
      if count >= 10 && count > 2 * htsize {
        var done := Rehash(count * 2, alloc);
        if done {
          var z := StrHash(pKey);
          h := z % htsize;
        }
      }
    }

    /** Link the element and enter it in the map. */
    method LinkElement(elem: HashElem, h: nat, ghost c: seq<HashElem>)
      requires Linked() && Bucketed() && Represents(c, M) && SameElems(elems, c) && elem !in c && count == |c| + 1
      requires elem.data > 0 && Fold(elem.pKey) !in M && h == HomeOf(elem.pKey, htsize)
      modifies this`first, this`elems, this`starts, this`M, c`next, c`prev, elem`next, elem`prev, Table()
      ensures Valid() && M == Inserted(old(M), elem.pKey, elem.data)
      ensures forall e :: e in elems <==> e in c || e == elem
    {
      hide Linked, Bucketed, Represents, HomeOf, Fold, SameElems, InsertAt;
      ghost var b := elems;
      SameRepresents(b, c, M);
      AddedWithin(b, c, elem);
      InsertElement(ht != null, h, elem);
      ghost var p :| 0 <= p <= |b| && elems == InsertAt(b, p, elem);
      assert Represents(b, M);
      AddedRepresents(b, M, p, elem);
      AddedElems(b, c, p, elem);
      M := M[Fold(elem.pKey) := Entry(elem.pKey, elem.data)];
    }

    static lemma AddedElems(b: seq<HashElem>, c: seq<HashElem>, p: nat, x: HashElem)
      requires p <= |b| && SameElems(b, c)
      ensures forall e :: e in InsertAt(b, p, x) <==> e in c || e == x
    {
      assert b == b[..p] + b[p..];
    }

    /** The end of sqlite3HashInsert(): count the element, make room for it, link it. */
    method AddElement(elem: HashElem, hash: nat, alloc: nat)
      requires Valid() && elem !in elems && elem.data > 0 && Fold(elem.pKey) !in M && hash == HomeOf(elem.pKey, htsize)
      modifies this, elems`next, elems`prev, elem`next, elem`prev, Table()
      ensures Valid() && M == Inserted(old(M), elem.pKey, elem.data)
      ensures forall e :: e in elems <==> e in old(elems) || e == elem
      ensures ht == old(ht) || (ht != null && fresh(ht))
      ensures count == old(count) + 1
      ensures htsize == if Crowded(count, old(htsize)) && alloc > 0 then alloc else old(htsize)
    {
      hide Linked, Bucketed, Represents, HomeOf, Fold, Inserted, SameElems;
      ghost var c := elems;
      count := count + 1;
      var h := MakeRoom(elem.pKey, hash, alloc);
      LinkElement(elem, h, c);
    }

    static lemma AddedWithin(b: seq<HashElem>, c: seq<HashElem>, x: HashElem)
      requires SameElems(b, c) && x !in c
      ensures |b| == |c| && x !in b && forall i :: 0 <= i < |b| ==> b[i] in c
    {
      assert forall i :: 0 <= i < |b| ==> b[i] in b;
    }

    /** sqlite3HashInsert().  `oom` says that the element cannot be allocated and
        `alloc` how many buckets a resize gets. */
    method Insert(pKey: Key, data: nat, oom: bool, alloc: nat) returns (old_data: nat)
      requires Valid()
      modifies this, elems, Table()
      ensures Valid()
      ensures forall e :: e in elems ==> e in old(elems) || fresh(e)
      ensures ht == null || ht == old(ht) || fresh(ht)
      ensures Fold(pKey) in old(M) ==> old_data == old(M)[Fold(pKey)].data && M == Inserted(old(M), pKey, data)
      ensures Fold(pKey) !in old(M) && (data == 0 || oom) ==> old_data == data && M == old(M)
      ensures Fold(pKey) !in old(M) && data > 0 && !oom ==> old_data == 0 && M == Inserted(old(M), pKey, data)
      ensures count == if Fold(pKey) in old(M) then (if data == 0 then old(count) - 1 else old(count))
                       else if data == 0 || oom then old(count) else old(count) + 1
      ensures htsize == SizeAfter(old(count), count, old(htsize), alloc)
    {
      hide Linked, Bucketed, Represents, HomeOf;
      var elem, h := FindElement(pKey);
      if elem != null {
        old_data := elem.data;
        if data == 0 {
          SameHome(elem.pKey, pKey, htsize);
          RemoveElement(elem, h);
        } else {
          ReplaceEntry(elem, pKey, data);
        }
        return;
      }
      if data == 0 || oom {
        return data;
      }
      var new_elem := new HashElem(pKey, data);
      AddElement(new_elem, h, alloc);
      return 0;
    }
  }
}

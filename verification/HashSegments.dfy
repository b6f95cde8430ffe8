/** Buckets as segments of one list.  `hs` gives the bucket of every list
    position; bucket `h` is the segment of `counts[h]` positions at `starts[h]`. */
module HashSegments {
  import opened Seqs

  ghost predicate InSegment(hs: seq<nat>, starts: seq<nat>, counts: seq<nat>, h: nat, i: nat)
    requires |starts| == |counts| && h < |starts| && i < |hs|
  {
    hs[i] == h <==> starts[h] <= i < starts[h] + counts[h]
  }

  ghost predicate Segments(hs: seq<nat>, starts: seq<nat>, counts: seq<nat>) {
    && |starts| == |counts|
    && (forall i :: 0 <= i < |hs| ==> hs[i] < |starts|)
    && (forall h :: 0 <= h < |starts| && counts[h] > 0 ==> starts[h] + counts[h] <= |hs|)
    && forall h, i :: 0 <= h < |starts| && 0 <= i < |hs| ==> InSegment(hs, starts, counts, h, i)
  }

  // ----- adding an element in front of its bucket -----

  /** Where a new element of bucket `h` goes: before the bucket's first one, or
      to the front of the list when the bucket is empty. */
  function Place(starts: seq<nat>, counts: seq<nat>, h: nat): nat
    requires |starts| == |counts| && h < |starts|
  {
    if counts[h] > 0 then starts[h] else 0
  }

  function StartsAfterInsert(starts: seq<nat>, counts: seq<nat>, h: nat): (r: seq<nat>)
    requires |starts| == |counts| && h < |starts|
    ensures |r| == |starts|
  {
    var p := Place(starts, counts, h);
    seq(|starts|, k requires 0 <= k < |starts| =>
      if k == h then p else if starts[k] >= p then starts[k] + 1 else starts[k])
  }

  lemma InsertKeepsSegments(hs: seq<nat>, starts: seq<nat>, counts: seq<nat>, h: nat)
    requires Segments(hs, starts, counts) && h < |starts|
    ensures var p := Place(starts, counts, h);
            p <= |hs| && Segments(InsertAt(hs, p, h), StartsAfterInsert(starts, counts, h), counts[h := counts[h] + 1])
  {
    var p := Place(starts, counts, h);
    var hs', st, ct := InsertAt(hs, p, h), StartsAfterInsert(starts, counts, h), counts[h := counts[h] + 1];
    forall k, i | 0 <= k < |st| && 0 <= i < |hs'| ensures InSegment(hs', st, ct, k, i) {
      if i != p {
        var j := if i < p then i else i - 1;
        assert hs'[i] == hs[j];
        assert InSegment(hs, starts, counts, k, j);
        assert InSegment(hs, starts, counts, h, j);
      }
      if counts[h] > 0 {
        assert InSegment(hs, starts, counts, h, p) && InSegment(hs, starts, counts, k, p);
      }
    }
    assert forall i :: 0 <= i < |hs'| ==> hs'[i] == if i < p then hs[i] else if i == p then h else hs[i-1];
  }

  // ----- removing an element -----

  function StartsAfterRemove(starts: seq<nat>, k: nat): (r: seq<nat>)
    ensures |r| == |starts|
  {
    seq(|starts|, h requires 0 <= h < |starts| => if starts[h] > k then starts[h] - 1 else starts[h])
  }

  lemma RemoveKeepsSegments(hs: seq<nat>, starts: seq<nat>, counts: seq<nat>, k: nat)
    requires Segments(hs, starts, counts) && k < |hs|
    ensures hs[k] < |starts| && counts[hs[k]] > 0
    ensures Segments(RemoveAt(hs, k), StartsAfterRemove(starts, k), counts[hs[k] := counts[hs[k]] - 1])
  {
    var h := hs[k];
    assert InSegment(hs, starts, counts, h, k);
    var hs', st, ct := RemoveAt(hs, k), StartsAfterRemove(starts, k), counts[h := counts[h] - 1];
    forall g, i | 0 <= g < |st| && 0 <= i < |hs'| ensures InSegment(hs', st, ct, g, i) {
      var j := if i < k then i else i + 1;
      assert hs'[i] == hs[j];
      assert InSegment(hs, starts, counts, g, j) && InSegment(hs, starts, counts, g, k);
    }
    forall g | 0 <= g < |st| && ct[g] > 0 ensures st[g] + ct[g] <= |hs'| {
      assert InSegment(hs, starts, counts, g, k);
    }
    assert forall i :: 0 <= i < |hs'| ==> hs'[i] == if i < k then hs[i] else hs[i+1];
  }

  /** No elements, so no bucket has any. */
  lemma EmptySegments(n: nat)
    ensures Segments([], seq(n, i => 0), seq(n, i => 0))
  {
  }

  // ----- the pointers to the first elements -----

  /** Every bucket with elements points at the first of them. */
  ghost predicate Chains<T>(elems: seq<T>, starts: seq<nat>, counts: seq<nat>, chains: seq<T>) {
    && |starts| == |counts| == |chains|
    && forall h :: 0 <= h < |starts| && counts[h] > 0 ==> starts[h] < |elems| && chains[h] == elems[starts[h]]
  }

  lemma InsertKeepsChains<T>(elems: seq<T>, hs: seq<nat>, starts: seq<nat>, counts: seq<nat>, chains: seq<T>, h: nat, x: T)
    requires Segments(hs, starts, counts) && |hs| == |elems| && Chains(elems, starts, counts, chains) && h < |starts|
    ensures var p := Place(starts, counts, h);
            p <= |elems|
            && Chains(InsertAt(elems, p, x), StartsAfterInsert(starts, counts, h), counts[h := counts[h] + 1], chains[h := x])
  {
  }

  /** The element after the first is the new first one, if there is any. */
  lemma RemoveKeepsChains<T>(elems: seq<T>, hs: seq<nat>, starts: seq<nat>, counts: seq<nat>, chains: seq<T>, k: nat, x: T)
    requires Segments(hs, starts, counts) && |hs| == |elems| && Chains(elems, starts, counts, chains) && k < |hs|
    requires hs[k] < |starts| && counts[hs[k]] > 0
    requires starts[hs[k]] == k && k + 1 < |elems| ==> x == elems[k+1]
    requires starts[hs[k]] != k ==> x == chains[hs[k]]
    ensures var h := hs[k];
            Chains(RemoveAt(elems, k), StartsAfterRemove(starts, k), counts[h := counts[h] - 1], chains[h := x])
  {
    RemoveKeepsSegments(hs, starts, counts, k);
    var h := hs[k];
    var ct, st := counts[h := counts[h] - 1], StartsAfterRemove(starts, k);
    forall g | 0 <= g < |st| && ct[g] > 0
      ensures st[g] < |elems| - 1 && chains[h := x][g] == RemoveAt(elems, k)[st[g]]
    {
      assert InSegment(hs, starts, counts, g, k);
      assert InSegment(hs, starts, counts, h, k);
    }
  }
}

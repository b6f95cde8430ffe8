/** The open-addressing table inside a Bitvec: linear probing over an array in
    which zero marks a free slot. */
module BitvecHash {

  /** The slot `d` places after `h`, round the table. */
  function Slot(n: nat, h: nat, d: nat): (s: nat)
    requires h < n && d <= n
    ensures s < n
    ensures d < n ==> s == if h + d < n then h + d else h + d - n
  {
    if h + d < n then h + d else if h + d - n < n then h + d - n else h
  }

  /** How far slot `s` lies after `h`. */
  function Dist(n: nat, h: nat, s: nat): (d: nat)
    requires h < n && s < n
    ensures d < n && Slot(n, h, d) == s
  {
    if s >= h then s - h else s + n - h
  }

  /** The next slot, as the probe loops compute it. */
  lemma NextSlot(n: nat, h: nat, d: nat)
    requires h < n && d + 1 < n
    ensures Slot(n, h, d + 1) == (Slot(n, h, d) + 1) % n
    ensures Slot(n, h, d + 1) == if Slot(n, h, d) + 1 >= n then 0 else Slot(n, h, d) + 1
  {
    var s := Slot(n, h, d);
    if s + 1 < n {
      assert (s + 1) % n == s + 1;
    } else {
      assert s + 1 == n && (s + 1) % n == 0;
    }
  }

  /** BITVEC_HASH of a stored value; the table stores bit numbers from 1. */
  function Home(n: nat, v: nat): (h: nat)
    requires n > 0 && v > 0
    ensures h < n
  {
    (v - 1) % n
  }

  /** Every slot from the home of the value in slot `s` up to `s` is taken. */
  ghost predicate Reachable(a: seq<nat>, s: nat)
    requires s < |a| && a[s] > 0
  {
    var h := Home(|a|, a[s]);
    forall d :: 0 <= d < Dist(|a|, h, s) ==> a[Slot(|a|, h, d)] != 0
  }

  function NonZero(a: seq<nat>): nat {
    if |a| == 0 then 0 else NonZero(a[..|a|-1]) + (if a[|a|-1] != 0 then 1 else 0)
  }

  ghost predicate TableOk(a: seq<nat>) {
    && |a| > 0
    && (forall s :: 0 <= s < |a| && a[s] != 0 ==> Reachable(a, s))
    && (forall s, t :: 0 <= s < t < |a| && a[s] != 0 ==> a[s] != a[t])
  }

  ghost predicate HasFree(a: seq<nat>) {
    exists s :: 0 <= s < |a| && a[s] == 0
  }

  /** Distance from `h` of the first slot at or after distance `d` that is free
      or holds `v`; the table size when there is none. */
  function Walk(a: seq<nat>, h: nat, d: nat, v: nat): (e: nat)
    requires h < |a| && d <= |a|
    ensures d <= e <= |a|
    ensures forall x :: d <= x < e ==> a[Slot(|a|, h, x)] != 0 && a[Slot(|a|, h, x)] != v
    ensures e < |a| ==> a[Slot(|a|, h, e)] == 0 || a[Slot(|a|, h, e)] == v
    decreases |a| - d
  {
    if d == |a| then d
    else
      var x := a[Slot(|a|, h, d)];
      if x == 0 || x == v then d else Walk(a, h, d + 1, v)
  }

  lemma WalkStops(a: seq<nat>, h: nat, v: nat)
    requires h < |a| && HasFree(a)
    ensures Walk(a, h, 0, v) < |a|
  {
    var s :| 0 <= s < |a| && a[s] == 0;
    assert Slot(|a|, h, Dist(|a|, h, s)) == s;
  }

  /** The slot where probing for `v` ends. */
  function Probe(a: seq<nat>, v: nat): (s: nat)
    requires |a| > 0 && v > 0
    ensures s < |a|
  {
    var h := Home(|a|, v);
    Slot(|a|, h, Walk(a, h, 0, v))
  }

  /** Probing ends at the value exactly when the table holds it. */
  lemma ProbeFinds(a: seq<nat>, v: nat)
    requires TableOk(a) && HasFree(a) && v > 0
    ensures a[Probe(a, v)] == (if v in a then v else 0)
  {
    var h := Home(|a|, v);
    WalkStops(a, h, v);
    if v in a {
      var s :| 0 <= s < |a| && a[s] == v;
      assert Reachable(a, s);
      var d := Dist(|a|, h, s);
      var e := Walk(a, h, 0, v);
      if e < d {
        assert a[Slot(|a|, h, e)] != 0;
      }
    }
  }

  lemma UpdateKeepsOthers(a: seq<nat>, e: nat, v: nat, s: nat)
    requires e < |a| && a[e] == 0 && v > 0 && s < |a| && s != e && a[s] != 0 && Reachable(a, s)
    ensures Reachable(a[e := v], s)
  {
  }

  /** Storing a new value where its probe ended keeps the table in order. */
  lemma StoreOk(a: seq<nat>, v: nat)
    requires TableOk(a) && HasFree(a) && v > 0 && v !in a
    ensures var b := a[Probe(a, v) := v]; TableOk(b) && forall x :: x != 0 ==> (x in b <==> x in a || x == v)
    ensures a[Probe(a, v)] == 0
  {
    ProbeFinds(a, v);
    var e := Probe(a, v);
    var b := a[e := v];
    var h := Home(|a|, v);
    forall s | 0 <= s < |b| && b[s] != 0 ensures Reachable(b, s) {
      if s == e {
        StoredReachable(a, v);
      } else {
        UpdateKeepsOthers(a, e, v, s);
      }
    }
    forall x | x != 0 ensures x in b <==> x in a || x == v {
      StoredMembers(a, e, v, x);
    }
  }

  lemma StoredMembers(a: seq<nat>, e: nat, v: nat, x: nat)
    requires e < |a| && a[e] == 0 && v > 0 && x != 0
    ensures x in a[e := v] <==> x in a || x == v
  {
    var b := a[e := v];
    assert b[e] == v;
    if x in a {
      var t :| 0 <= t < |a| && a[t] == x;
      assert b[t] == x;
    }
  }

  lemma StoredReachable(a: seq<nat>, v: nat)
    requires |a| > 0 && HasFree(a) && v > 0
    ensures Reachable(a[Probe(a, v) := v], Probe(a, v))
  {
    var h, e := Home(|a|, v), Probe(a, v);
    var b := a[e := v];
    WalkStops(a, h, v);
    var w := Walk(a, h, 0, v);
    assert Dist(|a|, h, e) == w;
    forall d | 0 <= d < Dist(|b|, h, e) ensures b[Slot(|b|, h, d)] != 0 {
      assert a[Slot(|a|, h, d)] != 0;
    }
  }

  // ----- counting -----

  lemma {:induction false} NonZeroBound(a: seq<nat>)
    ensures NonZero(a) <= |a|
    ensures NonZero(a) < |a| ==> HasFree(a)
  {
    if |a| > 0 {
      var b := a[..|a|-1];
      NonZeroBound(b);
      if a[|a|-1] != 0 && NonZero(a) < |a| {
        var s :| 0 <= s < |b| && b[s] == 0;
        assert a[s] == 0;
      }
    }
  }

  lemma {:induction false} NonZeroStore(a: seq<nat>, e: nat, v: nat)
    requires e < |a| && a[e] == 0 && v > 0
    ensures NonZero(a[e := v]) == NonZero(a) + 1
  {
    var n := |a| - 1;
    if e < n {
      assert a[e := v][..n] == a[..n][e := v];
      NonZeroStore(a[..n], e, v);
    } else {
      assert a[e := v][..n] == a[..n];
    }
  }

  lemma {:induction false} NonZeroNone(a: seq<nat>)
    requires forall s :: 0 <= s < |a| ==> a[s] == 0
    ensures NonZero(a) == 0
  {
    if |a| > 0 {
      NonZeroNone(a[..|a|-1]);
    }
  }

  // ----- the rebuild of a clear -----

  function Empty(n: nat): (a: seq<nat>)
    ensures |a| == n && forall s :: 0 <= s < n ==> a[s] == 0
  {
    seq(n, i => 0)
  }

  /** The table that holds the first `k` of `values`, but for zeros and `skip`. */
  function Rebuild(values: seq<nat>, k: nat, skip: nat): (a: seq<nat>)
    requires 0 < |values| && k <= |values|
    ensures |a| == |values|
  {
    if k == 0 then Empty(|values|)
    else
      var a := Rebuild(values, k - 1, skip);
      var v := values[k-1];
      if v != 0 && v != skip then a[Probe(a, v) := v] else a
  }

  /** Number of values that the rebuild has stored after looking at the first `k`. */
  function Kept(values: seq<nat>, k: nat, skip: nat): nat
    requires k <= |values|
  {
    if k == 0 then 0
    else Kept(values, k - 1, skip) + (if values[k-1] != 0 && values[k-1] != skip then 1 else 0)
  }

  /** Rebuilding keeps exactly the other values, each once. */
  lemma {:induction false} RebuildOk(values: seq<nat>, k: nat, skip: nat)
    requires TableOk(values) && HasFree(values) && k <= |values|
    ensures var a := Rebuild(values, k, skip);
            && TableOk(a) && HasFree(a)
            && NonZero(a) == Kept(values, k, skip) <= NonZero(values[..k])
            && forall x :: x != 0 ==> (x in a <==> x in values[..k] && x != skip)
    decreases k
  {
    var a := Rebuild(values, k, skip);
    if k == 0 {
      NonZeroNone(a);
    } else {
      RebuildOk(values, k - 1, skip);
      var p := Rebuild(values, k - 1, skip);
      var v := values[k-1];
      assert values[..k][..k-1] == values[..k-1];
      assert values[..k] == values[..k-1] + [v];
      if v != 0 && v != skip {
        assert v !in values[..k-1];
        StoreOk(p, v);
        NonZeroStore(p, Probe(p, v), v);
      }
      RebuildFree(values, k, a);
    }
  }

  lemma {:induction false} NonZeroPrefix(a: seq<nat>, k: nat)
    requires k <= |a|
    ensures NonZero(a[..k]) <= NonZero(a)
    decreases |a|
  {
    if k < |a| {
      assert a[..|a|-1][..k] == a[..k];
      NonZeroPrefix(a[..|a|-1], k);
    } else {
      assert a[..k] == a;
    }
  }

  lemma {:induction false} NonZeroFree(a: seq<nat>, s: nat)
    requires s < |a| && a[s] == 0
    ensures NonZero(a) < |a|
  {
    var n := |a| - 1;
    NonZeroBound(a[..n]);
    if s < n {
      NonZeroFree(a[..n], s);
    }
  }

  lemma RebuildFree(values: seq<nat>, k: nat, a: seq<nat>)
    requires HasFree(values) && k <= |values| == |a| && NonZero(a) <= NonZero(values[..k])
    ensures HasFree(a)
  {
    var s :| 0 <= s < |values| && values[s] == 0;
    NonZeroFree(values, s);
    NonZeroPrefix(values, k);
    NonZeroBound(a);
  }
}

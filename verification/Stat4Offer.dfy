/** Offering a candidate, or a periodic row, to the sample array keeps the
    invariant: the cases of sampleInsert(), one group of lemmas each. */
module Stat4Offer {
  import opened Stat4Index
  import opened Stat4Spec
  import opened Seqs
  import opened Stat4Order
  import opened Stat4Invariant

  // ----- groups are nested -----

  lemma Nest(c: seq<nat>, r: nat, i: nat, j: nat)
    requires r < |c| && c[0] == 0 && i <= j
    ensures Start(c, r, i) <= Start(c, r, j) && End(c, r + 1, j) <= End(c, r + 1, i)
  {
  }

  /** A group is open exactly when the last row is in it. */
  lemma OpenIsCurrent(c: seq<nat>, r: nat, j: nat)
    requires r < |c| && c[0] == 0
    ensures Open(c, r, j) <==> Start(c, r, j) == Start(c, |c| - 1, j)
    ensures Open(c, r, j) <==> Start(c, |c| - 1, j) <= r
  {
    var k := |c| - 1;
    if Open(c, r, j) {
      SameGroup(c, r, k, j);
    } else {
      var e := End(c, r + 1, j);
      assert r < e <= k && c[e] <= j;
    }
  }

  /** Groups of one column with a common row are equal. */
  lemma GroupEnd(c: seq<nat>, r: nat, j: nat)
    requires r < |c| && c[0] == 0
    ensures End(c, Start(c, r, j) + 1, j) == End(c, r + 1, j)
    ensures Start(c, Start(c, r, j), j) == Start(c, r, j)
  {
    SameGroup(c, Start(c, r, j), r, j);
  }

  /** The group a sample is credited to covers the group at any later column. */
  lemma CreditCovers(p: Config, c: seq<nat>, ids: seq<Rowid>, s: Sample, i: int, j: nat)
    requires p.Valid() && SampleOk(p, c, ids, s, i) && !s.isPSample && s.iCol <= j < p.nCol
    ensures s.anEq[s.iCol] >= End(c, RowOf(p, s) + 1, j) - Start(c, RowOf(p, s), j)
  {
    assert CountOk(p, c, s, s.iCol, i);
    Nest(c, RowOf(p, s), s.iCol, j);
  }

  lemma CreditWithin(p: Config, c: seq<nat>, ids: seq<Rowid>, s: Sample, i: int, j: nat)
    requires p.Valid() && SampleOk(p, c, ids, s, i) && !s.isPSample && j <= s.iCol
    ensures s.anEq[s.iCol] <= End(c, RowOf(p, s) + 1, j) - Start(c, RowOf(p, s), j)
  {
    assert CountOk(p, c, s, s.iCol, i);
    Nest(c, RowOf(p, s), j, s.iCol);
  }

  lemma WeakenSample(p: Config, c: seq<nat>, ids: seq<Rowid>, s: Sample, i: int)
    requires SampleOk(p, c, ids, s, i)
    ensures SampleOk(p, c, ids, s, i - 1)
  {
    var i' := i - 1;
    forall j | 0 <= j < p.nCol ensures CountOk(p, c, s, j, i') {
      assert CountOk(p, c, s, j, i);
    }
  }

  lemma SameLocation(p: Config, c: seq<nat>, ids: seq<Rowid>, s: Sample, w: Sample)
    requires Located(p, c, ids, s) && w.Shaped(p.nCol)
    requires w.anLt == s.anLt && w.anDLt == s.anDLt && w.rowid == s.rowid
    ensures Located(p, c, ids, w)
  {
    forall j | 0 <= j < p.nCol ensures LocatedAt(p, c, w, j) {
      assert LocatedAt(p, c, s, j);
    }
  }

  // ----- the candidate -----

  function Candidate(s: Accum, i: nat): Sample
    requires i < |s.aBest| && i < |s.aBest[i].anEq| && i < |s.current.anEq|
  {
    s.aBest[i].(anEq := s.aBest[i].anEq[i := s.current.anEq[i]])
  }

  lemma CandidateBest(p: Config, c: seq<nat>, ids: seq<Rowid>, s: Accum, i: nat)
    requires p.Valid() && s.Shaped(p) && c != [] && i < p.nCol - 1
    requires CurrentOk(p, c, ids, s.current) && BestOk(p, c, ids, s.aBest[i], i)
    ensures var b := Candidate(s, i);
            BestOk(p, c, ids, b, i) && b.anEq[i] == |c| - Start(c, |c| - 1, i)
  {
    var b := Candidate(s, i);
    SameLocation(p, c, ids, s.aBest[i], b);
  }

  lemma CandidateCount(p: Config, c: seq<nat>, ids: seq<Rowid>, b: Sample, i: nat, j: nat)
    requires p.Valid() && c != [] && i < p.nCol - 1 && j < p.nCol
    requires BestOk(p, c, ids, b, i) && b.anEq[i] == |c| - Start(c, |c| - 1, i)
    ensures CountOk(p, c, Withhold(b, i), j, i - 1)
    ensures j >= i ==> Withhold(b, i).anEq[j] > 0
  {
    var r, w := RowOf(p, b), Withhold(b, i);
    if j > i {
      CandidateClosed(p, c, ids, b, i, j);
    } else {
      CandidateOpen(p, c, ids, b, i, j);
    }
    hide Open, Located, End, Start;
    assert w.anEq[j] == if j < i then 0 else b.anEq[j];
  }

  lemma CandidateOpen(p: Config, c: seq<nat>, ids: seq<Rowid>, b: Sample, i: nat, j: nat)
    requires p.Valid() && c != [] && j <= i && BestOk(p, c, ids, b, i)
    ensures var r := RowOf(p, b);
            Open(c, r, j) && End(c, r + 1, j) == |c| && Start(c, r, j) == Start(c, |c| - 1, j)
  {
    OpenIsCurrent(c, RowOf(p, b), i);
    Nest(c, RowOf(p, b), j, i);
    OpenIsCurrent(c, RowOf(p, b), j);
  }

  /** The candidate of column `i` was the last row of its group further right. */
  lemma CandidateClosed(p: Config, c: seq<nat>, ids: seq<Rowid>, b: Sample, i: nat, j: nat)
    requires p.Valid() && c != [] && i < j < p.nCol && BestOk(p, c, ids, b, i)
    ensures var r := RowOf(p, b); End(c, r + 1, j) == r + 1 && b.anEq[j] == r + 1 - Start(c, r, j) > 0
  {
  }

  /** The candidate, put into the sample array, satisfies the invariant there. */
  lemma CandidateOk(p: Config, c: seq<nat>, ids: seq<Rowid>, b: Sample, i: nat)
    requires p.Valid() && c != [] && i < p.nCol - 1
    requires BestOk(p, c, ids, b, i) && b.anEq[i] == |c| - Start(c, |c| - 1, i)
    ensures SampleOk(p, c, ids, Withhold(b, i), i - 1)
  {
    var w, i' := Withhold(b, i), i - 1;
    SameLocation(p, c, ids, b, w);
    forall j | 0 <= j < p.nCol ensures CountOk(p, c, w, j, i') && (j >= i ==> w.anEq[j] > 0) {
      CandidateCount(p, c, ids, b, i, j);
    }
  }

  // ----- arithmetic of preference -----

  lemma NotBetterAtLeast(nCol: nat, x: Sample, t: Sample)
    requires x.Shaped(nCol) && t.Shaped(nCol) && !Better(nCol, x, t)
    ensures AtLeast(t, x.anEq[x.iCol], x.iCol)
  {
  }

  lemma AtLeastTrans(x: Sample, y: Sample, n: int, j: nat)
    requires x.iCol < |x.anEq| && y.iCol < |y.anEq|
    requires AtLeast(x, y.anEq[y.iCol], y.iCol) && AtLeast(y, n, j)
    ensures AtLeast(x, n, j)
  {
  }

  // ----- appending a sample -----

  /** `b` is `a` with `w` added and, if `a` was full, with its victim removed. */
  ghost predicate Appended(p: Config, a: seq<Sample>, iMin: int, w: Sample, b: seq<Sample>) {
    && p.Valid() && AllShaped(a, p.nCol) && AllShaped(b, p.nCol) && w.Shaped(p.nCol)
    && (if |a| == p.mxSample then 0 <= iMin < |a| && |b| == |a| else |b| == |a| + 1)
    && w in b
    && (forall x :: x in b ==> x == w || x in a)
    && (forall x :: x in a && (|a| == p.mxSample ==> x != a[iMin]) ==> x in b)
  }

  lemma RemoveMembers(a: seq<Sample>, m: nat, w: Sample)
    requires m < |a|
    ensures var b := RemoveAt(a, m) + [w];
            && (forall x :: x in b ==> x == w || x in a)
            && (forall x :: x in a && x != a[m] ==> x in b)
  {
    var b := RemoveAt(a, m) + [w];
    assert a == a[..m] + [a[m]] + a[m+1..];
  }

  lemma AppendIs(p: Config, s: Accum, w: Sample)
    requires s.Ready(p, if w.isPSample then 1 else 0) && w.Shaped(p.nCol)
    ensures Appended(p, s.a, s.iMin, w, Append(p, s, w).a)
  {
    if |s.a| == p.mxSample {
      RemoveMembers(s.a, s.iMin, w);
    }
  }

  /** The groups that the victim stood for are represented by what is left. */
  lemma RepresentedAfterEvict(p: Config, c: seq<nat>, ids: seq<Rowid>, a: seq<Sample>, m: int,
                              w: Sample, b: seq<Sample>, i: int, g: nat, j: nat)
    requires Appended(p, a, m, w, b) && |a| == p.mxSample && MinLeast(p, a, m)
    requires c != [] && c[0] == 0 && SampleOk(p, c, ids, a[m], i)
    requires w.isPSample || AtLeast(w, a[m].anEq[a[m].iCol], a[m].iCol)
    requires g < |c| && j < p.nCol - 1
    requires StandsFor(p, c, a[m], j, g) || AtLeast(a[m], End(c, g + 1, j) - g, j)
    ensures forall q :: 0 <= q < |b| && !b[q].isPSample ==> AtLeast(b[q], End(c, g + 1, j) - g, j)
  {
    var n := End(c, g + 1, j) - g;
    var v := a[m];
    assert AtLeast(v, n, j) by {
      if StandsFor(p, c, v, j, g) {
        CreditCovers(p, c, ids, v, i, j);
        GroupEnd(c, RowOf(p, v), j);
      }
    }
    forall q | 0 <= q < |b| && !b[q].isPSample ensures AtLeast(b[q], n, j) {
      if b[q] != w {
        assert b[q] in b;
        var t :| 0 <= t < |a| && a[t] == b[q];
        NotBetterAtLeast(p.nCol, v, a[t]);
      }
      AtLeastTrans(b[q], v, n, j);
    }
  }

  /** A group stays represented when `w` comes in and the victim goes. */
  lemma RepresentedAfterAppend(p: Config, c: seq<nat>, ids: seq<Rowid>, a: seq<Sample>, m: int,
                               w: Sample, b: seq<Sample>, i: int, g: nat, j: nat)
    requires Appended(p, a, m, w, b) && MinLeast(p, a, m) && c != [] && c[0] == 0
    requires |a| == p.mxSample ==>
      SampleOk(p, c, ids, a[m], i) && (w.isPSample || AtLeast(w, a[m].anEq[a[m].iCol], a[m].iCol))
    requires forall t :: 0 <= t < |a| ==> RowOf(p, a[t]) < |c|
    requires forall t :: 0 <= t < |b| ==> RowOf(p, b[t]) < |c|
    requires g < |c| && j < p.nCol - 1 && Represented(p, c, a, g, j)
    ensures Represented(p, c, b, g, j)
  {
    if x :| x in a && StandsFor(p, c, x, j, g) && (|a| == p.mxSample ==> x != a[m]) {
      assert x in b;
    } else {
      RepresentedAfterEvict(p, c, ids, a, m, w, b, i, g, j);
    }
  }

  lemma AppendSamples(p: Config, c: seq<nat>, ids: seq<Rowid>, a: seq<Sample>, m: int, w: Sample, b: seq<Sample>, i: int)
    requires Appended(p, a, m, w, b) && SamplesOk(p, c, ids, a, i) && SampleOk(p, c, ids, w, i)
    ensures SamplesOk(p, c, ids, b, i)
  {
    forall q | 0 <= q < |b| ensures SampleOk(p, c, ids, b[q], i) {
      assert b[q] in b;
    }
  }

  lemma AppendSorted(p: Config, s: Accum, w: Sample)
    requires s.Ready(p, if w.isPSample then 1 else 0) && w.Shaped(p.nCol) && Sorted(p, s.a)
    requires forall t :: 0 <= t < |s.a| ==> RowOf(p, s.a[t]) < RowOf(p, w)
    ensures Sorted(p, Append(p, s, w).a)
  {
    var b := MakeRoom(p, s) + [w];
    assert Sorted(p, b);
  }

  lemma AppendPeriodicKept(p: Config, a: seq<Sample>, m: int, w: Sample, b: seq<Sample>, n: nat)
    requires Appended(p, a, m, w, b) && PeriodicKept(p, n, a)
    requires |a| == p.mxSample ==> !a[m].isPSample
    ensures PeriodicKept(p, n, b)
    ensures w.isPSample ==> HasPeriodic(p, b, RowOf(p, w))
  {
    forall x | 0 <= x < n && Periodic(p, x) ensures HasPeriodic(p, b, x) {
      assert HasPeriodic(p, a, x);
      var y :| y in a && y.isPSample && RowOf(p, y) == x;
      assert y in b;
    }
  }

  lemma AppendZeroBound(p: Config, a: seq<Sample>, m: int, w: Sample, b: seq<Sample>, z: nat)
    requires Appended(p, a, m, w, b) && ZeroBound(p, a, z)
    requires forall j :: z <= j < p.nCol ==> w.anEq[j] > 0
    ensures ZeroBound(p, b, z)
  {
    forall q, j | 0 <= q < |b| && z <= j < p.nCol ensures b[q].anEq[j] > 0 {
      assert b[q] in b;
    }
  }

  lemma RefindLeast(p: Config, s: Accum)
    requires p.Valid() && s.Shaped(p) && NumPeriodic(s.a) < p.mxSample
    ensures MinLeast(p, s.a, Refind(p, s).iMin)
  {
    LeastIsLeast(s.a, p.nCol, |s.a|);
  }

  // ----- upgrading a sample -----

  lemma ReplaceMembers(a: seq<Sample>, u: nat, v: Sample)
    requires u < |a|
    ensures var b := a[u := v];
            && v in b
            && (forall x :: x in b ==> x == v || x in a)
            && (forall x :: x in a && x != a[u] ==> x in b)
  {
    var b := a[u := v];
    assert b[u] == v;
    forall x | x in a && x != a[u] ensures x in b {
      var t :| 0 <= t < |a| && a[t] == x;
      assert b[t] == x;
    }
  }

  /** The upgrade target awaits no count above column `i`: otherwise a sample
      that stands for its group there would have been preferred. */
  lemma TargetComplete(p: Config, c: seq<nat>, ids: seq<Rowid>, a: seq<Sample>, u: nat, i: nat, j: nat)
    requires p.Valid() && c != [] && SamplesOk(p, c, ids, a, i) && u < |a| && i < j < p.nCol - 1
    requires c[0] == 0 && !Blocked(a, p.nCol, i) && Upgradable(a, p.nCol, i, 0) == Some(u)
    requires Handled(p, c, a, j)
    ensures a[u].anEq[j] > 0
  {
    var v := a[u];
    var k := |c| - 1;
    if v.anEq[j] == 0 {
      assert !v.isPSample;
      assert v in a && Awaits(a, p.nCol, j);
      var x :| x in a && StandsFor(p, c, x, j, Start(c, k, j));
      var t :| 0 <= t < |a| && a[t] == x;
      RivalBetter(p, c, ids, x, v, i, j);
      UpgradableIsBest(a, p.nCol, i, 0);
      assert false;
    }
  }

  /** A sample that stands for the open group at `j` awaits the count at `i` too, and
      is better than one whose count at `j` is withheld. */
  lemma RivalBetter(p: Config, c: seq<nat>, ids: seq<Rowid>, x: Sample, v: Sample, i: nat, j: nat)
    requires p.Valid() && c != [] && c[0] == 0 && i < j < p.nCol - 1
    requires SampleOk(p, c, ids, x, i) && SampleOk(p, c, ids, v, i) && !v.isPSample
    requires StandsFor(p, c, x, j, Start(c, |c| - 1, j)) && v.anEq[j] == 0
    ensures x.anEq[i] == 0 && (!x.isPSample ==> Better(p.nCol, x, v))
  {
    OpenIsCurrent(c, RowOf(p, x), j);
    Nest(c, RowOf(p, x), i, j);
    assert CountOk(p, c, x, i, i);
    if !x.isPSample {
      CreditCovers(p, c, ids, x, i, j);
    }
    assert CountOk(p, c, v, j, i);
    OpenIsCurrent(c, RowOf(p, v), j);
    CreditWithin(p, c, ids, v, i, j);
  }

  lemma UpgradedOk(p: Config, c: seq<nat>, ids: seq<Rowid>, v: Sample, b: Sample, i: nat)
    requires p.Valid() && c != [] && i < p.nCol - 1 && SampleOk(p, c, ids, v, i)
    requires !v.isPSample && v.anEq[i] == 0 && forall j :: i < j < p.nCol ==> v.anEq[j] > 0
    requires b.Shaped(p.nCol) && b.iCol == i && b.anEq[i] == |c| - Start(c, |c| - 1, i)
    ensures i < v.iCol && SampleOk(p, c, ids, Upgrade(v, b), i - 1)
  {
    var w, i' := Upgrade(v, b), i - 1;
    assert CountOk(p, c, v, i, i);
    OpenIsCurrent(c, RowOf(p, v), i);
    SameLocation(p, c, ids, v, w);
    forall j | 0 <= j < p.nCol ensures CountOk(p, c, w, j, i') {
      UpgradedCount(p, c, v, w, i, j);
    }
  }

  lemma UpgradedCount(p: Config, c: seq<nat>, v: Sample, w: Sample, i: nat, j: nat)
    requires p.Valid() && c != [] && c[0] == 0 && v.Shaped(p.nCol) && w.Shaped(p.nCol) && j < p.nCol
    requires RowOf(p, v) == RowOf(p, w) < |c| && CountOk(p, c, v, j, i)
    requires if j == i then w.anEq[i] == |c| - Start(c, |c| - 1, i) > 0 && Open(c, RowOf(p, v), i) else w.anEq[j] == v.anEq[j]
    ensures CountOk(p, c, w, j, i - 1)
  {
    if j == i {
      OpenIsCurrent(c, RowOf(p, v), i);
    }
  }

  lemma RepresentedAfterUpgrade(p: Config, c: seq<nat>, a: seq<Sample>, u: nat, v: Sample, g: nat, j: nat)
    requires p.Valid() && AllShaped(a, p.nCol) && c != [] && c[0] == 0 && u < |a| && v.Shaped(p.nCol)
    requires !a[u].isPSample && !v.isPSample && RowOf(p, v) == RowOf(p, a[u])
    requires AtLeast(v, a[u].anEq[a[u].iCol], a[u].iCol) && v.iCol <= a[u].iCol
    requires forall t :: 0 <= t < |a| ==> RowOf(p, a[t]) < |c|
    requires g < |c| && j < p.nCol - 1 && Represented(p, c, a, g, j)
    ensures Represented(p, c, a[u := v], g, j)
  {
    var b := a[u := v];
    var n := End(c, g + 1, j) - g;
    ReplaceMembers(a, u, v);
    if x :| x in a && StandsFor(p, c, x, j, g) {
      if x == a[u] {
        assert StandsFor(p, c, v, j, g);
      } else {
        assert x in b;
      }
    } else {
      forall t | 0 <= t < |b| && !b[t].isPSample ensures AtLeast(b[t], n, j) {
        if t == u {
          AtLeastTrans(v, a[u], n, j);
        } else {
          assert b[t] == a[t];
        }
      }
    }
  }

  lemma HandledAfterUpgrade(p: Config, c: seq<nat>, a: seq<Sample>, u: nat, v: Sample, j: nat)
    requires p.Valid() && AllShaped(a, p.nCol) && c != [] && c[0] == 0 && u < |a| && v.Shaped(p.nCol)
    requires !a[u].isPSample && !v.isPSample && RowOf(p, v) == RowOf(p, a[u]) && v.iCol <= a[u].iCol
    requires forall t :: 0 <= t < |a| ==> RowOf(p, a[t]) < |c|
    requires j < p.nCol && Handled(p, c, a, j) && (v.anEq[j] == 0 ==> a[u].anEq[j] == 0)
    ensures Handled(p, c, a[u := v], j)
  {
    var b := a[u := v];
    ReplaceMembers(a, u, v);
    if Awaits(b, p.nCol, j) {
      var y :| y in b && !y.isPSample && y.anEq[j] == 0;
      assert (if y == v then a[u] else y) in a;
      assert Awaits(a, p.nCol, j);
      var x :| x in a && StandsFor(p, c, x, j, Start(c, |c| - 1, j));
      if x == a[u] {
        assert StandsFor(p, c, v, j, Start(c, |c| - 1, j));
      } else {
        assert x in b;
      }
    }
  }

  lemma UpgradePeriodicKept(p: Config, a: seq<Sample>, u: nat, v: Sample, n: nat)
    requires p.Valid() && AllShaped(a, p.nCol) && u < |a| && v.Shaped(p.nCol)
    requires !a[u].isPSample && PeriodicKept(p, n, a)
    ensures PeriodicKept(p, n, a[u := v])
  {
    var b := a[u := v];
    ReplaceMembers(a, u, v);
    forall x | 0 <= x < n && Periodic(p, x) ensures HasPeriodic(p, b, x) {
      assert HasPeriodic(p, a, x);
      var y :| y in a && y.isPSample && RowOf(p, y) == x;
      assert y in b;
    }
  }
}

/** Closing groups: the flush at the end of samplePushPrevious() turns the
    invariant for the rows so far into the one that counts the next row in. */
module Stat4Fill {
  import opened Stat4Index
  import opened Stat4Spec
  import opened Stat4Invariant
  import opened Stat4Offer

  lemma Extend(c: seq<nat>, x: nat, r: nat, j: nat)
    requires r < |c| && c[0] == 0
    ensures Start(c + [x], r, j) == Start(c, r, j)
    ensures GroupNo(c + [x], r, j) == GroupNo(c, r, j)
    ensures End(c + [x], r + 1, j)
            == if Open(c, r, j) && x > j then |c| + 1 else End(c, r + 1, j)
  {
    var d := c + [x];
    GroupNoExtend(c, x, r, j);
    var s, t := Start(c, r, j), Start(d, r, j);
    assert c[t] == d[t] && c[s] == d[s];
    var e, f := End(c, r + 1, j), End(d, r + 1, j);
    if f < |c| {
      assert c[f] == d[f];
    }
    if e < |c| {
      assert c[e] == d[e];
    } else {
      assert d[|c|] == x;
    }
  }

  lemma ExtendLocated(p: Config, c: seq<nat>, ids: seq<Rowid>, x: nat, id: Rowid, s: Sample)
    requires Located(p, c, ids, s) && x < p.nCol
    ensures Located(p, c + [x], ids + [id], s)
  {
    forall j | 0 <= j < p.nCol ensures LocatedAt(p, c + [x], s, j) {
      assert LocatedAt(p, c, s, j);
      Extend(c, x, RowOf(p, s), j);
    }
  }

  lemma FilledCount(p: Config, c: seq<nat>, ids: seq<Rowid>, x: nat, s: Sample, cur: Sample, j: nat)
    requires SampleOk(p, c, ids, s, x - 1) && CurrentOk(p, c, ids, cur)
    requires x < p.nCol && j < p.nCol
    ensures CountOk(p, c + [x], FillSample(s, cur, x), j, p.nCol - 2)
  {
    var r := RowOf(p, s);
    assert CountOk(p, c, s, j, x - 1);
    Extend(c, x, r, j);
    OpenIsCurrent(c, r, j);
  }

  lemma FilledSample(p: Config, c: seq<nat>, ids: seq<Rowid>, x: nat, id: Rowid, s: Sample, cur: Sample)
    requires SampleOk(p, c, ids, s, x - 1) && CurrentOk(p, c, ids, cur) && x < p.nCol
    ensures SampleOk(p, c + [x], ids + [id], FillSample(s, cur, x), p.nCol - 2)
  {
    var f, d, i := FillSample(s, cur, x), c + [x], p.nCol - 2;
    ExtendLocated(p, c, ids, x, id, s);
    SameLocation(p, d, ids + [id], s, f);
    forall j | 0 <= j < p.nCol ensures CountOk(p, d, f, j, i) {
      FilledCount(p, c, ids, x, s, cur, j);
    }
  }

  /** Filling in counts does not change which of two samples is preferred. */
  lemma {:induction false} FillPost(nCol: nat, s: Sample, t: Sample, f: Sample, g: Sample, i: nat)
    requires s.Shaped(nCol) && t.Shaped(nCol) && f.Shaped(nCol) && g.Shaped(nCol) && i <= nCol
    requires f.iHash == s.iHash && g.iHash == t.iHash
    requires forall j :: i <= j < nCol ==> f.anEq[j] == s.anEq[j] && g.anEq[j] == t.anEq[j]
    ensures BetterPost(nCol, f, g, i) == BetterPost(nCol, s, t, i)
    decreases nCol - i
  {
    if i < nCol {
      FillPost(nCol, s, t, f, g, i + 1);
    }
  }

  lemma FillBetter(p: Config, s: Sample, t: Sample, cur: Sample, x: nat)
    requires p.Valid() && s.Shaped(p.nCol) && t.Shaped(p.nCol) && cur.Shaped(p.nCol)
    requires RoleOk(p, s) && RoleOk(p, t) && !s.isPSample && !t.isPSample
    ensures Better(p.nCol, FillSample(s, cur, x), FillSample(t, cur, x)) == Better(p.nCol, s, t)
  {
    var f, g := FillSample(s, cur, x), FillSample(t, cur, x);
    if s.iCol == t.iCol {
      FillPost(p.nCol, s, t, f, g, s.iCol + 1);
    }
  }

  lemma FillEach(p: Config, s: Accum, x: nat)
    requires s.Ready(p, 0) && ZeroBound(p, s.a, s.nMaxEqZero)
    ensures var r := Fill(p, s, x);
            && |r.a| == |s.a|
            && (forall t :: 0 <= t < |s.a| ==> r.a[t] == FillSample(s.a[t], s.current, x))
            && r.nMaxEqZero <= x
            && r.iMin == s.iMin
  {
    if x >= s.nMaxEqZero {
      forall t | 0 <= t < |s.a| ensures s.a[t] == FillSample(s.a[t], s.current, x) {
        assert s.a[t].anEq == FillSample(s.a[t], s.current, x).anEq;
      }
    }
  }

  /** `b` is the array `a` with the counts at columns x.. filled in. */
  ghost predicate Filled(p: Config, a: seq<Sample>, cur: Sample, x: nat, b: seq<Sample>) {
    && p.Valid() && AllShaped(a, p.nCol) && AllShaped(b, p.nCol) && cur.Shaped(p.nCol)
    && |b| == |a| && forall t :: 0 <= t < |a| ==> b[t] == FillSample(a[t], cur, x)
  }

  lemma FillSamples(p: Config, c: seq<nat>, ids: seq<Rowid>, x: nat, id: Rowid, a: seq<Sample>, cur: Sample, b: seq<Sample>)
    requires Filled(p, a, cur, x, b) && SamplesOk(p, c, ids, a, x - 1) && CurrentOk(p, c, ids, cur) && x < p.nCol
    requires Sorted(p, a)
    ensures SamplesOk(p, c + [x], ids + [id], b, p.nCol - 2) && Sorted(p, b) && ZeroBound(p, b, x)
  {
    var i := p.nCol - 2;
    forall t | 0 <= t < |b| ensures SampleOk(p, c + [x], ids + [id], b[t], i) {
      FilledSample(p, c, ids, x, id, a[t], cur);
    }
    forall t, j | 0 <= t < |b| && x <= j < p.nCol ensures b[t].anEq[j] > 0 {
      assert b[t] == FillSample(a[t], cur, x);
    }
    forall t | 0 <= t < |b| ensures RowOf(p, b[t]) == RowOf(p, a[t]) {
    }
  }

  lemma FillMin(p: Config, a: seq<Sample>, cur: Sample, x: nat, b: seq<Sample>, m: int)
    requires Filled(p, a, cur, x, b) && MinLeast(p, a, m)
    requires forall t :: 0 <= t < |a| ==> RoleOk(p, a[t])
    ensures MinLeast(p, b, m)
  {
    if |b| == p.mxSample {
      forall t | 0 <= t < |b| && !b[t].isPSample ensures !Better(p.nCol, b[m], b[t]) {
        FillBetter(p, a[m], a[t], cur, x);
      }
    }
  }

  lemma FillPeriodic(p: Config, a: seq<Sample>, cur: Sample, x: nat, b: seq<Sample>, n: nat)
    requires Filled(p, a, cur, x, b) && PeriodicKept(p, n, a)
    ensures PeriodicKept(p, n, b)
  {
    forall r | 0 <= r < n && Periodic(p, r) ensures HasPeriodic(p, b, r) {
      assert HasPeriodic(p, a, r);
      var y :| y in a && y.isPSample && RowOf(p, y) == r;
      var t :| 0 <= t < |a| && a[t] == y;
      assert b[t] in b && b[t] == FillSample(y, cur, x);
    }
  }

  lemma FillRepresented(p: Config, c: seq<nat>, ids: seq<Rowid>, x: nat, a: seq<Sample>, cur: Sample, b: seq<Sample>, g: nat, j: nat)
    requires Filled(p, a, cur, x, b) && SamplesOk(p, c, ids, a, x - 1) && x < p.nCol && c != [] && c[0] == 0
    requires g < |c| && j < p.nCol - 1 && Represented(p, c, a, g, j) && (!Open(c, g, j) || j >= x)
    requires forall t :: 0 <= t < |b| ==> RowOf(p, b[t]) < |c|
    ensures Represented(p, c + [x], b, g, j)
  {
    var d := c + [x];
    Extend(c, x, g, j);
    if y :| y in a && StandsFor(p, c, y, j, g) {
      var t :| 0 <= t < |a| && a[t] == y;
      Extend(c, x, RowOf(p, y), j);
      assert b[t] in b && b[t] == FillSample(y, cur, x);
      assert StandsFor(p, d, b[t], j, g);
    } else {
      forall t | 0 <= t < |b| && !b[t].isPSample ensures AtLeast(b[t], End(d, g + 1, j) - g, j) {
        assert b[t] == FillSample(a[t], cur, x);
        assert RoleOk(p, a[t]);
      }
    }
  }

  lemma FillAllRepresented(p: Config, c: seq<nat>, ids: seq<Rowid>, x: nat, a: seq<Sample>, cur: Sample, b: seq<Sample>)
    requires Filled(p, a, cur, x, b) && SamplesOk(p, c, ids, a, x - 1) && x < p.nCol && c != [] && c[0] == 0
    requires AllRepresented(p, c, a, x - 1)
    requires forall t :: 0 <= t < |b| ==> RowOf(p, b[t]) < |c|
    ensures AllRepresented(p, c + [x], b, p.nCol - 2)
  {
    var d := c + [x];
    forall g, j | 0 <= g < |d| && 0 <= j < p.nCol - 1 && d[g] <= j && (!Open(d, g, j) || j > p.nCol - 2)
      ensures Represented(p, d, b, g, j)
    {
      assert g < |c|;
      Extend(c, x, g, j);
      assert Represented(p, c, a, g, j);
      FillRepresented(p, c, ids, x, a, cur, b, g, j);
    }
  }

  /** The groups that end before a row with change column `x` have been dealt
      with; the array now satisfies the invariant for the scan with that row. */
  lemma FillKeeps(p: Config, c: seq<nat>, ids: seq<Rowid>, s: Accum, x: nat, id: Rowid)
    requires s.Ready(p, 0) && Inv(p, c, ids, s, x - 1) && x < p.nCol
    ensures ArrayInv(p, c + [x], ids + [id], Fill(p, s, x), |c|, p.nCol - 2)
    ensures forall t :: 0 <= t < |Fill(p, s, x).a| ==> RowOf(p, Fill(p, s, x).a[t]) < |c|
  {
    var r := Fill(p, s, x);
    FillEach(p, s, x);
    FillSamples(p, c, ids, x, id, s.a, s.current, r.a);
    FillMin(p, s.a, s.current, x, r.a, s.iMin);
    FillPeriodic(p, s.a, s.current, x, r.a, |c|);
    FillAllRepresented(p, c, ids, x, s.a, s.current, r.a);
    assert ZeroBound(p, r.a, r.nMaxEqZero) by {
      if x >= s.nMaxEqZero {
        assert r.a == s.a;
      }
    }
  }
}

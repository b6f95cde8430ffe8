/** Whole scans: what stat_push() for every row, and the final flush of
    stat_get(), leave in the accumulator. */
module Stat4Run {
  import opened Arithmetic
  import opened Stat4Index
  import opened Stat4Spec
  import opened Stat4Invariant
  import opened Stat4Offer
  import opened Stat4Push
  import opened Stat4Fill

  // ----- one push -----

  lemma FirstCurrent(p: Config, s: Accum, id: Rowid)
    requires p.Valid() && s.nRow == 0 && s.Shaped(p) && !s.current.isPSample
    requires s.current.anLt == Zeros(p.nCol) && s.current.anDLt == Zeros(p.nCol)
    ensures CurrentOk(p, [0], [id], Count(s, 0, id).current)
  {
    var c, cur := [0], Count(s, 0, id).current;
    assert cur.Shaped(p.nCol);
    forall j | 0 <= j < p.nCol ensures LocatedAt(p, c, cur, j) {
    }
  }

  /** The last row of the extended scan, group by group. */
  lemma LastRow(c: seq<nat>, x: nat, j: nat)
    requires c != [] && c[0] == 0
    ensures Start(c + [x], |c|, j) == if x <= j then |c| else Start(c, |c| - 1, j)
    ensures GroupNo(c + [x], |c|, j) == GroupNo(c, |c| - 1, j) + (if x <= j then 1 else 0)
  {
    assert (c + [x])[|c|] == x;
    Extend(c, x, |c| - 1, j);
  }

  lemma NextColumn(p: Config, c: seq<nat>, ids: seq<Rowid>, s: Accum, x: nat, id: Rowid, j: nat)
    requires c != [] && s.nRow == |c| && s.Shaped(p) && CurrentOk(p, c, ids, s.current) && x < p.nCol && j < p.nCol
    ensures var cur := Count(s, x, id).current;
            && cur.Shaped(p.nCol) && (j == p.nCol - 1 ==> cur.anLt[j] == |c|)
            && cur.anLt[j] == Start(c + [x], |c|, j) && cur.anDLt[j] == GroupNo(c + [x], |c|, j)
            && cur.anEq[j] == |c| + 1 - Start(c + [x], |c|, j)
  {
    LastRow(c, x, j);
    assert LocatedAt(p, c, s.current, j);
  }

  lemma NextCurrent(p: Config, c: seq<nat>, ids: seq<Rowid>, s: Accum, x: nat, id: Rowid)
    requires c != [] && s.nRow == |c| && s.Shaped(p) && CurrentOk(p, c, ids, s.current) && x < p.nCol
    ensures CurrentOk(p, c + [x], ids + [id], Count(s, x, id).current)
  {
    var d, cur := c + [x], Count(s, x, id).current;
    NextColumn(p, c, ids, s, x, id, p.nCol - 1);
    forall j | 0 <= j < p.nCol
      ensures LocatedAt(p, d, cur, j) && cur.anEq[j] == |d| - Start(d, |d| - 1, j)
    {
      NextColumn(p, c, ids, s, x, id, j);
    }
  }

  /** The new row, as a periodic sample with all but its own count withheld. */
  lemma PeriodicSampleOk(p: Config, c: seq<nat>, ids: seq<Rowid>, cur: Sample)
    requires c != [] && CurrentOk(p, c, ids, cur) && Periodic(p, |c| - 1)
    ensures var w := Withhold(cur.(isPSample := true, iCol := 0), p.nCol - 1);
            SampleOk(p, c, ids, w, p.nCol - 2) && w.anEq[p.nCol-1] > 0
  {
    var w, i, k := Withhold(cur.(isPSample := true, iCol := 0), p.nCol - 1), p.nCol - 2, |c| - 1;
    SameLocation(p, c, ids, cur, w);
    forall j | 0 <= j < p.nCol ensures CountOk(p, c, w, j, i) {
      assert End(c, k + 1, j) == |c|;
      if j == p.nCol - 1 {
        assert w.anEq[j] == cur.anEq[j];
      }
    }
  }

  lemma PeriodicGroups(p: Config, c: seq<nat>, ids: seq<Rowid>, a: seq<Sample>, m: int, w: Sample, r: seq<Sample>, i: int)
    requires Appended(p, a, m, w, r) && c != [] && c[0] == 0 && w.isPSample && i == p.nCol - 2
    requires SamplesOk(p, c, ids, a, i) && MinLeast(p, a, m) && AllRepresented(p, c, a, i)
    requires forall t :: 0 <= t < |r| ==> RowOf(p, r[t]) < |c|
    ensures AllRepresented(p, c, r, i)
  {
    forall g, j | 0 <= g < |c| && 0 <= j < p.nCol - 1 && c[g] <= j && (!Open(c, g, j) || j > i)
      ensures Represented(p, c, r, g, j)
    {
      assert Represented(p, c, a, g, j);
      RepresentedAfterAppend(p, c, ids, a, m, w, r, i, g, j);
    }
  }

  lemma PeriodicAppendKeeps(p: Config, c: seq<nat>, ids: seq<Rowid>, s: Accum, w: Sample)
    requires c != [] && s.Ready(p, 1) && w.isPSample && SampleOk(p, c, ids, w, p.nCol - 2)
    requires RowOf(p, w) == |c| - 1
    requires ArrayInv(p, c, ids, s, |c| - 1, p.nCol - 2)
    requires forall t :: 0 <= t < |s.a| ==> RowOf(p, s.a[t]) < |c| - 1
    requires forall j :: s.nMaxEqZero <= j < p.nCol ==> w.anEq[j] > 0
    ensures ArrayInv(p, c, ids, Append(p, s, w), |c|, p.nCol - 2)
  {
    var r := Append(p, s, w).a;
    var i := p.nCol - 2;
    AppendIs(p, s, w);
    AppendSamples(p, c, ids, s.a, s.iMin, w, r, i);
    AppendSorted(p, s, w);
    AppendPeriodicKept(p, s.a, s.iMin, w, r, |c| - 1);
    assert HasPeriodic(p, r, |c| - 1);
    AppendZeroBound(p, s.a, s.iMin, w, r, s.nMaxEqZero);
    NumPeriodicConcat(MakeRoom(p, s), [w]);
    RefindLeast(p, s.(a := r));
    PeriodicGroups(p, c, ids, s.a, s.iMin, w, r, i);
  }

  lemma NotPeriodicKeeps(p: Config, c: seq<nat>, ids: seq<Rowid>, s: Accum, n: nat)
    requires p.Valid() && ArrayInv(p, c, ids, s, n, p.nCol - 2) && !Periodic(p, n)
    ensures ArrayInv(p, c, ids, s, n + 1, p.nCol - 2)
  {
  }

  lemma AddPeriodicIs(p: Config, s: Accum)
    requires p.Valid() && s.Ready(p, 1) && Periodic(p, s.current.anLt[p.nCol-1])
    ensures var z := s.(nMaxEqZero := if p.nCol - 1 > s.nMaxEqZero then p.nCol - 1 else s.nMaxEqZero);
            var w := Withhold(s.current.(isPSample := true, iCol := 0), p.nCol - 1);
            z.Ready(p, 1) && w.Shaped(p.nCol)
            && AddPeriodic(p, s) == Append(p, z, w).(current := s.current.(iCol := 0))
  {
  }

  lemma PeriodicKeeps(p: Config, c: seq<nat>, ids: seq<Rowid>, s: Accum)
    requires c != [] && s.Ready(p, 1) && CurrentOk(p, c, ids, s.current) && Periodic(p, |c| - 1)
    requires ArrayInv(p, c, ids, s, |c| - 1, p.nCol - 2)
    requires forall t :: 0 <= t < |s.a| ==> RowOf(p, s.a[t]) < |c| - 1
    ensures ArrayInv(p, c, ids, AddPeriodic(p, s), |c|, p.nCol - 2)
  {
    hide ArrayInv, AddPeriodic, Append, Insert;
    var z := s.(nMaxEqZero := if p.nCol - 1 > s.nMaxEqZero then p.nCol - 1 else s.nMaxEqZero);
    var w := Withhold(s.current.(isPSample := true, iCol := 0), p.nCol - 1);
    AddPeriodicIs(p, s);
    ArrayInvFrame(p, c, ids, s, z, |c| - 1, p.nCol - 2);
    PeriodicSampleOk(p, c, ids, s.current);
    PeriodicAppendKeeps(p, c, ids, z, w);
    var r := Append(p, z, w);
    ArrayInvFrame(p, c, ids, r, r.(current := s.current.(iCol := 0)), |c|, p.nCol - 2);
  }

  lemma AddPeriodicKeeps(p: Config, c: seq<nat>, ids: seq<Rowid>, s: Accum)
    requires c != [] && p.Valid() && s.Ready(p, if Periodic(p, |c| - 1) then 1 else 0)
    requires CurrentOk(p, c, ids, s.current)
    requires ArrayInv(p, c, ids, s, |c| - 1, p.nCol - 2)
    requires forall t :: 0 <= t < |s.a| ==> RowOf(p, s.a[t]) < |c| - 1
    ensures ArrayInv(p, c, ids, AddPeriodic(p, s), |c|, p.nCol - 2)
  {
    if Periodic(p, |c| - 1) {
      PeriodicKeeps(p, c, ids, s);
    } else {
      NotPeriodicKeeps(p, c, ids, s, |c| - 1);
    }
  }

  /** While the group at column i+1 lasts, every new row beats the candidate. */
  lemma LongerWins(p: Config, c: seq<nat>, ids: seq<Rowid>, x: nat, id: Rowid, b: Sample, cur: Sample, i: nat)
    requires c != [] && BestOk(p, c, ids, b, i) && i + 1 < x < p.nCol && RowOf(p, b) == |c| - 1
    requires CurrentOk(p, c + [x], ids + [id], cur) && cur.iCol == i
    ensures BetterPost(p.nCol, cur, b, i + 1)
  {
    LastRow(c, x, i + 1);
    assert cur.anEq[i+1] == b.anEq[i+1] + 1;
  }

  /** A candidate that is not replaced was the last row of its group. */
  lemma CandidateSurvives(p: Config, c: seq<nat>, ids: seq<Rowid>, x: nat, id: Rowid, b: Sample, cur: Sample, i: nat)
    requires c != [] && BestOk(p, c, ids, b, i) && x < p.nCol && i < x
    requires CurrentOk(p, c + [x], ids + [id], cur) && cur.iCol == i
    requires !BetterPost(p.nCol, cur, b, i + 1)
    ensures BestOk(p, c + [x], ids + [id], b, i)
  {
    hide CurrentOk, BetterPost;
    var d, r := c + [x], RowOf(p, b);
    ExtendLocated(p, c, ids, x, id, b);
    Extend(c, x, r, i);
    LastRow(c, x, i);
    forall m | i < m < p.nCol ensures b.anEq[m] == r + 1 - Start(d, r, m) {
      Extend(c, x, r, m);
    }
    if r + 1 < |c| {
      assert d[r+1] == c[r+1];
    } else if x > i + 1 {
      LongerWins(p, c, ids, x, id, b, cur, i);
    }
  }

  lemma NewCandidate(p: Config, c: seq<nat>, ids: seq<Rowid>, cur: Sample, i: nat)
    requires c != [] && CurrentOk(p, c, ids, cur) && i < p.nCol - 1
    ensures BestOk(p, c, ids, cur.(iCol := i), i)
  {
    SameLocation(p, c, ids, cur, cur.(iCol := i));
  }

  lemma CompeteKeeps(p: Config, c: seq<nat>, ids: seq<Rowid>, s: Accum, x: nat, id: Rowid)
    requires s.Ready(p, 0) && x < p.nCol && CurrentOk(p, c + [x], ids + [id], s.current)
    requires c == [] ==> x == 0
    requires c != [] ==> BestsOk(p, c, ids, s.aBest)
    ensures BestsOk(p, c + [x], ids + [id], Compete(p, s.aBest, s.current, x, p.nCol - 1))
  {
    var d, ids' := c + [x], ids + [id];
    var r := Compete(p, s.aBest, s.current, x, p.nCol - 1);
    forall b | 0 <= b < p.nCol - 1 ensures BestOk(p, d, ids', r[b], b) {
      var cand := s.current.(iCol := b);
      NewCandidate(p, d, ids', s.current, b);
      if b < x && !BetterPost(p.nCol, cand, s.aBest[b], b + 1) {
        assert BestOk(p, d, ids', cand, b);
        SameLocation(p, d, ids', s.current, cand);
        CandidateSurvives(p, c, ids, x, id, s.aBest[b], cand, b);
      }
    }
  }

  lemma UpdateBestKeeps(p: Config, c: seq<nat>, ids: seq<Rowid>, s: Accum, x: nat, id: Rowid)
    requires s.Ready(p, 0) && !s.current.isPSample && x < p.nCol && (c == [] ==> x == 0) && s.nRow == |c| + 1
    requires CurrentOk(p, c + [x], ids + [id], s.current)
    requires ArrayInv(p, c + [x], ids + [id], s, |c| + 1, p.nCol - 2)
    requires c != [] ==> BestsOk(p, c, ids, s.aBest)
    ensures Inv(p, c + [x], ids + [id], UpdateBest(p, s, x), p.nCol - 2)
  {
    hide ArrayInv, BestsOk, CurrentOk, Compete;
    var d, ids' := c + [x], ids + [id];
    CompeteKeeps(p, c, ids, s, x, id);
    var r := UpdateBest(p, s, x);
    ArrayInvFrame(p, d, ids', s, r, |d|, p.nCol - 2);
    CurrentColumn(p, d, ids', s.current, r.current.iCol);
  }

  lemma FinishPush(p: Config, c: seq<nat>, ids: seq<Rowid>, s: Accum, x: nat, id: Rowid)
    requires p.Valid() && s.Ready(p, if Periodic(p, |c|) then 1 else 0)
    requires x < p.nCol && (c == [] ==> x == 0) && s.nRow == |c| + 1
    requires CurrentOk(p, c + [x], ids + [id], s.current)
    requires ArrayInv(p, c + [x], ids + [id], s, |c|, p.nCol - 2)
    requires forall t :: 0 <= t < |s.a| ==> RowOf(p, s.a[t]) < |c|
    requires c != [] ==> BestsOk(p, c, ids, s.aBest)
    ensures Inv(p, c + [x], ids + [id], UpdateBest(p, AddPeriodic(p, s), x), p.nCol - 2)
  {
    hide ArrayInv, AddPeriodic, UpdateBest;
    var d, ids' := c + [x], ids + [id];
    var a := AddPeriodic(p, s);
    AddPeriodicKeeps(p, d, ids', s);
    CurrentColumn(p, d, ids', s.current, a.current.iCol);
    UpdateBestKeeps(p, c, ids, a, x, id);
  }

  lemma CurrentColumn(p: Config, c: seq<nat>, ids: seq<Rowid>, cur: Sample, i: nat)
    requires CurrentOk(p, c, ids, cur) && i < p.nCol
    ensures CurrentOk(p, c, ids, cur.(iCol := i))
  {
    SameLocation(p, c, ids, cur, cur.(iCol := i));
  }

  lemma EmptyArray(p: Config, id: Rowid, s: Accum)
    requires p.Valid() && s.Shaped(p) && s.a == []
    ensures ArrayInv(p, [0], [id], s, 0, p.nCol - 2)
  {
  }

  /** One stat_push() keeps the invariant. */
  lemma PushKeeps(p: Config, c: seq<nat>, ids: seq<Rowid>, s: Accum, x: nat, id: Rowid)
    requires CanPush(p, s, x) && |c| == |ids| && x < p.nCol
    requires c == [] ==> x == 0 && s.nRow == 0 && s.a == []
    requires c == [] ==> s.current.anLt == Zeros(p.nCol) && s.current.anDLt == Zeros(p.nCol)
    requires c != [] ==> Inv(p, c, ids, s, p.nCol - 2)
    ensures Inv(p, c + [x], ids + [id], Push(p, s, x, id), p.nCol - 2)
    ensures Advance(s.current, s.nRow, x).anLt[p.nCol-1] == |c|
  {
    hide ArrayInv, CurrentOk, BestsOk, AddPeriodic, UpdateBest, OfferAll, Fill;
    if c == [] {
      assert c + [x] == [0] && ids + [id] == [id];
      FirstCurrent(p, s, id);
      EmptyArray(p, id, Count(s, x, id));
      FinishPush(p, c, ids, Count(s, x, id), x, id);
    } else {
      OfferAllKeeps(p, c, ids, s, p.nCol - 2, x);
      var o := OfferAll(p, s, p.nCol - 2, x);
      FillKeeps(p, c, ids, o, x, id);
      var f := Fill(p, o, x);
      assert f == PushPrevious(p, s, x);
      NextColumn(p, c, ids, s, x, id, p.nCol - 1);
      FlushedPush(p, c, ids, s, f, x, id);
    }
  }

  lemma FlushedPush(p: Config, c: seq<nat>, ids: seq<Rowid>, s: Accum, f: Accum, x: nat, id: Rowid)
    requires c != [] && CanPush(p, s, x) && x < p.nCol && Inv(p, c, ids, s, p.nCol - 2)
    requires f == PushPrevious(p, s, x) && BestsOk(p, c, ids, f.aBest)
    requires ArrayInv(p, c + [x], ids + [id], f, |c|, p.nCol - 2)
    requires forall t :: 0 <= t < |f.a| ==> RowOf(p, f.a[t]) < |c|
    ensures Inv(p, c + [x], ids + [id], Push(p, s, x, id), p.nCol - 2)
  {
    hide ArrayInv, CurrentOk, BestsOk, AddPeriodic, UpdateBest, PushPrevious;
    var n := Count(f, x, id);
    NextCurrent(p, c, ids, f, x, id);
    NextColumn(p, c, ids, s, x, id, p.nCol - 1);
    ArrayInvFrame(p, c + [x], ids + [id], f, n, |c|, p.nCol - 2);
    FinishPush(p, c, ids, n, x, id);
  }

  // ----- a whole scan -----

  /** Number of periodic rows among the first `n`. */
  lemma PeriodicStep(p: Config, n: nat)
    requires p.Valid()
    ensures (n + 1) / p.nPSample == n / p.nPSample + (if Periodic(p, n) then 1 else 0)
  {
    var d := p.nPSample;
    var q, r := n / d, n % d;
    if r + 1 == d {
      assert (q + 1) * d == q * d + d;
      DivUnique(n + 1, d, q + 1, 0);
    } else {
      DivUnique(n + 1, d, q, r + 1);
    }
  }

  lemma PeriodicMonotone(p: Config, m: nat, n: nat)
    requires p.Valid() && m <= n
    ensures m / p.nPSample <= n / p.nPSample
    decreases n - m
  {
    if m < n {
      PeriodicMonotone(p, m, n - 1);
      PeriodicStep(p, n - 1);
    }
  }

  /** The last column numbers the rows: the current row is row n-1. */
  predicate LastColumn(p: Config, n: nat, s: Accum) {
    && s.Ready(p, 0) && !s.current.isPSample && s.nRow == n
    && NumPeriodic(s.a) == n / p.nPSample
    && var j := p.nCol - 1;
       if n == 0 then s.current.anLt[j] == 0 else s.current.anLt[j] == n - 1 && s.current.anEq[j] == 1
  }

  lemma EmptyLast(p: Config, seed: nat)
    requires p.Valid()
    ensures LastColumn(p, 0, Empty(p, seed))
  {
  }

  /** The periodic test looks at the number of the row that is pushed. */
  lemma PushLast(p: Config, n: nat, s: Accum, x: nat, id: Rowid)
    requires p.Valid() && LastColumn(p, n, s) && x < p.nCol && (n + 1) / p.nPSample < p.mxSample
    ensures CanPush(p, s, x) && LastColumn(p, n + 1, Push(p, s, x, id))
    ensures Advance(s.current, s.nRow, x).anLt[p.nCol-1] == n
  {
    hide Push;
    PeriodicStep(p, n);
  }

  /** stat_push() called once for every row, in order. */
  function Scan(p: Config, seed: nat, c: seq<nat>, ids: seq<Rowid>): (r: Accum)
    requires p.Valid() && |c| == |ids| && History(c, p.nCol) && |c| / p.nPSample < p.mxSample
    ensures LastColumn(p, |c|, r)
  {
    hide LastColumn, CanPush, Push;
    if c == [] then
      EmptyLast(p, seed);
      Empty(p, seed)
    else
      var n := |c| - 1;
      PeriodicMonotone(p, n, |c|);
      var s := Scan(p, seed, c[..n], ids[..n]);
      PushLast(p, n, s, c[n], ids[n]);
      Push(p, s, c[n], ids[n])
  }

  /** The invariant holds after every row of every scan. */
  lemma {:induction false} ScanInv(p: Config, seed: nat, c: seq<nat>, ids: seq<Rowid>)
    requires p.Valid() && |c| == |ids| && History(c, p.nCol) && |c| / p.nPSample < p.mxSample && c != []
    ensures Inv(p, c, ids, Scan(p, seed, c, ids), p.nCol - 2)
  {
    hide Inv, Push, CanPush;
    var n := |c| - 1;
    var d, e := c[..n], ids[..n];
    assert c == d + [c[n]] && ids == e + [ids[n]];
    PeriodicMonotone(p, n, |c|);
    var s := Scan(p, seed, d, e);
    PushLast(p, n, s, c[n], ids[n]);
    if n > 0 {
      ScanInv(p, seed, d, e);
    }
    PushKeeps(p, d, e, s, c[n], ids[n]);
  }
}

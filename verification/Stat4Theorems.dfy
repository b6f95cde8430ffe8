/** What ANALYZE stores: the guarantees of a scan over a whole index. */
module Stat4Theorems {
  import opened Arithmetic
  import opened Stat4Index
  import opened Stat4Spec
  import opened Seqs
  import opened Stat4Invariant
  import opened Stat4Offer
  import opened Stat4Push
  import opened Stat4Fill
  import opened Stat4Run

  function Ids(rows: seq<Row>): (r: seq<Rowid>)
    ensures |r| == |rows| && forall k :: 0 <= k < |rows| ==> r[k] == rows[k].rowid
  {
    seq(|rows|, k requires 0 <= k < |rows| => rows[k].rowid)
  }

  /** An index that is not empty, and a row count given to stat_init() with which
      the periodic samples leave a slot free; VictimExactly shows that it takes that. */
  ghost predicate Analysed(rows: seq<Row>, nCol: nat, mxSample: nat, nRowHint: nat) {
    && IndexOrder(rows, nCol) && mxSample > 0 && |rows| > 0
    && |rows| / Init(nCol, mxSample, nRowHint).nPSample < mxSample
  }

  /** It is enough that stat_init() was told at least the number of rows. */
  lemma HintSuffices(rows: seq<Row>, nCol: nat, mxSample: nat, nRowHint: nat)
    requires IndexOrder(rows, nCol) && mxSample > 0 && 0 < |rows| <= nRowHint
    ensures Analysed(rows, nCol, mxSample, nRowHint)
  {
    PeriodicShare(|rows|, mxSample, nRowHint);
  }

  /** At most a third of the array is then taken by periodic samples. */
  lemma PeriodicShare(n: nat, mxSample: nat, nRowHint: nat)
    requires mxSample > 0 && n <= nRowHint
    ensures n / (nRowHint / (mxSample / 3 + 1) + 1) <= mxSample / 3 < mxSample
  {
    var q := mxSample / 3 + 1;
    var w := nRowHint / q + 1;
    assert nRowHint == (nRowHint / q) * q + nRowHint % q;
    assert nRowHint < w * q by {
      assert w * q == (nRowHint / q) * q + q;
    }
    assert q * w == w * q;
    DivLess(n, q, w);
  }

  /** nPSample is the least distance of periodic rows that keeps them, of C rows, to a
      third of the array. */
  lemma SpacingLeast(nCol: nat, mxSample: nat, nRowHint: nat, d: nat)
    requires nCol > 0 && mxSample > 0 && d > 0
    ensures nRowHint / d <= mxSample / 3 <==> Init(nCol, mxSample, nRowHint).nPSample <= d
  {
    var q := mxSample / 3 + 1;
    assert nRowHint == (nRowHint / q) * q + nRowHint % q;
    if nRowHint / q + 1 <= d {
      MulMonotone(nRowHint / q + 1, d, q);
      Distribute(nRowHint / q, 1, q);
      assert nRowHint < q * d by { assert q * d == d * q; }
      DivLess(nRowHint, q, d);
    } else {
      MulMonotone(d, nRowHint / q, q);
      assert q * d == d * q <= nRowHint;
      Distribute(nRowHint / d, 1, d);
      if nRowHint / d < q {
        MulMonotone(nRowHint / d + 1, q, d);
      }
    }
  }

  /** Without the bound the scan runs out of samples to evict: once all but one
      slot is periodic, one more periodic row leaves no least sample. */
  lemma VictimLost(p: Config, s: Accum, w: Sample)
    requires s.Ready(p, 0) && NumPeriodic(s.a) == p.mxSample - 1 && w.Shaped(p.nCol) && w.isPSample
    ensures var b := MakeRoom(p, s) + [w];
            |b| == p.mxSample && LeastOf(b, p.nCol, |b|) == -1
  {
    var m := MakeRoom(p, s);
    NumPeriodicConcat(m, [w]);
    var b := m + [w];
    NumPeriodicBound(m);
    var k := LeastOf(b, p.nCol, |b|);
    if k >= 0 {
      assert |b| == p.mxSample && NumPeriodic(b) == |b|;
      AllPeriodic(b, k);
    }
  }

  /** The accumulator when stat_push() has closed the groups and counted the row. */
  function Counted(p: Config, s: Accum, x: nat, id: Rowid): (n: Accum)
    requires s.Ready(p, 0)
    ensures n.Ready(p, 0) && NumPeriodic(n.a) == NumPeriodic(s.a)
  {
    hide PushPrevious, Advance, NumPeriodic;
    var f := if s.nRow == 0 then s else PushPrevious(p, s, x);
    assert f.Ready(p, 0) && f.current.Shaped(p.nCol);
    var n := Count(f, x, id);
    assert n.current.Shaped(p.nCol) && n == f.(current := n.current, nRow := n.nRow, iPrn := n.iPrn);
    n
  }

  /** The array as stat_push() leaves it when the row is periodic, before the next
      sample to evict is looked for. */
  function WithPeriodic(p: Config, s: Accum, x: nat, id: Rowid): (b: seq<Sample>)
    requires s.Ready(p, 0)
    ensures |b| <= p.mxSample && AllShaped(b, p.nCol)
    ensures (|b| == p.mxSample ==> LeastOf(b, p.nCol, |b|) >= 0) <==> NumPeriodic(s.a) + 1 < p.mxSample
  {
    var n := Counted(p, s, x, id);
    var w := Withhold(n.current.(isPSample := true, iCol := 0), p.nCol - 1);
    hide Counted, LeastOf, NumPeriodic, MakeRoom;
    VictimLeft(p, n, w);
    MakeRoom(p, n) + [w]
  }

  lemma VictimLeft(p: Config, s: Accum, w: Sample)
    requires s.Ready(p, 0) && w.Shaped(p.nCol) && w.isPSample
    ensures var b := MakeRoom(p, s) + [w];
            (|b| == p.mxSample ==> LeastOf(b, p.nCol, |b|) >= 0) <==> NumPeriodic(s.a) + 1 < p.mxSample
  {
    if NumPeriodic(s.a) + 1 < p.mxSample {
      var m := MakeRoom(p, s);
      var b := m + [w];
      NumPeriodicConcat(m, [w]);
      assert NumPeriodic([w][..0]) == 0;
      if |b| == p.mxSample {
        LeastExists(b, p.nCol);
      }
    } else {
      VictimLost(p, s, w);
    }
  }

  /** Exactly when there is a sample to evict: after any number of rows, pushing one
      more periodic row leaves a least sample if and only if the rows, with this one,
      have fewer than mxSample periodic ones among them. */
  lemma VictimExactly(p: Config, seed: nat, c: seq<nat>, ids: seq<Rowid>, x: nat, id: Rowid)
    requires p.Valid() && |c| == |ids| && History(c, p.nCol) && |c| / p.nPSample < p.mxSample && Periodic(p, |c|)
    ensures var b := WithPeriodic(p, Scan(p, seed, c, ids), x, id);
            (|b| == p.mxSample ==> LeastOf(b, p.nCol, |b|) >= 0) <==> (|c| + 1) / p.nPSample < p.mxSample
  {
    PeriodicStep(p, |c|);
    hide Scan, WithPeriodic, NumPeriodic, LeastOf;
    assert NumPeriodic(Scan(p, seed, c, ids).a) == |c| / p.nPSample;
  }

  /** An input without a victim: nPSample is 1, and with the last free slot every
      sample is periodic. */
  lemma NoVictim(nCol: nat, mxSample: nat, seed: nat, id: Rowid)
    requires nCol > 0 && mxSample > 0
    ensures var p, c, ids := Init(nCol, mxSample, 0), seq(mxSample - 1, _ => 0), seq(mxSample - 1, _ => id);
            var b := WithPeriodic(p, Scan(p, seed, c, ids), 0, id);
            |b| == mxSample && LeastOf(b, nCol, |b|) < 0
  {
    hide Scan, WithPeriodic, LeastOf;
    var p, c, ids := Init(nCol, mxSample, 0), seq(mxSample - 1, _ => 0), seq(mxSample - 1, _ => id);
    VictimExactly(p, seed, c, ids, 0, id);
  }

  lemma {:induction false} NumPeriodicBound(a: seq<Sample>)
    ensures NumPeriodic(a) <= |a|
  {
    if |a| > 0 {
      NumPeriodicBound(a[..|a|-1]);
    }
  }

  lemma AllPeriodic(a: seq<Sample>, k: nat)
    requires NumPeriodic(a) == |a| && k < |a|
    ensures a[k].isPSample
  {
    if !a[k].isPSample {
      NumPeriodicRemove(a, k);
      NumPeriodicBound(RemoveAt(a, k));
    }
  }

  /** The accumulator once every row has been pushed. */
  function Accumulate(rows: seq<Row>, nCol: nat, mxSample: nat, nRowHint: nat, seed: nat): (r: Accum)
    requires Analysed(rows, nCol, mxSample, nRowHint)
    ensures LastColumn(Init(nCol, mxSample, nRowHint), |rows|, r)
  {
    ChangesTrack(rows, nCol);
    Scan(Init(nCol, mxSample, nRowHint), seed, Changes(rows, nCol), Ids(rows))
  }

  lemma AccumulateInv(rows: seq<Row>, nCol: nat, mxSample: nat, nRowHint: nat, seed: nat)
    requires Analysed(rows, nCol, mxSample, nRowHint)
    ensures Inv(Init(nCol, mxSample, nRowHint), Changes(rows, nCol), Ids(rows),
                Accumulate(rows, nCol, mxSample, nRowHint, seed), nCol - 2)
    ensures NumPeriodic(Accumulate(rows, nCol, mxSample, nRowHint, seed).a)
            == |rows| / Init(nCol, mxSample, nRowHint).nPSample
  {
    hide Inv, Scan;
    ChangesTrack(rows, nCol);
    ScanInv(Init(nCol, mxSample, nRowHint), seed, Changes(rows, nCol), Ids(rows));
  }

  /** The accumulator that the samples are read from. */
  function Finished(rows: seq<Row>, nCol: nat, mxSample: nat, nRowHint: nat, seed: nat): (r: Accum)
    requires Analysed(rows, nCol, mxSample, nRowHint)
    ensures r.Shaped(Init(nCol, mxSample, nRowHint))
  {
    PushPrevious(Init(nCol, mxSample, nRowHint), Accumulate(rows, nCol, mxSample, nRowHint, seed), 0)
  }

  lemma FlushKeeps(p: Config, c: seq<nat>, ids: seq<Rowid>, s: Accum)
    requires s.Ready(p, 0) && Inv(p, c, ids, s, p.nCol - 2)
    ensures var r := PushPrevious(p, s, 0);
            && ArrayInv(p, c + [0], ids + [IntRowid(0)], r, |c|, p.nCol - 2)
            && forall t :: 0 <= t < |r.a| ==> RowOf(p, r.a[t]) < |c|
  {
    hide ArrayInv, OfferAll, Fill;
    OfferAllKeeps(p, c, ids, s, p.nCol - 2, 0);
    FillKeeps(p, c, ids, OfferAll(p, s, p.nCol - 2, 0), 0, IntRowid(0));
  }

  lemma FinishedInv(rows: seq<Row>, nCol: nat, mxSample: nat, nRowHint: nat, seed: nat)
    requires Analysed(rows, nCol, mxSample, nRowHint)
    ensures var p, c, ids := Init(nCol, mxSample, nRowHint), Changes(rows, nCol), Ids(rows);
            var r := Finished(rows, nCol, mxSample, nRowHint, seed);
            && ArrayInv(p, c + [0], ids + [IntRowid(0)], r, |rows|, nCol - 2)
            && (forall t :: 0 <= t < |r.a| ==> RowOf(p, r.a[t]) < |rows|)
            && NumPeriodic(r.a) == |rows| / p.nPSample
  {
    hide ArrayInv, Inv, PushPrevious, Accumulate;
    var p, c, ids := Init(nCol, mxSample, nRowHint), Changes(rows, nCol), Ids(rows);
    AccumulateInv(rows, nCol, mxSample, nRowHint, seed);
    FlushKeeps(p, c, ids, Accumulate(rows, nCol, mxSample, nRowHint, seed));
  }

  /** Every sample that ANALYZE stores carries, for every column, the true
      statistics of a row of the index, and that row's rowid. */
  lemma SamplesExact(rows: seq<Row>, nCol: nat, mxSample: nat, nRowHint: nat, seed: nat, t: nat, j: nat)
    requires Analysed(rows, nCol, mxSample, nRowHint)
    requires t < |Finished(rows, nCol, mxSample, nRowHint, seed).a| && j < nCol
    ensures var s := Finished(rows, nCol, mxSample, nRowHint, seed).a[t];
            var r := s.anLt[nCol-1];
            && r < |rows| && s.rowid == rows[r].rowid
            && s.anEq[j] == TrueEq(rows, nCol, r, j)
            && s.anLt[j] == TrueLt(rows, nCol, r, j)
            && s.anDLt[j] == TrueDLt(rows, nCol, r, j)
  {
    hide TrueEq, TrueLt, TrueDLt, Finished, SampleOk, CurrentOk, BestsOk, Changes, Tracks;
    var p, c, ids := Init(nCol, mxSample, nRowHint), Changes(rows, nCol), Ids(rows);
    var f := Finished(rows, nCol, mxSample, nRowHint, seed);
    FinishedInv(rows, nCol, mxSample, nRowHint, seed);
    ChangesTrack(rows, nCol);
    assert SampleOk(p, c + [0], ids + [IntRowid(0)], f.a[t], nCol - 2);
    hide ArrayInv;
    SampleExact(p, rows, nCol, c, ids, f.a[t], j);
  }

  lemma SampleExact(p: Config, rows: seq<Row>, nCol: nat, c: seq<nat>, ids: seq<Rowid>, s: Sample, j: nat)
    requires IndexOrder(rows, nCol) && rows != [] && Tracks(rows, nCol, c) && ids == Ids(rows)
    requires p.Valid() && p.nCol == nCol && j < nCol
    requires SampleOk(p, c + [0], ids + [IntRowid(0)], s, nCol - 2) && RowOf(p, s) < |rows|
    ensures var r := RowOf(p, s);
            && s.rowid == rows[r].rowid
            && s.anEq[j] == TrueEq(rows, nCol, r, j)
            && s.anLt[j] == TrueLt(rows, nCol, r, j)
            && s.anDLt[j] == TrueDLt(rows, nCol, r, j)
  {
    hide TrueEq, TrueLt, TrueDLt, Start, End, GroupNo, CountOk, LocatedAt, Neighbours;
    FinalSample(p, c, ids, s, j);
    TrueCounts(rows, nCol, c, RowOf(p, s), j);
    TrueDistinctCounts(rows, nCol, c, RowOf(p, s), j);
  }

  lemma FinalSample(p: Config, c: seq<nat>, ids: seq<Rowid>, s: Sample, j: nat)
    requires p.Valid() && c != [] && c[0] == 0 && |ids| == |c| && j < p.nCol
    requires SampleOk(p, c + [0], ids + [IntRowid(0)], s, p.nCol - 2) && RowOf(p, s) < |c|
    ensures s.rowid == ids[RowOf(p, s)]
    ensures s.anEq[j] == End(c, RowOf(p, s) + 1, j) - Start(c, RowOf(p, s), j)
    ensures s.anLt[j] == Start(c, RowOf(p, s), j) && s.anDLt[j] == GroupNo(c, RowOf(p, s), j)
  {
    assert CountOk(p, c + [0], s, j, p.nCol - 2);
    assert LocatedAt(p, c + [0], s, j);
    Extend(c, 0, RowOf(p, s), j);
  }

  /** The stored samples fit the array and are in strictly increasing order; every
      nPSample-th row is among them, and those rows fill a third of it at most when
      stat_init() was told enough rows. */
  lemma SamplesOrdered(rows: seq<Row>, nCol: nat, mxSample: nat, nRowHint: nat, seed: nat)
    requires Analysed(rows, nCol, mxSample, nRowHint)
    ensures var p, f := Init(nCol, mxSample, nRowHint), Finished(rows, nCol, mxSample, nRowHint, seed);
            && |f.a| <= mxSample
            && (forall t, u :: 0 <= t < u < |f.a| ==> f.a[t].anLt[nCol-1] < f.a[u].anLt[nCol-1])
            && (forall r :: 0 <= r < |rows| && Periodic(p, r) ==>
                  exists x :: x in f.a && x.isPSample && x.Shaped(nCol) && x.anLt[nCol-1] == r)
            && NumPeriodic(f.a) == |rows| / p.nPSample < mxSample
            && (|rows| <= nRowHint ==> NumPeriodic(f.a) <= mxSample / 3)
  {
    var p, f := Init(nCol, mxSample, nRowHint), Finished(rows, nCol, mxSample, nRowHint, seed);
    assert p.nCol == nCol && p.mxSample == mxSample;
    PeriodicRows(rows, nCol, mxSample, nRowHint);
    hide Finished, NumPeriodic, SamplesOk, AllRepresented, Handled, MinLeast, ZeroBound, Changes, Analysed, Init;
    FinishedInv(rows, nCol, mxSample, nRowHint, seed);
    forall r | 0 <= r < |rows| && Periodic(p, r)
      ensures exists x :: x in f.a && x.isPSample && x.Shaped(nCol) && x.anLt[nCol-1] == r
    {
      assert HasPeriodic(p, f.a, r);
    }
  }

  lemma PeriodicRows(rows: seq<Row>, nCol: nat, mxSample: nat, nRowHint: nat)
    requires Analysed(rows, nCol, mxSample, nRowHint)
    ensures var n := |rows| / Init(nCol, mxSample, nRowHint).nPSample;
            n < mxSample && (|rows| <= nRowHint ==> n <= mxSample / 3)
  {
    if |rows| <= nRowHint {
      PeriodicShare(|rows|, mxSample, nRowHint);
    }
  }

  /** The sample comes from a row with row `q`'s prefix at column `j`, and is
      periodic or credited to that column or an earlier one. */
  ghost predicate Samples(rows: seq<Row>, nCol: nat, s: Sample, q: nat, j: nat)
    requires IndexOrder(rows, nCol) && q < |rows| && j < nCol
  {
    && |s.anLt| == nCol && s.anLt[nCol-1] < |rows|
    && SamePrefix(rows[q].key, rows[s.anLt[nCol-1]].key, j)
    && (s.isPSample || s.iCol <= j)
  }

  /** The samples are the most frequent prefixes: for any row and any column but
      the last, either a stored sample comes from the rows that share the row's
      prefix, or the array is full and every non-periodic sample is credited with
      a prefix that at least as many rows share. */
  lemma FrequentPrefixes(rows: seq<Row>, nCol: nat, mxSample: nat, nRowHint: nat, seed: nat, q: nat, j: nat)
    requires Analysed(rows, nCol, mxSample, nRowHint) && q < |rows| && j < nCol - 1
    ensures var a := Finished(rows, nCol, mxSample, nRowHint, seed).a;
            || (exists t :: 0 <= t < |a| && Samples(rows, nCol, a[t], q, j))
            || (|a| == mxSample && forall t :: 0 <= t < |a| && !a[t].isPSample ==>
                  a[t].anEq[a[t].iCol] >= TrueEq(rows, nCol, q, j))
  {
    hide Finished, Represented, Changes, TrueEq;
    var p, c := Init(nCol, mxSample, nRowHint), Changes(rows, nCol);
    var a := Finished(rows, nCol, mxSample, nRowHint, seed).a;
    FinishedRepresented(rows, nCol, mxSample, nRowHint, seed, q, j);
    ChangesTrack(rows, nCol);
    TrueCounts(rows, nCol, c, q, j);
    RepresentedMeans(p, c, a, q, j);
    if t :| 0 <= t < |a| && InGroup(p, c, a[t], q, j) {
      SampleOfGroup(p, rows, nCol, c, a[t], q, j);
    }
  }

  ghost predicate InGroup(p: Config, c: seq<nat>, s: Sample, q: nat, j: nat)
    requires p.Valid() && s.Shaped(p.nCol) && q < |c| && c[0] == 0 && RowOf(p, s) < |c|
  {
    Start(c, RowOf(p, s), j) == Start(c, q, j) && (s.isPSample || s.iCol <= j)
  }

  lemma SampleOfGroup(p: Config, rows: seq<Row>, nCol: nat, c: seq<nat>, s: Sample, q: nat, j: nat)
    requires IndexOrder(rows, nCol) && Tracks(rows, nCol, c) && p.Valid() && p.nCol == nCol && s.Shaped(nCol)
    requires q < |rows| && j < nCol && RowOf(p, s) < |rows| && InGroup(p, c, s, q, j)
    ensures Samples(rows, nCol, s, q, j)
  {
    SameStart(c, q, RowOf(p, s), j);
    PrefixByGroup(rows, nCol, c, q, RowOf(p, s), j);
  }

  lemma FinishedRepresented(rows: seq<Row>, nCol: nat, mxSample: nat, nRowHint: nat, seed: nat, q: nat, j: nat)
    requires Analysed(rows, nCol, mxSample, nRowHint) && q < |rows| && j < nCol - 1
    ensures var p, c, f := Init(nCol, mxSample, nRowHint), Changes(rows, nCol), Finished(rows, nCol, mxSample, nRowHint, seed);
            && c[0] == 0 && (forall t :: 0 <= t < |f.a| ==> RowOf(p, f.a[t]) < |rows|)
            && Represented(p, c + [0], f.a, Start(c, q, j), j)
  {
    hide Finished, Represented;
    var p, c, f := Init(nCol, mxSample, nRowHint), Changes(rows, nCol), Finished(rows, nCol, mxSample, nRowHint, seed);
    FinishedInv(rows, nCol, mxSample, nRowHint, seed);
    var d, g := c + [0], Start(c, q, j);
    Extend(c, 0, g, j);
    assert d[g] == c[g];
  }

  /** Representation of a row's group, read back in terms of the scan itself. */
  lemma RepresentedMeans(p: Config, c: seq<nat>, a: seq<Sample>, q: nat, j: nat)
    requires p.Valid() && AllShaped(a, p.nCol) && q < |c| && c[0] == 0 && j < p.nCol - 1
    requires forall t :: 0 <= t < |a| ==> RowOf(p, a[t]) < |c|
    requires Represented(p, c + [0], a, Start(c, q, j), j)
    ensures || (exists t :: 0 <= t < |a| && InGroup(p, c, a[t], q, j))
            || (|a| == p.mxSample && forall t :: 0 <= t < |a| && !a[t].isPSample ==>
                  a[t].anEq[a[t].iCol] >= End(c, q + 1, j) - Start(c, q, j))
  {
    var d, g := c + [0], Start(c, q, j);
    Extend(c, 0, g, j);
    GroupEnd(c, q, j);
    if x :| x in a && StandsFor(p, d, x, j, g) {
      var t :| 0 <= t < |a| && a[t] == x;
      Extend(c, 0, RowOf(p, x), j);
    } else {
      forall t | 0 <= t < |a| && !a[t].isPSample ensures a[t].anEq[a[t].iCol] >= End(c, q + 1, j) - g {
        assert AtLeast(a[t], End(d, g + 1, j) - g, j);
      }
    }
  }

  lemma SameStart(c: seq<nat>, q: nat, r: nat, j: nat)
    requires q < |c| && r < |c| && c[0] == 0 && Start(c, q, j) == Start(c, r, j)
    ensures Start(c, r, j) <= q < End(c, r + 1, j)
  {
  }

  /** The estimate that stat_get() prints for column `i` of sqlite_stat1. */
  function Estimate(nRow: nat, nDLt: nat): nat {
    (nRow + (nDLt + 1) - 1) / (nDLt + 1)
  }

  lemma EstimateMeans(n: nat, d: nat, e: nat)
    requires n > 0 && 0 < d <= e
    ensures (Estimate(n, d - 1) - 1) * d < n <= Estimate(n, d - 1) * d
    ensures Estimate(n, d - 1) >= 1
    ensures Estimate(n, d - 1) >= Estimate(n, e - 1)
  {
    Ceiling(n, d);
    CeilingMonotone(n, d, e);
  }

  /** After the scan the running counts are those of the last row. */
  lemma LastCounts(rows: seq<Row>, nCol: nat, mxSample: nat, nRowHint: nat, seed: nat, j: nat)
    requires Analysed(rows, nCol, mxSample, nRowHint) && j < nCol
    ensures var s := Accumulate(rows, nCol, mxSample, nRowHint, seed);
            && s.nRow == |rows|
            && |s.current.anDLt| == |s.current.anLt| == |s.current.anEq| == nCol
            && s.current.anLt[j] + s.current.anEq[j] == |rows| && s.current.anEq[j] > 0
            && s.current.anDLt[j] + 1 == TrueDistinct(rows, nCol, j)
            && (j > 0 ==> TrueDistinct(rows, nCol, j - 1) <= TrueDistinct(rows, nCol, j))
  {
    hide Accumulate, Changes, TrueDistinct;
    var p, c, ids := Init(nCol, mxSample, nRowHint), Changes(rows, nCol), Ids(rows);
    var s := Accumulate(rows, nCol, mxSample, nRowHint, seed);
    AccumulateCurrent(rows, nCol, mxSample, nRowHint, seed);
    ChangesTrack(rows, nCol);
    TrueDistinctCounts(rows, nCol, c, |rows| - 1, j);
    assert LocatedAt(p, c, s.current, j);
    if j > 0 {
      TrueDistinctCounts(rows, nCol, c, |rows| - 1, j - 1);
      GroupNoBounds(c, |c| - 1, j - 1, j);
    }
  }

  /** The stat1 estimates are rows per distinct prefix, rounded up: at least 1,
      and no larger for a longer prefix. */
  lemma Stat1Estimates(rows: seq<Row>, nCol: nat, mxSample: nat, nRowHint: nat, seed: nat, j: nat)
    requires Analysed(rows, nCol, mxSample, nRowHint) && j < nCol
    ensures var s := Accumulate(rows, nCol, mxSample, nRowHint, seed);
            var d := TrueDistinct(rows, nCol, j);
            && |s.current.anDLt| == nCol
            && var e := Estimate(s.nRow, s.current.anDLt[j]);
               && (e - 1) * d < |rows| <= e * d && e >= 1
               && (j > 0 ==> Estimate(s.nRow, s.current.anDLt[j-1]) >= e)
  {
    hide Accumulate, Estimate, TrueDistinct;
    LastCounts(rows, nCol, mxSample, nRowHint, seed, j);
    var d := TrueDistinct(rows, nCol, j);
    EstimateMeans(|rows|, d, d);
    if j > 0 {
      LastCounts(rows, nCol, mxSample, nRowHint, seed, j - 1);
      EstimateMeans(|rows|, TrueDistinct(rows, nCol, j - 1), d);
    }
  }

  lemma AccumulateCurrent(rows: seq<Row>, nCol: nat, mxSample: nat, nRowHint: nat, seed: nat)
    requires Analysed(rows, nCol, mxSample, nRowHint)
    ensures CurrentOk(Init(nCol, mxSample, nRowHint), Changes(rows, nCol), Ids(rows),
                      Accumulate(rows, nCol, mxSample, nRowHint, seed).current)
  {
    hide Accumulate, ArrayInv, CurrentOk, BestsOk;
    AccumulateInv(rows, nCol, mxSample, nRowHint, seed);
  }

  lemma Ceiling(n: nat, d: nat)
    requires d > 0
    ensures var e := (n + d - 1) / d; (e - 1) * d < n <= e * d || (n == 0 && e == 0)
    ensures n > 0 ==> (n + d - 1) / d >= 1
  {
    var e, r := (n + d - 1) / d, (n + d - 1) % d;
    assert n + d - 1 == e * d + r;
    assert (e - 1) * d == e * d - d;
  }

  lemma CeilingMonotone(n: nat, d: nat, e: nat)
    requires 0 < d <= e
    ensures (n + d - 1) / d >= (n + e - 1) / e
  {
    var x := (n + d - 1) / d;
    Ceiling(n, d);
    assert n <= x * d <= x * e by {
      assert x * (e - d) >= 0;
    }
    assert (x + 1) * e == x * e + e;
    DivLess(n + e - 1, x + 1, e);
  }
}

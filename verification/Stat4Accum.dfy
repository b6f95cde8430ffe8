/** The accumulator object behind stat_init(), stat_push() and stat_get().  Its
    arrays are updated in place; each method is tied to the function of the same
    step in Stat4Spec. */
module Stat4Accumulator {
  import opened Stat4Index
  import opened Stat4Spec
  import opened Stat4Order
  import opened Seqs

  /** sampleIsBetterPost() */
  method IsBetterPost(nCol: nat, n: Sample, o: Sample) returns (better: bool)
    requires n.Shaped(nCol) && o.Shaped(nCol) && n.iCol == o.iCol
    ensures better == BetterPost(nCol, n, o, n.iCol + 1)
    ensures better <==> Larger(n.anEq, o.anEq, n.iCol + 1, n.iHash, o.iHash)
  {
    PostMeans(nCol, n, o, n.iCol + 1);
    hide Larger;
    var i := n.iCol + 1;
    while i < nCol
      invariant n.iCol < i <= nCol
      invariant BetterPost(nCol, n, o, n.iCol + 1) == BetterPost(nCol, n, o, i)
    {
      if n.anEq[i] > o.anEq[i] { return true; }
      if n.anEq[i] < o.anEq[i] { return false; }
      i := i + 1;
    }
    return n.iHash > o.iHash;
  }

  /** sampleIsBetter() */
  method IsBetter(nCol: nat, n: Sample, o: Sample) returns (better: bool)
    requires n.Shaped(nCol) && o.Shaped(nCol)
    ensures better == Better(nCol, n, o)
    ensures var u, v := n.anEq[n.iCol], o.anEq[o.iCol];
            better <==> u > v || (u == v && n.iCol < o.iCol)
                        || (u == v && n.iCol == o.iCol && Larger(n.anEq, o.anEq, n.iCol + 1, n.iHash, o.iHash))
  {
    PostMeans(nCol, n, o, n.iCol + 1);
    hide Larger, BetterPost;
    var nEqNew, nEqOld := n.anEq[n.iCol], o.anEq[o.iCol];
    if nEqNew > nEqOld { return true; }
    if nEqNew == nEqOld {
      if n.iCol < o.iCol { return true; }
      if n.iCol == o.iCol {
        better := IsBetterPost(nCol, n, o);
        return;
      }
    }
    return false;
  }

  class Stat4Accum {
    const nCol: nat
    const nKeyCol: nat
    const mxSample: nat
    const nPSample: nat
    var nRow: nat
    var current: Sample
    var iPrn: nat
    var nSample: nat
    var iMin: int
    var nMaxEqZero: nat
    var iGet: int
    const aBest: array<Sample>
    const a: array<Sample>

    function Cfg(): Config {
      Config(nCol, mxSample, nPSample)
    }

    ghost predicate Valid()
      reads this, a, aBest
    {
      && Cfg().Valid() && a != aBest && a.Length == mxSample && aBest.Length == nCol
      && nSample <= mxSample && View().Shaped(Cfg())
    }

    /** The value of the object that the specification functions work on. */
    ghost function View(): Accum
      requires nSample <= a.Length
      reads this, a, aBest
    {
      Accum(nRow, current, iPrn, aBest[..], a[..nSample], iMin, nMaxEqZero)
    }

    /** stat_init(nCol, nKeyCol, nRowHint); `seed` is the start of the hash sequence. */
    constructor (nCol: nat, nKeyCol: nat, mxSample: nat, nRowHint: nat, seed: nat)
      requires 0 < nKeyCol <= nCol && mxSample > 0
      ensures Valid() && fresh(a) && fresh(aBest)
      ensures Cfg() == Init(nCol, mxSample, nRowHint) && this.nKeyCol == nKeyCol
      ensures View() == Empty(Cfg(), seed) && iGet == -1
    {
      this.nCol, this.nKeyCol, this.mxSample := nCol, nKeyCol, mxSample;
      nPSample := nRowHint / (mxSample / 3 + 1) + 1;
      var z := Zeros(nCol);
      nRow, nSample, iMin, nMaxEqZero, iGet := 0, 0, 0, 0, -1;
      current := Sample(z, z, z, IntRowid(0), false, 0, 0);
      iPrn := seed;
      a := new Sample[mxSample](i => Sample(z, z, z, IntRowid(0), false, 0, 0));
      aBest := new Sample[nCol](i requires 0 <= i => Sample(z, z, z, IntRowid(0), false, i, 0));
    }

    /** find_new_min: the least preferred non-periodic sample of a full array. */
    method FindNewMin()
      requires Valid() && NumPeriodic(a[..nSample]) < mxSample
      modifies this`iMin
      ensures Valid() && View() == Refind(Cfg(), old(View()))
    {
      if nSample >= mxSample {
        var m := -1;
        for i := 0 to mxSample
          invariant m == LeastOf(a[..nSample], nCol, i)
          invariant Valid() && View() == old(View())
        {
          assert a[..nSample][i] == a[i];
          if a[i].isPSample { continue; }
          var better := false;
          if m >= 0 {
            assert a[..nSample][m] == a[m];
            better := IsBetter(nCol, a[m], a[i]);
          }
          if m < 0 || better {
            m := i;
          }
        }
        LeastExists(a[..nSample], nCol);
        iMin := m;
      }
    }

    /** The scan of sampleInsert() for a sample that shares the closing prefix. */
    method FindUpgrade(n: Sample) returns (blocked: bool, u: int)
      requires Valid() && n.Shaped(nCol)
      ensures blocked == Blocked(a[..nSample], nCol, n.iCol)
      ensures !blocked ==> Upgradable(a[..nSample], nCol, n.iCol, 0) == if u < 0 then None else Some(u)
    {
      var i := nSample - 1;
      u := -1;
      ghost var s := a[..nSample];
      while i >= 0
        invariant -1 <= i < nSample && -1 <= u < nSample
        invariant forall t :: i < t < nSample ==> !(s[t].isPSample && s[t].anEq[n.iCol] == 0)
        invariant Upgradable(s, nCol, n.iCol, i + 1) == if u < 0 then None else Some(u)
      {
        assert s[i] == a[i];
        if a[i].anEq[n.iCol] == 0 {
          if a[i].isPSample { return true, u; }
          var better := false;
          if u >= 0 {
            assert s[u] == a[u];
            better := IsBetter(nCol, a[i], a[u]);
          }
          if u < 0 || better {
            u := i;
          }
        }
        i := i - 1;
      }
      blocked := false;
    }

    /** Evict the recorded victim when the array is full. */
    method EvictMin()
      requires Valid() && View().Ready(Cfg(), 0)
      modifies this`nSample, a
      ensures Valid() && nSample < mxSample
      ensures View() == old(View()).(a := MakeRoom(Cfg(), old(View())))
    {
      if nSample >= mxSample {
        ghost var s := View();
        forall k | iMin <= k < nSample - 1 {
          a[k] := a[k+1];
        }
        nSample := mxSample - 1;
        assert a[..nSample] == RemoveAt(s.a, s.iMin);
      }
    }

    /** Copy `n` behind the last entry. */
    method AddLast(n: Sample)
      requires Valid() && nSample < mxSample && n.Shaped(nCol)
      modifies this`nSample, a
      ensures Valid() && View() == old(View()).(a := old(View()).a + [n])
    {
      a[nSample] := n;
      nSample := nSample + 1;
      assert a[..nSample] == old(a[..nSample]) + [n];
    }

    /** The part of sampleInsert() that adds a new entry. */
    method AppendSample(n: Sample)
      requires Valid() && View().Ready(Cfg(), if n.isPSample then 1 else 0) && n.Shaped(nCol)
      modifies this`nSample, this`iMin, a
      ensures Valid() && View() == Append(Cfg(), old(View()), n)
    {
      ghost var s := View();
      EvictMin();
      AddLast(n);
      NumPeriodicConcat(MakeRoom(Cfg(), s), [n]);
      FindNewMin();
    }

    /** The part of sampleInsert() that upgrades an entry. */
    method UpgradeSample(u: nat, n: Sample)
      requires Valid() && View().Ready(Cfg(), 0) && u < nSample && n.Shaped(nCol)
      modifies this`iMin, a
      ensures Valid() && View() == UpgradeAt(Cfg(), old(View()), u, n)
    {
      ghost var s := View();
      assert s.a[u] == a[u];
      a[u] := a[u].(iCol := n.iCol);
      a[u] := a[u].(anEq := a[u].anEq[a[u].iCol := n.anEq[a[u].iCol]]);
      assert a[..nSample] == s.a[u := Upgrade(s.a[u], n)];
      NumPeriodicSame(s.a, a[..nSample]);
      FindNewMin();
    }

    /** sampleInsert() */
    method SampleInsert(n: Sample, nEqZero: nat)
      requires Valid() && View().Ready(Cfg(), if n.isPSample then 1 else 0)
      requires n.Shaped(nCol) && nEqZero <= nCol
      modifies this`nSample, this`iMin, this`nMaxEqZero, a
      ensures Valid() && View() == Insert(Cfg(), old(View()), n, nEqZero)
    {
      hide Append, UpgradeAt, NumPeriodic;
      if nEqZero > nMaxEqZero {
        nMaxEqZero := nEqZero;
      }
      if !n.isPSample {
        var blocked, u := FindUpgrade(n);
        if blocked { return; }
        if u >= 0 {
          UpgradeSample(u, n);
          return;
        }
      }
      AppendSample(Withhold(n, nEqZero));
    }

    /** samplePushPrevious(): offer the candidates of the closing groups, then
        fill in the counts that were withheld for those groups. */
    method SamplePushPrevious(iChng: nat)
      requires Valid() && View().Ready(Cfg(), 0)
      modifies this`nSample, this`iMin, this`nMaxEqZero, a, aBest
      ensures Valid() && View() == PushPrevious(Cfg(), old(View()), iChng)
    {
      hide Offer, Fill, NumPeriodic;
      ghost var p := Cfg();
      ghost var s0 := View();
      var i := nCol - 2;
      while i >= iChng
        invariant i < nCol && Valid() && View().Ready(p, 0)
        invariant OfferAll(p, View(), i, iChng) == OfferAll(p, s0, nCol - 2, iChng)
        decreases i
      {
        OfferBest(i);
        i := i - 1;
      }
      FillCounts(iChng);
    }

    /** One round of the first loop of samplePushPrevious(). */
    method OfferBest(i: nat)
      requires Valid() && View().Ready(Cfg(), 0) && i < nCol
      modifies this`nSample, this`iMin, this`nMaxEqZero, a, aBest
      ensures Valid() && View() == Offer(Cfg(), old(View()), i)
    {
      ghost var s := View();
      assert aBest[i] == s.aBest[i];
      aBest[i] := aBest[i].(anEq := aBest[i].anEq[i := current.anEq[i]]);
      assert aBest[..] == s.aBest[i := aBest[i]];
      var better := nSample < mxSample;
      if !better {
        assert s.a[iMin] == a[iMin];
        better := IsBetter(nCol, aBest[i], a[iMin]);
      }
      if better {
        SampleInsert(aBest[i], i);
      }
    }

    /** The last loop of samplePushPrevious(). */
    method FillCounts(iChng: nat)
      requires Valid() && View().Ready(Cfg(), 0)
      modifies this`nMaxEqZero, a
      ensures Valid() && View() == Fill(Cfg(), old(View()), iChng)
    {
      if iChng < nMaxEqZero {
        ghost var s := a[..];
        var i := nSample - 1;
        while i >= 0
          invariant -1 <= i < nSample
          invariant forall t :: 0 <= t <= i ==> a[t] == s[t]
          invariant forall t :: i < t < nSample ==> a[t] == FillSample(s[t], current, iChng)
        {
          var j := iChng;
          while j < nCol
            invariant iChng <= j && (iChng <= nCol ==> j <= nCol)
            invariant a[i] == s[i].(anEq := a[i].anEq) && |a[i].anEq| == nCol
            invariant forall t :: 0 <= t < nCol ==>
              a[i].anEq[t] == if iChng <= t < j && s[i].anEq[t] == 0 then current.anEq[t] else s[i].anEq[t]
            invariant forall t :: 0 <= t < nSample && t != i ==> a[t] == if t < i then s[t] else FillSample(s[t], current, iChng)
          {
            if a[i].anEq[j] == 0 {
              a[i] := a[i].(anEq := a[i].anEq[j := current.anEq[j]]);
            }
            j := j + 1;
          }
          assert a[i].anEq == FillSample(s[i], current, iChng).anEq;
          i := i - 1;
        }
        nMaxEqZero := iChng;
        assert a[..nSample] == Fill(Cfg(), old(View()), iChng).a;
      }
    }

    /** The loops of stat_push() that update the running counts. */
    method AdvanceCounts(iChng: nat)
      requires current.Shaped(nCol) && iChng < nCol
      modifies this`current
      ensures current == Advance(old(current), nRow, iChng)
    {
      ghost var c := current;
      if nRow == 0 {
        var i := 0;
        while i < nCol
          invariant 0 <= i <= nCol && current == c.(anEq := current.anEq) && |current.anEq| == nCol
          invariant forall t :: 0 <= t < i ==> current.anEq[t] == 1
        {
          current := current.(anEq := current.anEq[i := 1]);
          i := i + 1;
        }
        assert current.anEq == seq(nCol, t => 1);
        assert current == Advance(c, 0, iChng);
      } else {
        var i := 0;
        while i < iChng
          invariant 0 <= i <= nCol && current == c.(anEq := current.anEq) && |current.anEq| == nCol
          invariant i <= iChng
          invariant forall t :: 0 <= t < nCol ==> current.anEq[t] == if t < i then c.anEq[t] + 1 else c.anEq[t]
        {
          current := current.(anEq := current.anEq[i := current.anEq[i] + 1]);
          i := i + 1;
        }
        while i < nCol
          invariant 0 <= i <= nCol && current == c.(anEq := current.anEq, anLt := current.anLt, anDLt := current.anDLt)
          invariant |current.anEq| == |current.anLt| == |current.anDLt| == nCol
          invariant forall t :: 0 <= t < nCol ==>
            && current.anEq[t] == (if t < iChng then c.anEq[t] + 1 else if t < i then 1 else c.anEq[t])
            && current.anLt[t] == (if iChng <= t < i then c.anLt[t] + c.anEq[t] else c.anLt[t])
            && current.anDLt[t] == (if iChng <= t < i then c.anDLt[t] + 1 else c.anDLt[t])
        {
          current := current.(anDLt := current.anDLt[i := current.anDLt[i] + 1],
                              anLt := current.anLt[i := current.anLt[i] + current.anEq[i]],
                              anEq := current.anEq[i := 1]);
          i := i + 1;
        }
        ghost var r := Advance(c, nRow, iChng);
        forall t | 0 <= t < nCol
          ensures current.anEq[t] == r.anEq[t] && current.anLt[t] == r.anLt[t] && current.anDLt[t] == r.anDLt[t]
        {
          AdvanceAt(c, nRow, iChng, t);
        }
        assert current.anEq == r.anEq && current.anLt == r.anLt && current.anDLt == r.anDLt;
      }
      assert current == Advance(c, nRow, iChng);
    }

    /** The counting part of stat_push(). */
    method CountRow(iChng: nat, rowid: Rowid)
      requires Valid() && iChng < nCol
      modifies this`current, this`nRow, this`iPrn
      ensures Valid() && View() == Count(old(View()), iChng, rowid)
    {
      hide Advance;
      AdvanceCounts(iChng);
      nRow := nRow + 1;
      current := current.(rowid := rowid);
      iPrn := NextPrn(iPrn);
      current := current.(iHash := iPrn);
    }

    /** The row competes for candidate `i`. */
    method CompeteFor(i: nat, iChng: nat)
      requires aBest.Length == nCol && AllShaped(aBest[..], nCol) && current.Shaped(nCol) && i < nCol
      requires aBest[i].iCol == i
      modifies this`current, aBest
      ensures current == old(current).(iCol := i)
      ensures aBest[..] == old(aBest[..])[i :=
        if i >= iChng || BetterPost(nCol, current, old(aBest[i]), i + 1) then current else old(aBest[i])]
    {
      assert aBest[..][i] == aBest[i];
      current := current.(iCol := i);
      var take := i >= iChng;
      if !take {
        take := IsBetterPost(nCol, current, aBest[i]);
      }
      if take {
        aBest[i] := current;
      }
    }

    /** The loop that ends stat_push(): the row competes for every aBest[] entry. */
    method UpdateCandidates(iChng: nat)
      requires Valid() && View().Ready(Cfg(), 0) && !current.isPSample
      modifies this`current, aBest
      ensures Valid() && View() == UpdateBest(Cfg(), old(View()), iChng)
    {
      hide Compete, NumPeriodic;
      ghost var s := View();
      ghost var p := Cfg();
      var i := 0;
      while i < nCol - 1
        invariant 0 <= i < nCol
        invariant current == s.current.(iCol := if i > 0 then i - 1 else s.current.iCol)
        invariant aBest[..] == Compete(p, s.aBest, s.current, iChng, i)
      {
        ghost var best := aBest[..];
        assert best[i] == s.aBest[i] && aBest[i] == best[i];
        CompeteFor(i, iChng);
        assert s.current.(iCol := i) == current;
        assert aBest[..] == Compete(p, s.aBest, s.current, iChng, i + 1);
        i := i + 1;
      }
      assert a[..nSample] == s.a;
    }

    /** stat_push(P, iChng, rowid) */
    method StatPush(iChng: nat, rowid: Rowid)
      requires Valid() && iChng < nCol && CanPush(Cfg(), View(), iChng)
      modifies this, a, aBest
      ensures Valid() && View() == Push(Cfg(), old(View()), iChng, rowid) && iGet == old(iGet)
    {
      hide PushPrevious, AddPeriodic, UpdateBest;
      if nRow != 0 {
        SamplePushPrevious(iChng);
      }
      CountRow(iChng, rowid);
      AddIfPeriodic();
      UpdateCandidates(iChng);
    }

    /** The middle part of stat_push(): add a periodic row itself. */
    method AddIfPeriodic()
      requires Valid() && Cfg().Valid() && !current.isPSample
      requires View().Ready(Cfg(), if Periodic(Cfg(), current.anLt[nCol-1]) then 1 else 0)
      modifies this`current, this`nSample, this`iMin, this`nMaxEqZero, a
      ensures Valid() && View() == AddPeriodic(Cfg(), old(View())) && !current.isPSample
    {
      hide Insert, NumPeriodic;
      ghost var s := View();
      var nLt := current.anLt[nCol-1];
      if nLt / nPSample != (nLt + 1) / nPSample {
        current := current.(isPSample := true);
        current := current.(iCol := 0);
        InsertIgnoresCurrent(Cfg(), s, current, current, nCol - 1);
        SampleInsert(current, nCol - 1);
        current := current.(isPSample := false);
      }
    }

    /** stat_get(P, STAT_GET_ROWID): the first call flushes the groups still open. */
    method StatGetRowid() returns (r: Option<Rowid>)
      requires Valid() && View().Ready(Cfg(), 0)
      modifies this, a, aBest
      ensures Valid() && View() == (if old(iGet) < 0 then PushPrevious(Cfg(), old(View()), 0) else old(View()))
      ensures iGet == if old(iGet) < 0 then 0 else old(iGet)
      ensures r == if iGet < nSample then Some(View().a[iGet].rowid) else None
    {
      if iGet < 0 {
        SamplePushPrevious(0);
        iGet := 0;
      }
      if iGet < nSample {
        assert View().a[iGet] == a[iGet];
        return Some(a[iGet].rowid);
      }
      return None;
    }
  }
}

/** The loop over an index that the ANALYZE program runs. */
module Stat4Analyze {
  import opened Stat4Index
  import opened Stat4Spec
  import opened Seqs
  import opened Stat4Run
  import opened Stat4Theorems
  import opened Stat4Accumulator

  /** The comparisons before each stat_push(). */
  method ChangedColumn(prev: seq<int>, key: seq<int>) returns (d: nat)
    requires |prev| == |key| > 0
    ensures d == FirstDiff(prev, key, 0)
  {
    d := 0;
    while d < |key| - 1 && prev[d] == key[d]
      invariant d < |key| && FirstDiff(prev, key, 0) == FirstDiff(prev, key, d)
    {
      d := d + 1;
    }
  }

  /** The scan of the first `k` rows. */
  ghost function ScanTo(p: Config, seed: nat, c: seq<nat>, ids: seq<Rowid>, k: nat): (r: Accum)
    requires p.Valid() && k <= |c| == |ids| && History(c, p.nCol) && |c| / p.nPSample < p.mxSample
    ensures LastColumn(p, k, r)
  {
    PeriodicMonotone(p, k, |c|);
    Scan(p, seed, c[..k], ids[..k])
  }

  lemma ScanEnds(p: Config, seed: nat, c: seq<nat>, ids: seq<Rowid>)
    requires p.Valid() && |c| == |ids| && History(c, p.nCol) && |c| / p.nPSample < p.mxSample
    ensures ScanTo(p, seed, c, ids, 0) == Empty(p, seed)
    ensures ScanTo(p, seed, c, ids, |c|) == Scan(p, seed, c, ids)
  {
    assert c[..|c|] == c && ids[..|c|] == ids;
  }

  /** One more row of the scan. */
  lemma ScanNext(p: Config, seed: nat, c: seq<nat>, ids: seq<Rowid>, k: nat)
    requires p.Valid() && k < |c| == |ids| && History(c, p.nCol) && |c| / p.nPSample < p.mxSample
    ensures var s := ScanTo(p, seed, c, ids, k);
            CanPush(p, s, c[k]) && ScanTo(p, seed, c, ids, k + 1) == Push(p, s, c[k], ids[k])
  {
    hide Push, CanPush;
    PeriodicMonotone(p, k, |c|);
    PeriodicMonotone(p, k + 1, |c|);
    PushLast(p, k, ScanTo(p, seed, c, ids, k), c[k], ids[k]);
    assert c[..k+1][..k] == c[..k] && ids[..k+1][..k] == ids[..k];
  }

  /** The first changed column of row `k`. */
  method NextChange(rows: seq<Row>, ghost nCol: nat, k: nat) returns (chng: nat)
    requires IndexOrder(rows, nCol) && k < |rows|
    ensures chng == Changes(rows, nCol)[k] < nCol
  {
    chng := 0;
    if k > 0 {
      chng := ChangedColumn(rows[k-1].key, rows[k].key);
    }
  }

  /** Push row `k`, given that the rows before it have been pushed. */
  method PushRow(acc: Stat4Accum, rows: seq<Row>, ghost p: Config, ghost seed: nat, k: nat)
    requires k < |rows| && acc.Valid() && acc.Cfg() == p && IndexOrder(rows, p.nCol)
    requires |rows| / p.nPSample < p.mxSample && History(Changes(rows, p.nCol), p.nCol)
    requires acc.View() == ScanTo(p, seed, Changes(rows, p.nCol), Ids(rows), k)
    modifies acc, acc.a, acc.aBest
    ensures acc.Valid() && acc.iGet == old(acc.iGet)
    ensures acc.View() == ScanTo(p, seed, Changes(rows, p.nCol), Ids(rows), k + 1)
  {
    ghost var c, ids := Changes(rows, p.nCol), Ids(rows);
    hide Push, CanPush, ScanTo, History, IndexOrder, Changes, Ids;
    var chng := NextChange(rows, p.nCol, k);
    ScanNext(p, seed, c, ids, k);
    acc.StatPush(chng, rows[k].rowid);
  }

  /** Push every row. */
  method PushRows(acc: Stat4Accum, rows: seq<Row>, ghost p: Config, ghost seed: nat)
    requires acc.Valid() && acc.Cfg() == p && IndexOrder(rows, p.nCol)
    requires |rows| / p.nPSample < p.mxSample && History(Changes(rows, p.nCol), p.nCol)
    requires acc.View() == Empty(p, seed)
    modifies acc, acc.a, acc.aBest
    ensures acc.Valid() && acc.iGet == old(acc.iGet)
    ensures acc.View() == Scan(p, seed, Changes(rows, p.nCol), Ids(rows))
  {
    ghost var c, ids := Changes(rows, p.nCol), Ids(rows);
    hide ScanTo, Scan, History, Changes, IndexOrder, LastColumn, Stat4Accum.Valid, Stat4Accum.View;
    ScanEnds(p, seed, c, ids);
    var k := 0;
    while k < |rows|
      invariant k <= |rows| && acc.Valid() && acc.Cfg() == p && acc.iGet == old(acc.iGet)
      invariant acc.View() == ScanTo(p, seed, c, ids, k)
    {
      PushRow(acc, rows, p, seed, k);
      k := k + 1;
    }
  }

  /** Scan the index and flush: the object ends as the specification says, so the
      theorems about Finished() are about the samples it holds. */
  method AnalyzeIndex(rows: seq<Row>, nCol: nat, nKeyCol: nat, mxSample: nat, nRowHint: nat, seed: nat)
    returns (acc: Stat4Accum, first: Option<Rowid>)
    requires Analysed(rows, nCol, mxSample, nRowHint) && 0 < nKeyCol <= nCol
    ensures fresh(acc) && acc.Valid() && acc.Cfg() == Init(nCol, mxSample, nRowHint)
    ensures acc.View() == Finished(rows, nCol, mxSample, nRowHint, seed)
    ensures first == if acc.nSample > 0 then Some(acc.a[0].rowid) else None
  {
    ghost var p, done := Init(nCol, mxSample, nRowHint), Accumulate(rows, nCol, mxSample, nRowHint, seed);
    ChangesTrack(rows, nCol);
    assert done == Scan(p, seed, Changes(rows, nCol), Ids(rows));
    hide Scan, PushPrevious, Changes, History, IndexOrder, Accumulate;
    acc := new Stat4Accum(nCol, nKeyCol, mxSample, nRowHint, seed);
    PushRows(acc, rows, p, seed);
    first := acc.StatGetRowid();
    assert acc.nSample > 0 ==> acc.View().a[0] == acc.a[0];
  }
}

/** Which row of a group is sampled: the candidate of a column is the one row of its
    group that is ahead of all others, and only such rows are stored. */
module Stat4Choice {
  import opened Stat4Index
  import opened Stat4Spec
  import opened Stat4Order
  import opened Stat4Invariant
  import opened Stat4Offer
  import opened Stat4Push
  import opened Stat4Fill
  import opened Stat4Run
  import opened Stat4Theorems

  // ----- rows as they compete -----

  /** The pseudo-random number after `n` rows. */
  function Prn(seed: nat, n: nat): nat {
    if n == 0 then seed else NextPrn(Prn(seed, n - 1))
  }

  /** Row `q` at the time it was pushed: how many rows of its groups there were, and
      its hash. */
  function RowSample(nCol: nat, seed: nat, c: seq<nat>, q: nat): (s: Sample)
    requires nCol > 0 && q < |c| && c[0] == 0
    ensures s.Shaped(nCol) && s.iHash == Prn(seed, q + 1)
    ensures forall m :: 0 <= m < nCol ==> s.anEq[m] == q + 1 - Start(c, q, m)
  {
    Sample(seq(nCol, m requires 0 <= m < nCol => q + 1 - Start(c, q, m)),
           Zeros(nCol), Zeros(nCol), IntRowid(0), false, 0, Prn(seed, q + 1))
  }

  predicate Ahead(nCol: nat, seed: nat, c: seq<nat>, q: nat, r: nat, j: nat)
    requires q < |c| && r < |c| && c[0] == 0 && j < nCol
  {
    BetterPost(nCol, RowSample(nCol, seed, c, q), RowSample(nCol, seed, c, r), j + 1)
  }

  /** Row `r` is ahead of every earlier row of its group, and no later one is ahead of it. */
  ghost predicate Chosen(nCol: nat, seed: nat, c: seq<nat>, r: nat, j: nat)
    requires r < |c| && c[0] == 0 && j < nCol
  {
    forall q :: 0 <= q < |c| && q != r && Start(c, q, j) == Start(c, r, j) ==>
      if q < r then Ahead(nCol, seed, c, r, q, j) else !Ahead(nCol, seed, c, q, r, j)
  }

  lemma SameRow(nCol: nat, seed: nat, c: seq<nat>, x: nat, q: nat)
    requires nCol > 0 && q < |c| && c[0] == 0
    ensures RowSample(nCol, seed, c + [x], q) == RowSample(nCol, seed, c, q)
  {
    forall m | 0 <= m < nCol ensures Start(c + [x], q, m) == Start(c, q, m) {
      Extend(c, x, q, m);
    }
    assert RowSample(nCol, seed, c + [x], q).anEq == RowSample(nCol, seed, c, q).anEq;
  }

  lemma SameAhead(nCol: nat, seed: nat, c: seq<nat>, x: nat, q: nat, r: nat, j: nat)
    requires q < |c| && r < |c| && c[0] == 0 && j < nCol
    ensures Ahead(nCol, seed, c + [x], q, r, j) == Ahead(nCol, seed, c, q, r, j)
  {
    SameRow(nCol, seed, c, x, q);
    SameRow(nCol, seed, c, x, r);
  }

  /** The first row of a group. */
  lemma ChosenAlone(nCol: nat, seed: nat, c: seq<nat>, x: nat, j: nat)
    requires (c == [] ==> x == 0) && (c != [] ==> c[0] == 0) && x <= j < nCol
    ensures Chosen(nCol, seed, c + [x], |c|, j)
  {
    assert (c + [x])[|c|] == x;
  }

  /** A row of the open group that is ahead of the candidate takes its place. */
  lemma ChosenNext(nCol: nat, seed: nat, c: seq<nat>, x: nat, r: nat, j: nat)
    requires c != [] && c[0] == 0 && r < |c| && j < nCol && j < x
    requires Start(c, r, j) == Start(c, |c| - 1, j) && Chosen(nCol, seed, c, r, j)
    ensures var d := c + [x];
            Chosen(nCol, seed, d, if Ahead(nCol, seed, d, |c|, r, j) then |c| else r, j)
  {
    hide Ahead;
    var d, k := c + [x], |c|;
    LastRow(c, x, j);
    Extend(c, x, r, j);
    var w := if Ahead(nCol, seed, d, k, r, j) then k else r;
    forall q | 0 <= q < |d| && q != w && Start(d, q, j) == Start(d, w, j)
      ensures if q < w then Ahead(nCol, seed, d, w, q, j) else !Ahead(nCol, seed, d, q, w, j)
    {
      if q < k {
        Extend(c, x, q, j);
        if q != r {
          SameAhead(nCol, seed, c, x, q, r, j);
          SameAhead(nCol, seed, c, x, r, q, j);
        }
        if w == k && q != r {
          NextBeats(nCol, seed, d, k, r, q, j);
        }
      }
    }
  }

  /** The new row is ahead of every row that is not ahead of the old candidate. */
  lemma NextBeats(nCol: nat, seed: nat, d: seq<nat>, k: nat, r: nat, q: nat, j: nat)
    requires k < |d| && r < |d| && q < |d| && d[0] == 0 && j < nCol && Ahead(nCol, seed, d, k, r, j)
    requires Ahead(nCol, seed, d, r, q, j) || !Ahead(nCol, seed, d, q, r, j)
    ensures Ahead(nCol, seed, d, k, q, j)
  {
    var sk, sr, sq := RowSample(nCol, seed, d, k), RowSample(nCol, seed, d, r), RowSample(nCol, seed, d, q);
    PostChain(nCol, sk, sr, sq, j + 1);
  }

  /** The choice in a group that has ended, or ends now, is final. */
  lemma ChosenEnds(nCol: nat, seed: nat, c: seq<nat>, x: nat, r: nat, j: nat)
    requires c != [] && c[0] == 0 && r < |c| && j < nCol && Chosen(nCol, seed, c, r, j)
    requires Open(c, r, j) ==> x <= j
    ensures Chosen(nCol, seed, c + [x], r, j) && !Open(c + [x], r, j)
  {
    hide Ahead;
    var d, k := c + [x], |c|;
    LastRow(c, x, j);
    Extend(c, x, r, j);
    OpenIsCurrent(c, r, j);
    forall q | 0 <= q < |d| && q != r && Start(d, q, j) == Start(d, r, j)
      ensures if q < r then Ahead(nCol, seed, d, r, q, j) else !Ahead(nCol, seed, d, q, r, j)
    {
      assert q < k;
      Extend(c, x, q, j);
      SameAhead(nCol, seed, c, x, q, r, j);
      SameAhead(nCol, seed, c, x, r, q, j);
    }
  }

  // ----- the candidates -----

  /** The candidate of column `i` is the chosen row of the open group. */
  ghost predicate BestChosen(p: Config, seed: nat, c: seq<nat>, b: Sample, i: nat) {
    && p.Valid() && b.Shaped(p.nCol) && i < p.nCol - 1 && c != [] && c[0] == 0
    && var r := RowOf(p, b);
       && r < |c| && b.iHash == Prn(seed, r + 1)
       && Chosen(p.nCol, seed, c, r, i)
  }

  ghost predicate AllChosen(p: Config, seed: nat, c: seq<nat>, best: seq<Sample>) {
    |best| == p.nCol && forall i :: 0 <= i < p.nCol - 1 ==> BestChosen(p, seed, c, best[i], i)
  }

  /** In the counts of columns from `i` on and in its hash, the sample is row `q`. */
  ghost predicate LikeRow(nCol: nat, seed: nat, c: seq<nat>, q: nat, s: Sample, i: nat)
    requires nCol > 0 && q < |c| && c[0] == 0
  {
    && s.Shaped(nCol) && s.iHash == Prn(seed, q + 1)
    && forall m :: i <= m < nCol ==> s.anEq[m] == RowSample(nCol, seed, c, q).anEq[m]
  }

  lemma {:induction false} LikeAhead(nCol: nat, seed: nat, c: seq<nat>, q: nat, r: nat, s: Sample, t: Sample, j: nat)
    requires q < |c| && r < |c| && c[0] == 0 && j < nCol
    requires LikeRow(nCol, seed, c, q, s, j + 1) && LikeRow(nCol, seed, c, r, t, j + 1)
    ensures BetterPost(nCol, s, t, j + 1) == Ahead(nCol, seed, c, q, r, j)
  {
    var sq, sr := RowSample(nCol, seed, c, q), RowSample(nCol, seed, c, r);
    LikeCounts(nCol, seed, c, q, s, j + 1);
    LikeCounts(nCol, seed, c, r, t, j + 1);
    assert Ahead(nCol, seed, c, q, r, j) == BetterPost(nCol, sq, sr, j + 1);
    hide RowSample, Prn, BetterPost, LikeRow, Ahead;
    FillPost(nCol, s, t, sq, sr, j + 1);
  }

  lemma LikeCounts(nCol: nat, seed: nat, c: seq<nat>, q: nat, s: Sample, i: nat)
    requires nCol > 0 && q < |c| && c[0] == 0 && LikeRow(nCol, seed, c, q, s, i)
    ensures var sq := RowSample(nCol, seed, c, q);
            s.Shaped(nCol) && sq.iHash == s.iHash && forall m :: i <= m < nCol ==> sq.anEq[m] == s.anEq[m]
  {
  }

  lemma CurrentIsRow(p: Config, seed: nat, c: seq<nat>, ids: seq<Rowid>, cur: Sample, i: nat)
    requires c != [] && CurrentOk(p, c, ids, cur) && cur.iHash == Prn(seed, |c|)
    ensures LikeRow(p.nCol, seed, c, |c| - 1, cur, i)
  {
  }

  lemma BestIsRow(p: Config, seed: nat, c: seq<nat>, ids: seq<Rowid>, b: Sample, i: nat)
    requires c != [] && BestOk(p, c, ids, b, i) && b.iHash == Prn(seed, RowOf(p, b) + 1)
    ensures LikeRow(p.nCol, seed, c, RowOf(p, b), b, i + 1)
  {
    forall m | i < m < p.nCol ensures b.anEq[m] == RowSample(p.nCol, seed, c, RowOf(p, b)).anEq[m] {
      assert b.anEq[m] == RowOf(p, b) + 1 - Start(c, RowOf(p, b), m);
    }
  }

  lemma LikeExtends(nCol: nat, seed: nat, c: seq<nat>, x: nat, q: nat, s: Sample, i: nat)
    requires nCol > 0 && q < |c| && c[0] == 0 && LikeRow(nCol, seed, c, q, s, i)
    ensures LikeRow(nCol, seed, c + [x], q, s, i)
  {
    SameRow(nCol, seed, c, x, q);
    hide RowSample;
  }

  lemma CompetesAsRow(p: Config, seed: nat, c: seq<nat>, ids: seq<Rowid>, x: nat, id: Rowid, b: Sample, cur: Sample, i: nat)
    requires c != [] && i < p.nCol - 1 && x < p.nCol && BestOk(p, c, ids, b, i) && BestChosen(p, seed, c, b, i)
    requires CurrentOk(p, c + [x], ids + [id], cur) && cur.iHash == Prn(seed, |c| + 1)
    ensures BetterPost(p.nCol, cur, b, i + 1) == Ahead(p.nCol, seed, c + [x], |c|, RowOf(p, b), i)
  {
    hide BestOk, CurrentOk, LikeRow, Chosen;
    CurrentIsRow(p, seed, c + [x], ids + [id], cur, i + 1);
    BestIsRow(p, seed, c, ids, b, i);
    LikeExtends(p.nCol, seed, c, x, RowOf(p, b), b, i + 1);
    LikeAhead(p.nCol, seed, c + [x], |c|, RowOf(p, b), cur, b, i);
  }

  lemma CompeteChosen(p: Config, seed: nat, c: seq<nat>, ids: seq<Rowid>, best: seq<Sample>, cur: Sample, x: nat, id: Rowid, i: nat)
    requires p.Valid() && |best| == p.nCol && AllShaped(best, p.nCol) && x < p.nCol && i < p.nCol - 1
    requires CurrentOk(p, c + [x], ids + [id], cur) && cur.iHash == Prn(seed, |c| + 1)
    requires c == [] ==> x == 0
    requires c != [] ==> BestOk(p, c, ids, best[i], i) && BestChosen(p, seed, c, best[i], i)
    ensures BestChosen(p, seed, c + [x], Compete(p, best, cur, x, p.nCol - 1)[i], i)
  {
    hide Compete, Chosen, Ahead, BestOk;
    var d, cand := c + [x], cur.(iCol := i);
    assert RowOf(p, cand) == |c| && d[0] == 0;
    if x <= i {
      ChosenAlone(p.nCol, seed, c, x, i);
    } else {
      SameLocation(p, d, ids + [id], cur, cand);
      ChosenNext(p.nCol, seed, c, x, RowOf(p, best[i]), i) by {
        BestGroup(p, c, ids, best[i], i);
      }
      CompetesAsRow(p, seed, c, ids, x, id, best[i], cand, i);
    }
  }

  lemma BestGroup(p: Config, c: seq<nat>, ids: seq<Rowid>, b: Sample, i: nat)
    requires c != [] && BestOk(p, c, ids, b, i)
    ensures Start(c, RowOf(p, b), i) == Start(c, |c| - 1, i)
  {
  }

  // ----- the stored samples -----

  /** A non-periodic sample was chosen in its group at the column it is credited to or
      a later one; that group has ended, or it is one of those that end at `x`. */
  ghost predicate StoredOk(p: Config, seed: nat, c: seq<nat>, s: Sample, x: nat) {
    && p.Valid() && s.Shaped(p.nCol) && c != [] && c[0] == 0 && RowOf(p, s) < |c|
    && (!s.isPSample ==> exists j :: ChosenAt(p, seed, c, RowOf(p, s), s.iCol, j, x))
  }

  ghost predicate ChosenAt(p: Config, seed: nat, c: seq<nat>, r: nat, iCol: nat, j: nat, x: nat)
    requires p.Valid() && r < |c| && c[0] == 0
  {
    iCol <= j < p.nCol - 1 && Chosen(p.nCol, seed, c, r, j) && (Open(c, r, j) ==> x <= j)
  }

  ghost predicate AllStored(p: Config, seed: nat, c: seq<nat>, a: seq<Sample>, x: nat) {
    forall t :: 0 <= t < |a| ==> StoredOk(p, seed, c, a[t], x)
  }

  /** Between pushes no stored sample was chosen in a group that is open. */
  lemma StoredAnyway(p: Config, seed: nat, c: seq<nat>, a: seq<Sample>, x: nat)
    requires p.Valid() && AllStored(p, seed, c, a, p.nCol - 1)
    ensures AllStored(p, seed, c, a, x)
  {
    hide Chosen;
    forall t | 0 <= t < |a| ensures StoredOk(p, seed, c, a[t], x) {
      var s := a[t];
      if !s.isPSample {
        var j :| ChosenAt(p, seed, c, RowOf(p, s), s.iCol, j, p.nCol - 1);
        assert ChosenAt(p, seed, c, RowOf(p, s), s.iCol, j, x);
      }
    }
  }

  lemma StoredEnds(p: Config, seed: nat, c: seq<nat>, s: Sample, f: Sample, x: nat, y: nat)
    requires StoredOk(p, seed, c, s, x) && f.Shaped(p.nCol) && x < p.nCol
    requires RowOf(p, f) == RowOf(p, s) && f.iCol == s.iCol && f.isPSample == s.isPSample
    ensures StoredOk(p, seed, c + [x], f, y)
  {
    hide Chosen;
    if !s.isPSample {
      var r := RowOf(p, s);
      var j :| ChosenAt(p, seed, c, r, s.iCol, j, x);
      ChosenEnds(p.nCol, seed, c, x, r, j);
      assert ChosenAt(p, seed, c + [x], r, f.iCol, j, y);
    }
  }

  lemma StoredUpgrade(p: Config, seed: nat, c: seq<nat>, o: Sample, n: Sample, x: nat)
    requires StoredOk(p, seed, c, o, x) && n.Shaped(p.nCol) && n.iCol < o.iCol && !o.isPSample && n.iCol < p.nCol - 1
    ensures StoredOk(p, seed, c, Upgrade(o, n), x)
  {
    hide Chosen;
    var u := Upgrade(o, n);
    var j :| ChosenAt(p, seed, c, RowOf(p, o), o.iCol, j, x);
    assert RowOf(p, u) == RowOf(p, o) && ChosenAt(p, seed, c, RowOf(p, u), u.iCol, j, x);
  }

  lemma StoredNew(p: Config, seed: nat, c: seq<nat>, b: Sample, i: nat, x: nat)
    requires BestChosen(p, seed, c, b, i) && !b.isPSample && b.iCol == i && x <= i
    ensures StoredOk(p, seed, c, Withhold(b, i), x)
  {
    hide Chosen;
    var w := Withhold(b, i);
    assert |w.anEq| == |b.anEq| && RowOf(p, w) == RowOf(p, b);
    assert ChosenAt(p, seed, c, RowOf(p, w), w.iCol, i, x);
  }

  lemma AppendStored(p: Config, seed: nat, c: seq<nat>, s: Accum, w: Sample, x: nat)
    requires s.Ready(p, if w.isPSample then 1 else 0) && w.Shaped(p.nCol)
    requires AllStored(p, seed, c, s.a, x) && StoredOk(p, seed, c, w, x)
    ensures AllStored(p, seed, c, Append(p, s, w).a, x)
  {
    hide StoredOk, NumPeriodic;
    var r := MakeRoom(p, s);
    forall t | 0 <= t < |r| ensures StoredOk(p, seed, c, r[t], x) {
      if |s.a| == p.mxSample {
        assert r[t] == s.a[if t < s.iMin then t else t + 1];
      }
    }
  }

  lemma InsertStored(p: Config, seed: nat, c: seq<nat>, ids: seq<Rowid>, s: Accum, n: nat, b: Sample, i: nat, x: nat)
    requires s.Ready(p, 0) && ArrayInv(p, c, ids, s, n, i) && i < p.nCol - 1 && x <= i
    requires BestOk(p, c, ids, b, i) && b.anEq[i] == |c| - Start(c, |c| - 1, i) && BestChosen(p, seed, c, b, i)
    requires AllStored(p, seed, c, s.a, x)
    ensures AllStored(p, seed, c, Insert(p, s, b, i).a, x)
  {
    hide StoredOk, BestChosen, NumPeriodic, Append, Upgrade;
    var z := s.(nMaxEqZero := if i > s.nMaxEqZero then i else s.nMaxEqZero);
    if !Blocked(z.a, p.nCol, i) {
      var u := Upgradable(z.a, p.nCol, i, 0);
      if u.Some? {
        AwaitingWorse(p, c, ids, z.a, b, i, u.value);
        StoredUpgrade(p, seed, c, z.a[u.value], b, x);
      } else {
        StoredNew(p, seed, c, b, i, x);
        AppendStored(p, seed, c, z, Withhold(b, i), x);
      }
    }
  }

  // ----- one push -----

  /** A candidate whose count at its own column has been brought up to date. */
  lemma SameChoice(p: Config, seed: nat, c: seq<nat>, b: Sample, f: Sample, i: nat)
    requires BestChosen(p, seed, c, b, i) && f == b.(anEq := f.anEq) && f.Shaped(p.nCol)
    ensures BestChosen(p, seed, c, f, i)
  {
  }

  lemma OfferChosen(p: Config, seed: nat, c: seq<nat>, ids: seq<Rowid>, s: Accum, i: nat, x: nat)
    requires s.Ready(p, 0) && Inv(p, c, ids, s, i) && i < p.nCol - 1 && x <= i
    requires AllChosen(p, seed, c, s.aBest) && AllStored(p, seed, c, s.a, x)
    ensures AllChosen(p, seed, c, Offer(p, s, i).aBest) && AllStored(p, seed, c, Offer(p, s, i).a, x)
  {
    hide ArrayInv, AllStored, BestChosen, Insert, Better, NumPeriodic;
    var b := Candidate(s, i);
    var z := s.(aBest := s.aBest[i := b]);
    CandidateBest(p, c, ids, s, i);
    ArrayInvFrame(p, c, ids, s, z, |c|, i);
    SameChoice(p, seed, c, s.aBest[i], b, i);
    if |s.a| < p.mxSample || Better(p.nCol, b, s.a[s.iMin]) {
      InsertStored(p, seed, c, ids, z, |c|, b, i, x);
    }
  }

  lemma {:induction false} OfferAllChosen(p: Config, seed: nat, c: seq<nat>, ids: seq<Rowid>, s: Accum, i: int, x: nat)
    requires s.Ready(p, 0) && Inv(p, c, ids, s, i) && x - 1 <= i < p.nCol - 1
    requires AllChosen(p, seed, c, s.aBest) && AllStored(p, seed, c, s.a, x)
    ensures var r := OfferAll(p, s, i, x); AllChosen(p, seed, c, r.aBest) && AllStored(p, seed, c, r.a, x)
    decreases i - x
  {
    hide Inv, Offer, AllChosen, AllStored;
    if i >= x {
      OfferKeeps(p, c, ids, s, i);
      OfferChosen(p, seed, c, ids, s, i, x);
      OfferAllChosen(p, seed, c, ids, Offer(p, s, i), i - 1, x);
    }
  }

  lemma FillStored(p: Config, seed: nat, c: seq<nat>, s: Accum, x: nat)
    requires s.Ready(p, 0) && x < p.nCol && AllStored(p, seed, c, s.a, x)
    ensures AllStored(p, seed, c + [x], Fill(p, s, x).a, p.nCol - 1)
  {
    hide StoredOk, NumPeriodic;
    var r := Fill(p, s, x);
    forall t | 0 <= t < |r.a| ensures StoredOk(p, seed, c + [x], r.a[t], p.nCol - 1) {
      StoredEnds(p, seed, c, s.a[t], r.a[t], x, p.nCol - 1) by {
        assert StoredOk(p, seed, c, s.a[t], x);
        assert s.a[t].Shaped(p.nCol) && r.a[t].Shaped(p.nCol);
      }
    }
  }

  /** Between pushes: the hash sequence, the candidates and the stored samples. */
  ghost predicate ChoiceInv(p: Config, seed: nat, c: seq<nat>, s: Accum) {
    && p.Valid() && s.iPrn == Prn(seed, |c|)
    && if c == [] then s.a == [] else AllChosen(p, seed, c, s.aBest) && AllStored(p, seed, c, s.a, p.nCol - 1)
  }

  lemma StoredPeriodic(p: Config, seed: nat, c: seq<nat>, ids: seq<Rowid>, cur: Sample)
    requires p.Valid() && c != [] && CurrentOk(p, c, ids, cur)
    ensures StoredOk(p, seed, c, Withhold(cur.(isPSample := true, iCol := 0), p.nCol - 1), p.nCol - 1)
  {
  }

  lemma PeriodicStored(p: Config, seed: nat, c: seq<nat>, ids: seq<Rowid>, s: Accum)
    requires p.Valid() && s.Shaped(p) && s.Ready(p, if Periodic(p, s.current.anLt[p.nCol-1]) then 1 else 0)
    requires c != [] && CurrentOk(p, c, ids, s.current) && AllStored(p, seed, c, s.a, p.nCol - 1)
    ensures AllStored(p, seed, c, AddPeriodic(p, s).a, p.nCol - 1)
  {
    hide AllStored, Append, Insert, NumPeriodic;
    if Periodic(p, s.current.anLt[p.nCol-1]) {
      var z := s.(nMaxEqZero := if p.nCol - 1 > s.nMaxEqZero then p.nCol - 1 else s.nMaxEqZero);
      AddPeriodicIs(p, s);
      StoredPeriodic(p, seed, c, ids, s.current);
      AppendStored(p, seed, c, z, Withhold(s.current.(isPSample := true, iCol := 0), p.nCol - 1), p.nCol - 1);
    }
  }

  lemma FinishChosen(p: Config, seed: nat, c: seq<nat>, ids: seq<Rowid>, s: Accum, x: nat, id: Rowid)
    requires p.Valid() && s.Shaped(p) && s.Ready(p, if Periodic(p, s.current.anLt[p.nCol-1]) then 1 else 0) && !s.current.isPSample
    requires x < p.nCol && (c == [] ==> x == 0)
    requires CurrentOk(p, c + [x], ids + [id], s.current) && s.current.iHash == s.iPrn == Prn(seed, |c| + 1)
    requires AllStored(p, seed, c + [x], s.a, p.nCol - 1)
    requires c != [] ==> BestsOk(p, c, ids, s.aBest) && AllChosen(p, seed, c, s.aBest)
    ensures ChoiceInv(p, seed, c + [x], UpdateBest(p, AddPeriodic(p, s), x))
  {
    hide AllStored, BestChosen, BestOk, Compete, CurrentOk;
    var d, ids' := c + [x], ids + [id];
    PeriodicStored(p, seed, d, ids', s);
    var a := AddPeriodic(p, s);
    CurrentColumn(p, d, ids', s.current, a.current.iCol);
    var best := Compete(p, a.aBest, a.current, x, p.nCol - 1);
    hide AddPeriodic;
    forall i | 0 <= i < p.nCol - 1 ensures BestChosen(p, seed, d, best[i], i) {
      CompeteChosen(p, seed, c, ids, a.aBest, a.current, x, id, i);
    }
  }

  lemma PushChosen(p: Config, seed: nat, c: seq<nat>, ids: seq<Rowid>, s: Accum, x: nat, id: Rowid)
    requires CanPush(p, s, x) && |c| == |ids| == s.nRow && x < p.nCol && ChoiceInv(p, seed, c, s)
    requires c == [] ==> x == 0 && s.current.anLt == Zeros(p.nCol) && s.current.anDLt == Zeros(p.nCol)
    requires c != [] ==> Inv(p, c, ids, s, p.nCol - 2)
    ensures ChoiceInv(p, seed, c + [x], Push(p, s, x, id))
  {
    hide CurrentOk, BestsOk, AddPeriodic, UpdateBest, OfferAll, Fill, AllStored, AllChosen, ArrayInv;
    if c == [] {
      assert c + [x] == [0] && ids + [id] == [id];
      FirstCurrent(p, s, id);
      NothingStored(p, seed, [0]);
      FinishChosen(p, seed, c, ids, Count(s, x, id), x, id);
    } else {
      StoredAnyway(p, seed, c, s.a, x);
      OfferAllChosen(p, seed, c, ids, s, p.nCol - 2, x);
      OfferAllKeeps(p, c, ids, s, p.nCol - 2, x);
      var o := OfferAll(p, s, p.nCol - 2, x);
      FillStored(p, seed, c, o, x);
      var f := Fill(p, o, x);
      assert f == PushPrevious(p, s, x);
      NextCurrent(p, c, ids, f, x, id);
      FinishChosen(p, seed, c, ids, Count(f, x, id), x, id);
    }
  }

  lemma NothingStored(p: Config, seed: nat, c: seq<nat>)
    requires p.Valid()
    ensures AllStored(p, seed, c, [], p.nCol - 1)
  {
  }

  // ----- the whole scan -----

  lemma LastPush(p: Config, seed: nat, c: seq<nat>, ids: seq<Rowid>)
    requires p.Valid() && |c| == |ids| && History(c, p.nCol) && |c| / p.nPSample < p.mxSample && c != []
    ensures var n := |c| - 1; var d, e := c[..n], ids[..n];
            && c == d + [c[n]] && ids == e + [ids[n]] && n / p.nPSample < p.mxSample
            && History(d, p.nCol) && c[n] < p.nCol && (n == 0 ==> c[n] == 0)
            && var s := Scan(p, seed, d, e);
               && CanPush(p, s, c[n]) && s.nRow == n && Scan(p, seed, c, ids) == Push(p, s, c[n], ids[n])
               && (n == 0 ==> s.current.anLt == Zeros(p.nCol) && s.current.anDLt == Zeros(p.nCol))
  {
    hide Push, CanPush;
    var n := |c| - 1;
    PeriodicMonotone(p, n, |c|);
    PushLast(p, n, Scan(p, seed, c[..n], ids[..n]), c[n], ids[n]);
  }

  lemma NoneChosen(p: Config, seed: nat)
    requires p.Valid()
    ensures ChoiceInv(p, seed, [], Scan(p, seed, [], []))
  {
  }

  lemma {:induction false} ScanChosen(p: Config, seed: nat, c: seq<nat>, ids: seq<Rowid>)
    requires p.Valid() && |c| == |ids| && History(c, p.nCol) && |c| / p.nPSample < p.mxSample
    ensures ChoiceInv(p, seed, c, Scan(p, seed, c, ids))
  {
    hide Inv, Push, CanPush, ChoiceInv, Scan, LastColumn, History, Accum.Ready, Zeros, Periodic;
    if c == [] {
      NoneChosen(p, seed);
    } else {
      LastPush(p, seed, c, ids);
      ScanChosen(p, seed, c[..|c|-1], ids[..|c|-1]);
      LastChosen(p, seed, c, ids);
    }
  }

  lemma LastChosen(p: Config, seed: nat, c: seq<nat>, ids: seq<Rowid>)
    requires p.Valid() && |c| == |ids| && History(c, p.nCol) && |c| / p.nPSample < p.mxSample && c != []
    requires var n := |c| - 1;
             && n / p.nPSample < p.mxSample && History(c[..n], p.nCol)
             && ChoiceInv(p, seed, c[..n], Scan(p, seed, c[..n], ids[..n]))
    ensures ChoiceInv(p, seed, c, Scan(p, seed, c, ids))
  {
    LastPush(p, seed, c, ids);
    hide Inv, Push, CanPush, ChoiceInv, Scan, LastColumn, History, Accum.Ready, Zeros, Periodic;
    var n := |c| - 1;
    var d, e := c[..n], ids[..n];
    if n > 0 {
      ScanInv(p, seed, d, e);
    }
    PushChosen(p, seed, d, e, Scan(p, seed, d, e), c[n], ids[n]);
  }

  /** The same after the last flush. */
  lemma FlushChosen(p: Config, seed: nat, c: seq<nat>, ids: seq<Rowid>, s: Accum)
    requires c != [] && s.Ready(p, 0) && Inv(p, c, ids, s, p.nCol - 2) && ChoiceInv(p, seed, c, s)
    ensures AllStored(p, seed, c + [0], PushPrevious(p, s, 0).a, p.nCol - 1)
  {
    hide Inv, OfferAll, Fill, AllStored, AllChosen;
    StoredAnyway(p, seed, c, s.a, 0);
    OfferAllChosen(p, seed, c, ids, s, p.nCol - 2, 0);
    FillStored(p, seed, c, OfferAll(p, s, p.nCol - 2, 0), 0);
  }

  // ----- what that means for the rows of the index -----

  /** The number of rows up to row `q` that share its first m+1 columns. */
  ghost function Running(rows: seq<Row>, nCol: nat, q: nat, m: nat): nat
    requires IndexOrder(rows, nCol) && q < |rows| && m < nCol
  {
    |set t | 0 <= t <= q && SamePrefix(rows[t].key, rows[q].key, m)|
  }

  ghost function Runnings(rows: seq<Row>, nCol: nat, q: nat): (u: seq<nat>)
    requires IndexOrder(rows, nCol) && q < |rows|
    ensures |u| == nCol && forall m :: 0 <= m < nCol ==> u[m] == Running(rows, nCol, q, m)
  {
    seq(nCol, m requires 0 <= m < nCol => Running(rows, nCol, q, m))
  }

  /** Row `q` goes before row `r` as the sample of a group at column `j`: at the first
      later column where their running counts differ its count is larger, or they
      never differ and its pseudo-random number is larger. */
  ghost predicate Beats(rows: seq<Row>, nCol: nat, seed: nat, q: nat, r: nat, j: nat)
    requires IndexOrder(rows, nCol) && q < |rows| && r < |rows| && j < nCol
  {
    Larger(Runnings(rows, nCol, q), Runnings(rows, nCol, r), j + 1, Prn(seed, q + 1), Prn(seed, r + 1))
  }

  /** Row `r` stands out among all rows of the index that share its first j+1 columns. */
  ghost predicate Outstanding(rows: seq<Row>, nCol: nat, seed: nat, r: nat, j: nat)
    requires IndexOrder(rows, nCol) && r < |rows| && j < nCol
  {
    forall q :: 0 <= q < |rows| && q != r && SamePrefix(rows[q].key, rows[r].key, j) ==>
      if q < r then Beats(rows, nCol, seed, r, q, j) else !Beats(rows, nCol, seed, q, r, j)
  }

  lemma RunningIs(rows: seq<Row>, nCol: nat, c: seq<nat>, q: nat, m: nat)
    requires IndexOrder(rows, nCol) && Tracks(rows, nCol, c) && q < |rows| && m < nCol
    ensures Running(rows, nCol, q, m) == q + 1 - Start(c, q, m)
  {
    forall t | 0 <= t <= q ensures SamePrefix(rows[t].key, rows[q].key, m) <==> Start(c, q, m) <= t {
      PrefixByGroup(rows, nCol, c, t, q, m);
    }
    assert (set t | 0 <= t <= q && SamePrefix(rows[t].key, rows[q].key, m)) == Interval(Start(c, q, m), q + 1);
  }

  lemma BeatsIs(rows: seq<Row>, nCol: nat, seed: nat, c: seq<nat>, q: nat, r: nat, j: nat)
    requires IndexOrder(rows, nCol) && Tracks(rows, nCol, c) && q < |rows| && r < |rows| && j < nCol
    ensures Beats(rows, nCol, seed, q, r, j) <==> Ahead(nCol, seed, c, q, r, j)
  {
    hide Runnings, Running, RowSample, BetterPost, Larger, Prn;
    PostMeans(nCol, RowSample(nCol, seed, c, q), RowSample(nCol, seed, c, r), j + 1);
    RunningsAre(rows, nCol, seed, c, q);
    RunningsAre(rows, nCol, seed, c, r);
  }

  lemma RunningsAre(rows: seq<Row>, nCol: nat, seed: nat, c: seq<nat>, q: nat)
    requires IndexOrder(rows, nCol) && Tracks(rows, nCol, c) && q < |rows|
    ensures Runnings(rows, nCol, q) == RowSample(nCol, seed, c, q).anEq
  {
    forall m | 0 <= m < nCol ensures Running(rows, nCol, q, m) == q + 1 - Start(c, q, m) {
      RunningIs(rows, nCol, c, q, m);
    }
  }

  lemma ChosenMeans(rows: seq<Row>, nCol: nat, seed: nat, c: seq<nat>, r: nat, j: nat)
    requires IndexOrder(rows, nCol) && Tracks(rows, nCol, c) && r < |rows| && j < nCol
    requires Chosen(nCol, seed, c, r, j)
    ensures Outstanding(rows, nCol, seed, r, j)
  {
    hide Beats, Ahead, SamePrefix;
    forall q | 0 <= q < |rows| && q != r && SamePrefix(rows[q].key, rows[r].key, j)
      ensures if q < r then Beats(rows, nCol, seed, r, q, j) else !Beats(rows, nCol, seed, q, r, j)
    {
      GroupStarts(rows, nCol, c, q, r, j);
      BeatsIs(rows, nCol, seed, c, q, r, j);
      BeatsIs(rows, nCol, seed, c, r, q, j);
    }
  }

  lemma GroupStarts(rows: seq<Row>, nCol: nat, c: seq<nat>, q: nat, r: nat, j: nat)
    requires IndexOrder(rows, nCol) && Tracks(rows, nCol, c) && q < |rows| && r < |rows| && j < nCol
    requires SamePrefix(rows[q].key, rows[r].key, j)
    ensures Start(c, q, j) == Start(c, r, j)
  {
    PrefixByGroup(rows, nCol, c, q, r, j);
    if q < r { SameGroup(c, q, r, j); } else { SameGroup(c, r, q, j); }
  }

  lemma ChosenBefore(nCol: nat, seed: nat, c: seq<nat>, x: nat, r: nat, j: nat)
    requires r < |c| && c[0] == 0 && j < nCol && Chosen(nCol, seed, c + [x], r, j)
    ensures Chosen(nCol, seed, c, r, j)
  {
    hide Ahead;
    Extend(c, x, r, j);
    forall q | 0 <= q < |c| && q != r && Start(c, q, j) == Start(c, r, j)
      ensures if q < r then Ahead(nCol, seed, c, r, q, j) else !Ahead(nCol, seed, c, q, r, j)
    {
      Extend(c, x, q, j);
      SameAhead(nCol, seed, c, x, q, r, j);
      SameAhead(nCol, seed, c, x, r, q, j);
    }
  }

  /** After any part of the scan, the candidate of a column is the one row that stands
      out among the rows so far with the last row's prefix. */
  lemma CandidateStandsOut(rows: seq<Row>, nCol: nat, mxSample: nat, nRowHint: nat, seed: nat, i: nat)
    requires Analysed(rows, nCol, mxSample, nRowHint) && i < nCol - 1
    ensures var b := Accumulate(rows, nCol, mxSample, nRowHint, seed).aBest[i];
            var r := b.anLt[nCol-1];
            && r < |rows| && b.rowid == rows[r].rowid
            && SamePrefix(rows[r].key, rows[|rows|-1].key, i)
            && Outstanding(rows, nCol, seed, r, i)
  {
    var p, c, ids := Init(nCol, mxSample, nRowHint), Changes(rows, nCol), Ids(rows);
    hide Inv, ChoiceInv, Outstanding, Tracks, IndexOrder, Scan, Changes;
    ChangesTrack(rows, nCol);
    TracksHistory(rows, nCol, c);
    AccumulateInv(rows, nCol, mxSample, nRowHint, seed);
    ScanChosen(p, seed, c, ids);
    CandidateOf(p, seed, rows, nCol, c, ids, Scan(p, seed, c, ids), i);
  }

  lemma TracksHistory(rows: seq<Row>, nCol: nat, c: seq<nat>)
    requires IndexOrder(rows, nCol) && Tracks(rows, nCol, c)
    ensures |c| == |rows| && History(c, nCol)
  {
  }

  lemma CandidateOf(p: Config, seed: nat, rows: seq<Row>, nCol: nat, c: seq<nat>, ids: seq<Rowid>, s: Accum, i: nat)
    requires IndexOrder(rows, nCol) && Tracks(rows, nCol, c) && ids == Ids(rows) && rows != [] && i < nCol - 1
    requires p.Valid() && p.nCol == nCol && Inv(p, c, ids, s, nCol - 2) && ChoiceInv(p, seed, c, s)
    ensures |s.aBest| == nCol && |s.aBest[i].anLt| == nCol
    ensures var b := s.aBest[i];
            var r := b.anLt[nCol-1];
            && r < |rows| && b.rowid == rows[r].rowid
            && SamePrefix(rows[r].key, rows[|rows|-1].key, i)
            && Outstanding(rows, nCol, seed, r, i)
  {
    hide ArrayInv, CurrentOk, AllStored, Outstanding, Chosen, SamePrefix;
    var b := s.aBest[i];
    assert BestOk(p, c, ids, b, i) && BestChosen(p, seed, c, b, i);
    ChosenMeans(rows, nCol, seed, c, RowOf(p, b), i);
    SameStart(c, RowOf(p, b), |c| - 1, i);
    PrefixByGroup(rows, nCol, c, RowOf(p, b), |c| - 1, i);
  }

  /** Every stored sample that is not periodic is the row that stands out among all rows
      of the index that share its prefix, at the column it is credited to or a later
      one; the group at the credited column holds that group. */
  lemma SamplesStandOut(rows: seq<Row>, nCol: nat, mxSample: nat, nRowHint: nat, seed: nat, t: nat)
    requires Analysed(rows, nCol, mxSample, nRowHint)
    requires var a := Finished(rows, nCol, mxSample, nRowHint, seed).a; t < |a| && !a[t].isPSample
    ensures var s := Finished(rows, nCol, mxSample, nRowHint, seed).a[t];
            var r := s.anLt[nCol-1];
            r < |rows| && exists j :: s.iCol <= j < nCol - 1 && Outstanding(rows, nCol, seed, r, j)
  {
    var p, c, ids := Init(nCol, mxSample, nRowHint), Changes(rows, nCol), Ids(rows);
    hide Outstanding, Tracks, IndexOrder, Changes, ArrayInv, Finished, StoredOk, History;
    ChangesTrack(rows, nCol);
    FinishedInv(rows, nCol, mxSample, nRowHint, seed);
    FinishedStored(rows, nCol, mxSample, nRowHint, seed);
    StoredMeans(p, seed, rows, nCol, c, Finished(rows, nCol, mxSample, nRowHint, seed).a[t]);
  }

  lemma FinishedStored(rows: seq<Row>, nCol: nat, mxSample: nat, nRowHint: nat, seed: nat)
    requires Analysed(rows, nCol, mxSample, nRowHint)
    ensures AllStored(Init(nCol, mxSample, nRowHint), seed, Changes(rows, nCol) + [0],
                      Finished(rows, nCol, mxSample, nRowHint, seed).a, nCol - 1)
  {
    var p, c, ids := Init(nCol, mxSample, nRowHint), Changes(rows, nCol), Ids(rows);
    hide Inv, ChoiceInv, Tracks, IndexOrder, Scan, Changes, PushPrevious, AllStored, LastColumn;
    ChangesTrack(rows, nCol);
    TracksHistory(rows, nCol, c);
    AccumulateInv(rows, nCol, mxSample, nRowHint, seed);
    ScanChosen(p, seed, c, ids);
    FlushChosen(p, seed, c, ids, Scan(p, seed, c, ids));
  }

  lemma StoredMeans(p: Config, seed: nat, rows: seq<Row>, nCol: nat, c: seq<nat>, s: Sample)
    requires IndexOrder(rows, nCol) && Tracks(rows, nCol, c) && p.Valid() && p.nCol == nCol && !s.isPSample
    requires rows != [] && StoredOk(p, seed, c + [0], s, nCol - 1) && RowOf(p, s) < |rows|
    ensures exists j :: s.iCol <= j < nCol - 1 && Outstanding(rows, nCol, seed, RowOf(p, s), j)
  {
    hide Chosen, Outstanding;
    var r := RowOf(p, s);
    var j :| ChosenAt(p, seed, c + [0], r, s.iCol, j, nCol - 1);
    ChosenBefore(nCol, seed, c, 0, r, j);
    ChosenMeans(rows, nCol, seed, c, r, j);
  }
}

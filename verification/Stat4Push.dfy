/** Every step of a scan keeps the invariant. */
module Stat4Push {
  import opened Stat4Index
  import opened Stat4Spec
  import opened Seqs
  import opened Stat4Order
  import opened Stat4Invariant
  import opened Stat4Offer

  // ----- one candidate -----

  /** The only open group at column `i` is that of the last row. */
  lemma OpenGroup(c: seq<nat>, g: nat, i: nat)
    requires g < |c| && c[0] == 0 && c[g] <= i && Open(c, g, i)
    ensures g == Start(c, |c| - 1, i)
  {
    OpenIsCurrent(c, g, i);
  }

  lemma WeakenSamples(p: Config, c: seq<nat>, ids: seq<Rowid>, a: seq<Sample>, i: int)
    requires SamplesOk(p, c, ids, a, i)
    ensures SamplesOk(p, c, ids, a, i - 1)
  {
    var i' := i - 1;
    forall t | 0 <= t < |a| ensures SampleOk(p, c, ids, a[t], i') {
      WeakenSample(p, c, ids, a[t], i);
    }
  }

  /** From the invariant at column `i` to the one below, given that the group
      closing at `i` is represented and handled. */
  lemma StepDown(p: Config, c: seq<nat>, a: seq<Sample>, b: seq<Sample>, i: nat)
    requires p.Valid() && AllShaped(a, p.nCol) && AllShaped(b, p.nCol) && c != [] && c[0] == 0 && i < p.nCol - 1
    requires forall t :: 0 <= t < |a| ==> RowOf(p, a[t]) < |c|
    requires forall t :: 0 <= t < |b| ==> RowOf(p, b[t]) < |c|
    requires AllRepresented(p, c, a, i)
    requires forall g, j :: 0 <= g < |c| && 0 <= j < p.nCol - 1 && Represented(p, c, a, g, j) ==> Represented(p, c, b, g, j)
    requires Represented(p, c, b, Start(c, |c| - 1, i), i)
    ensures AllRepresented(p, c, b, i - 1)
  {
    forall g, j | 0 <= g < |c| && 0 <= j < p.nCol - 1 && c[g] <= j && (!Open(c, g, j) || j > i - 1)
      ensures Represented(p, c, b, g, j)
    {
      if Open(c, g, j) && j == i {
        OpenGroup(c, g, i);
      } else {
        assert Represented(p, c, a, g, j);
      }
    }
  }

  lemma SkipKeeps(p: Config, c: seq<nat>, ids: seq<Rowid>, s: Accum, n: nat, b: Sample, i: nat)
    requires s.Ready(p, 0) && ArrayInv(p, c, ids, s, n, i) && i < p.nCol - 1
    requires BestOk(p, c, ids, b, i) && b.anEq[i] == |c| - Start(c, |c| - 1, i)
    requires |s.a| == p.mxSample && !Better(p.nCol, b, s.a[s.iMin])
    ensures ArrayInv(p, c, ids, s, n, i - 1)
  {
    hide Better, BetterPost;
    var a, g := s.a, Start(c, |c| - 1, i);
    WeakenSamples(p, c, ids, a, i);
    forall t | 0 <= t < |a| && !a[t].isPSample
      ensures !Better(p.nCol, b, a[t]) && AtLeast(a[t], |c| - g, i)
    {
      BetterSplit(p.nCol, b, s.a[s.iMin], a[t]);
      NotBetterAtLeast(p.nCol, b, a[t]);
    }
    OpenIsCurrent(c, g, i);
    GroupEnd(c, |c| - 1, i);
    assert Represented(p, c, a, g, i);
    StepDown(p, c, a, a, i);
    if Awaits(a, p.nCol, i) {
      var x :| x in a && !x.isPSample && x.anEq[i] == 0;
      var t :| 0 <= t < |a| && a[t] == x;
      assert CountOk(p, c, x, i, i);
      OpenIsCurrent(c, RowOf(p, x), i);
      CreditWithin(p, c, ids, x, i, i);
      assert false;
    }
  }

  lemma BlockedKeeps(p: Config, c: seq<nat>, ids: seq<Rowid>, s: Accum, n: nat, i: nat)
    requires s.Ready(p, 0) && ArrayInv(p, c, ids, s, n, i) && i < p.nCol - 1
    requires Blocked(s.a, p.nCol, i)
    ensures ArrayInv(p, c, ids, s, n, i - 1)
  {
    var a, g := s.a, Start(c, |c| - 1, i);
    WeakenSamples(p, c, ids, a, i);
    var t :| 0 <= t < |a| && a[t].isPSample && a[t].anEq[i] == 0;
    assert CountOk(p, c, a[t], i, i);
    OpenIsCurrent(c, RowOf(p, a[t]), i);
    assert a[t] in a && StandsFor(p, c, a[t], i, g);
    StepDown(p, c, a, a, i);
  }

  /** The assertions on every sample that awaits the candidate's count and is not
      periodic: it is credited to a later column, and the candidate is better. */
  lemma AwaitingWorse(p: Config, c: seq<nat>, ids: seq<Rowid>, a: seq<Sample>, b: Sample, i: nat, t: nat)
    requires c != [] && SamplesOk(p, c, ids, a, i) && i < p.nCol - 1 && t < |a|
    requires BestOk(p, c, ids, b, i) && b.anEq[i] == |c| - Start(c, |c| - 1, i)
    requires !a[t].isPSample && a[t].anEq[i] == 0
    ensures i < a[t].iCol && Better(p.nCol, b, a[t])
  {
    var o := a[t];
    assert CountOk(p, c, o, i, i);
    OpenIsCurrent(c, RowOf(p, o), i);
    CreditWithin(p, c, ids, o, i, i);
  }

  lemma UpgradeTarget(p: Config, c: seq<nat>, ids: seq<Rowid>, s: Accum, n: nat, b: Sample, i: nat, u: nat)
    requires s.Ready(p, 0) && ArrayInv(p, c, ids, s, n, i) && i < p.nCol - 1
    requires BestOk(p, c, ids, b, i) && b.anEq[i] == |c| - Start(c, |c| - 1, i)
    requires !Blocked(s.a, p.nCol, i) && Upgradable(s.a, p.nCol, i, 0) == Some(u)
    ensures var o, v := s.a[u], Upgrade(s.a[u], b);
            && !o.isPSample && i < o.iCol
            && SampleOk(p, c, ids, v, i - 1)
            && AtLeast(v, o.anEq[o.iCol], o.iCol)
            && StandsFor(p, c, v, i, Start(c, |c| - 1, i))
  {
    var o := s.a[u];
    forall j | i < j < p.nCol ensures o.anEq[j] > 0 {
      assert CountOk(p, c, o, j, i);
      if j < p.nCol - 1 {
        TargetComplete(p, c, ids, s.a, u, i, j);
      }
    }
    UpgradedOk(p, c, ids, o, b, i);
    assert CountOk(p, c, o, i, i);
    OpenIsCurrent(c, RowOf(p, o), i);
    CreditWithin(p, c, ids, o, i, i);
  }

  /** What the clauses about groups need to know of a replaced sample. */
  ghost predicate Replaces(p: Config, c: seq<nat>, a: seq<Sample>, u: nat, v: Sample, i: nat) {
    && p.Valid() && AllShaped(a, p.nCol) && c != [] && c[0] == 0 && u < |a| && v.Shaped(p.nCol) && i < p.nCol - 1
    && !a[u].isPSample && !v.isPSample && RowOf(p, v) == RowOf(p, a[u]) && v.iCol <= a[u].iCol
    && (forall t :: 0 <= t < |a| ==> RowOf(p, a[t]) < |c|)
    && AtLeast(v, a[u].anEq[a[u].iCol], a[u].iCol)
    && StandsFor(p, c, v, i, Start(c, |c| - 1, i))
    && (forall j :: 0 <= j < p.nCol && v.anEq[j] == 0 ==> a[u].anEq[j] == 0)
  }

  lemma UpgradeGroups(p: Config, c: seq<nat>, a: seq<Sample>, u: nat, v: Sample, r: seq<Sample>, i: nat)
    requires Replaces(p, c, a, u, v, i) && r == a[u := v] && AllRepresented(p, c, a, i)
    requires forall j :: i < j < p.nCol - 1 ==> Handled(p, c, a, j)
    ensures AllRepresented(p, c, r, i - 1)
    ensures forall j :: i <= j < p.nCol - 1 ==> Handled(p, c, r, j)
  {
    forall g, j | 0 <= g < |c| && 0 <= j < p.nCol - 1 && Represented(p, c, a, g, j)
      ensures Represented(p, c, r, g, j)
    {
      RepresentedAfterUpgrade(p, c, a, u, v, g, j);
    }
    ReplaceMembers(a, u, v);
    StepDown(p, c, a, r, i);
    forall j | i <= j < p.nCol - 1 ensures Handled(p, c, r, j) {
      if j > i {
        HandledAfterUpgrade(p, c, a, u, v, j);
      }
    }
  }

  lemma UpgradeSamples(p: Config, c: seq<nat>, ids: seq<Rowid>, a: seq<Sample>, u: nat, v: Sample, r: seq<Sample>, z: nat, i: nat)
    requires Replaces(p, c, a, u, v, i) && r == a[u := v]
    requires SamplesOk(p, c, ids, a, i) && SampleOk(p, c, ids, v, i - 1) && Sorted(p, a) && ZeroBound(p, a, z)
    ensures SamplesOk(p, c, ids, r, i - 1) && Sorted(p, r) && ZeroBound(p, r, z)
  {
    WeakenSamples(p, c, ids, a, i);
  }

  lemma UpgradeKeeps(p: Config, c: seq<nat>, ids: seq<Rowid>, s: Accum, n: nat, b: Sample, i: nat, u: nat)
    requires s.Ready(p, 0) && ArrayInv(p, c, ids, s, n, i) && i < p.nCol - 1
    requires BestOk(p, c, ids, b, i) && b.anEq[i] == |c| - Start(c, |c| - 1, i)
    requires !Blocked(s.a, p.nCol, i) && Upgradable(s.a, p.nCol, i, 0) == Some(u)
    ensures ArrayInv(p, c, ids, UpgradeAt(p, s, u, b), n, i - 1)
  {
    var a, v := s.a, Upgrade(s.a[u], b);
    var r := a[u := v];
    UpgradeTarget(p, c, ids, s, n, b, i, u);
    UpgradeGroups(p, c, a, u, v, r, i);
    UpgradeSamples(p, c, ids, a, u, v, r, s.nMaxEqZero, i);
    UpgradePeriodicKept(p, a, u, v, n);
    NumPeriodicSame(a, r);
    RefindLeast(p, s.(a := r));
  }

  /** When no sample awaits a count at `i`, all lie before the open group there. */
  lemma AllBefore(p: Config, c: seq<nat>, ids: seq<Rowid>, a: seq<Sample>, i: nat)
    requires c != [] && SamplesOk(p, c, ids, a, i) && i < p.nCol - 1 && c[0] == 0
    requires Upgradable(a, p.nCol, i, 0).None?
    ensures forall t :: 0 <= t < |a| ==> RowOf(p, a[t]) < Start(c, |c| - 1, i)
    ensures forall t, j :: 0 <= t < |a| && i <= j < p.nCol ==> a[t].anEq[j] > 0
  {
    forall t | 0 <= t < |a| ensures RowOf(p, a[t]) < Start(c, |c| - 1, i) {
      assert CountOk(p, c, a[t], i, i);
      OpenIsCurrent(c, RowOf(p, a[t]), i);
    }
    forall t, j | 0 <= t < |a| && i <= j < p.nCol ensures a[t].anEq[j] > 0 {
      assert CountOk(p, c, a[t], i, i);
      assert CountOk(p, c, a[t], j, i);
      Nest(c, RowOf(p, a[t]), i, j);
    }
  }

  lemma AppendGroups(p: Config, c: seq<nat>, ids: seq<Rowid>, a: seq<Sample>, m: int, w: Sample, r: seq<Sample>, i: nat)
    requires Appended(p, a, m, w, r) && c != [] && c[0] == 0 && i < p.nCol - 1
    requires SamplesOk(p, c, ids, a, i) && MinLeast(p, a, m) && RowOf(p, w) < |c|
    requires |a| == p.mxSample ==> AtLeast(w, a[m].anEq[a[m].iCol], a[m].iCol)
    requires forall t, j :: 0 <= t < |a| && i <= j < p.nCol ==> a[t].anEq[j] > 0
    requires forall j :: i <= j < p.nCol ==> w.anEq[j] > 0
    requires AllRepresented(p, c, a, i) && StandsFor(p, c, w, i, Start(c, |c| - 1, i))
    requires forall t :: 0 <= t < |r| ==> RowOf(p, r[t]) < |c|
    ensures AllRepresented(p, c, r, i - 1)
    ensures forall j :: i <= j < p.nCol - 1 ==> Handled(p, c, r, j)
  {
    forall g, j | 0 <= g < |c| && 0 <= j < p.nCol - 1 && Represented(p, c, a, g, j)
      ensures Represented(p, c, r, g, j)
    {
      RepresentedAfterAppend(p, c, ids, a, m, w, r, i, g, j);
    }
    StepDown(p, c, a, r, i);
  }

  lemma AppendKeeps(p: Config, c: seq<nat>, ids: seq<Rowid>, s: Accum, n: nat, b: Sample, i: nat)
    requires s.Ready(p, 0) && ArrayInv(p, c, ids, s, n, i) && i < p.nCol - 1 && s.nMaxEqZero >= i
    requires BestOk(p, c, ids, b, i) && b.anEq[i] == |c| - Start(c, |c| - 1, i)
    requires Upgradable(s.a, p.nCol, i, 0).None?
    requires |s.a| == p.mxSample ==> Better(p.nCol, b, s.a[s.iMin])
    ensures ArrayInv(p, c, ids, Append(p, s, Withhold(b, i)), n, i - 1)
  {
    var a, w, m := s.a, Withhold(b, i), s.iMin;
    var i' := i - 1;
    var r := Append(p, s, w).a;
    CandidateOk(p, c, ids, b, i);
    WeakenSamples(p, c, ids, a, i);
    AllBefore(p, c, ids, a, i);
    OpenIsCurrent(c, RowOf(p, w), i);
    AppendIs(p, s, w);
    AppendSamples(p, c, ids, a, m, w, r, i');
    AppendSorted(p, s, w);
    AppendPeriodicKept(p, a, m, w, r, n);
    AppendZeroBound(p, a, m, w, r, s.nMaxEqZero);
    AppendGroups(p, c, ids, a, m, w, r, i);
    NumPeriodicConcat(MakeRoom(p, s), [w]);
    RefindLeast(p, s.(a := r));
  }

  /** The aBest[] array and the bound on zeros play no part in the array's invariant. */
  lemma ArrayInvFrame(p: Config, c: seq<nat>, ids: seq<Rowid>, s: Accum, r: Accum, n: nat, i: int)
    requires p.Valid() && ArrayInv(p, c, ids, s, n, i) && r.Shaped(p)
    requires r.a == s.a && r.iMin == s.iMin && r.nMaxEqZero >= s.nMaxEqZero
    ensures ArrayInv(p, c, ids, r, n, i)
  {
  }

  lemma InsertKeeps(p: Config, c: seq<nat>, ids: seq<Rowid>, s: Accum, n: nat, b: Sample, i: nat)
    requires s.Ready(p, 0) && ArrayInv(p, c, ids, s, n, i) && i < p.nCol - 1
    requires BestOk(p, c, ids, b, i) && b.anEq[i] == |c| - Start(c, |c| - 1, i)
    requires |s.a| == p.mxSample ==> Better(p.nCol, b, s.a[s.iMin])
    ensures ArrayInv(p, c, ids, Insert(p, s, b, i), n, i - 1)
  {
    var z := s.(nMaxEqZero := if i > s.nMaxEqZero then i else s.nMaxEqZero);
    ArrayInvFrame(p, c, ids, s, z, n, i);
    var u := Upgradable(z.a, p.nCol, i, 0);
    if Blocked(z.a, p.nCol, i) {
      BlockedKeeps(p, c, ids, z, n, i);
    } else if u.Some? {
      UpgradeKeeps(p, c, ids, z, n, b, i, u.value);
    } else {
      AppendKeeps(p, c, ids, z, n, b, i);
    }
  }

  lemma OfferKeeps(p: Config, c: seq<nat>, ids: seq<Rowid>, s: Accum, i: nat)
    requires s.Ready(p, 0) && Inv(p, c, ids, s, i) && i < p.nCol - 1
    ensures Inv(p, c, ids, Offer(p, s, i), i - 1)
  {
    var b := Candidate(s, i);
    var z := s.(aBest := s.aBest[i := b]);
    CandidateBest(p, c, ids, s, i);
    ArrayInvFrame(p, c, ids, s, z, |c|, i);
    if |s.a| < p.mxSample || Better(p.nCol, b, s.a[s.iMin]) {
      InsertKeeps(p, c, ids, z, |c|, b, i);
    } else {
      SkipKeeps(p, c, ids, z, |c|, b, i);
    }
  }

  lemma {:induction false} OfferAllKeeps(p: Config, c: seq<nat>, ids: seq<Rowid>, s: Accum, i: int, iChng: nat)
    requires s.Ready(p, 0) && Inv(p, c, ids, s, i) && iChng - 1 <= i < p.nCol - 1
    ensures Inv(p, c, ids, OfferAll(p, s, i, iChng), iChng - 1)
    decreases i - iChng
  {
    hide ArrayInv, Offer;
    if i >= iChng {
      OfferKeeps(p, c, ids, s, i);
      OfferAllKeeps(p, c, ids, Offer(p, s, i), i - 1, iChng);
    }
  }
}

/** The STAT4 accumulator on values: what one stat_push() and the final flush
    do to the running counts, the per-column candidates and the sample array. */
module Stat4Spec {
  import opened Stat4Index
  import opened Seqs

  /** Sizes fixed by stat_init(). */
  datatype Config = Config(nCol: nat, mxSample: nat, nPSample: nat) {
    predicate Valid() {
      nCol > 0 && mxSample > 0 && nPSample > 0
    }
  }

  /** stat_init(N,K,C): one periodic sample in every nPSample rows. */
  function Init(nCol: nat, mxSample: nat, nRowHint: nat): (p: Config)
    requires nCol > 0 && mxSample > 0
    ensures p.Valid()
  {
    Config(nCol, mxSample, nRowHint / (mxSample / 3 + 1) + 1)
  }

  datatype Sample = Sample(
    anEq: seq<nat>, anLt: seq<nat>, anDLt: seq<nat>,
    rowid: Rowid, isPSample: bool, iCol: nat, iHash: nat)
  {
    predicate Shaped(nCol: nat) {
      |anEq| == |anLt| == |anDLt| == nCol && iCol < nCol
    }
  }

  datatype Accum = Accum(
    nRow: nat, current: Sample, iPrn: nat,
    aBest: seq<Sample>, a: seq<Sample>, iMin: int, nMaxEqZero: nat)
  {
    predicate Shaped(p: Config) {
      && current.Shaped(p.nCol)
      && |aBest| == p.nCol && (forall i :: 0 <= i < p.nCol ==> aBest[i].Shaped(p.nCol))
      && |a| <= p.mxSample && (forall i :: 0 <= i < |a| ==> a[i].Shaped(p.nCol))
      && (forall i :: 0 <= i < p.nCol ==> aBest[i].iCol == i && !aBest[i].isPSample)
    }

    /** The victim of the next insertion, if it needs one, is a non-periodic sample. */
    predicate MinValid(p: Config) {
      |a| == p.mxSample ==> 0 <= iMin < |a| && !a[iMin].isPSample
    }

    /** `extra` more periodic samples still leave a non-periodic one to evict. */
    predicate Ready(p: Config, extra: nat) {
      p.Valid() && Shaped(p) && MinValid(p) && NumPeriodic(a) + extra < p.mxSample
    }
  }

  // ----- counting periodic samples -----

  function NumPeriodic(a: seq<Sample>): nat {
    if |a| == 0 then 0 else NumPeriodic(a[..|a|-1]) + (if a[|a|-1].isPSample then 1 else 0)
  }

  lemma {:induction false} NumPeriodicConcat(a: seq<Sample>, b: seq<Sample>)
    ensures NumPeriodic(a + b) == NumPeriodic(a) + NumPeriodic(b)
  {
    if |b| == 0 {
      assert a + b == a;
    } else {
      assert (a + b)[..|a+b|-1] == a + b[..|b|-1];
      NumPeriodicConcat(a, b[..|b|-1]);
    }
  }

  lemma NumPeriodicRemove(a: seq<Sample>, i: int)
    requires 0 <= i < |a| && !a[i].isPSample
    ensures NumPeriodic(RemoveAt(a, i)) == NumPeriodic(a)
  {
    hide RemoveAt;
    SplitAt(a, i);
    NumPeriodicConcat(a[..i], [a[i]] + a[i+1..]);
    NumPeriodicConcat([a[i]], a[i+1..]);
    NumPeriodicConcat(a[..i], a[i+1..]);
  }

  lemma SplitAt(a: seq<Sample>, i: int)
    requires 0 <= i < |a|
    ensures a == a[..i] + ([a[i]] + a[i+1..]) && RemoveAt(a, i) == a[..i] + a[i+1..]
  {
  }

  lemma {:induction false} NumPeriodicSame(a: seq<Sample>, b: seq<Sample>)
    requires |a| == |b| && forall i :: 0 <= i < |a| ==> a[i].isPSample == b[i].isPSample
    ensures NumPeriodic(a) == NumPeriodic(b)
  {
    if |a| > 0 {
      NumPeriodicSame(a[..|a|-1], b[..|b|-1]);
    }
  }

  lemma {:induction false} NumPeriodicAll(a: seq<Sample>)
    requires forall i :: 0 <= i < |a| ==> a[i].isPSample
    ensures NumPeriodic(a) == |a|
  {
    if |a| > 0 {
      NumPeriodicAll(a[..|a|-1]);
    }
  }

  function Zeros(n: nat): seq<nat> {
    seq(n, i => 0)
  }

  function Empty(p: Config, seed: nat): (s: Accum)
    requires p.Valid()
    ensures s.Shaped(p)
  {
    var z := Zeros(p.nCol);
    Accum(0, Sample(z, z, z, IntRowid(0), false, 0, 0), seed,
          seq(p.nCol, i requires 0 <= i < p.nCol => Sample(z, z, z, IntRowid(0), false, i, 0)), [], 0, 0)
  }

  // ----- preference between samples -----

  predicate BetterPost(nCol: nat, n: Sample, o: Sample, i: nat)
    requires n.Shaped(nCol) && o.Shaped(nCol) && i <= nCol
    decreases nCol - i
  {
    if i == nCol then n.iHash > o.iHash
    else if n.anEq[i] != o.anEq[i] then n.anEq[i] > o.anEq[i]
    else BetterPost(nCol, n, o, i + 1)
  }

  predicate Better(nCol: nat, n: Sample, o: Sample)
    requires n.Shaped(nCol) && o.Shaped(nCol)
  {
    var nNew, nOld := n.anEq[n.iCol], o.anEq[o.iCol];
    || nNew > nOld
    || (nNew == nOld && n.iCol < o.iCol)
    || (nNew == nOld && n.iCol == o.iCol && BetterPost(nCol, n, o, n.iCol + 1))
  }

  /** The sample with its first `n` equal-counts withheld, to be filled in later. */
  function Withhold(s: Sample, n: nat): Sample
    requires n <= |s.anEq|
  {
    s.(anEq := Zeros(n) + s.anEq[n..])
  }

  // ----- sampleInsert -----

  predicate AllShaped(a: seq<Sample>, nCol: nat) {
    forall i :: 0 <= i < |a| ==> a[i].Shaped(nCol)
  }

  /** A periodic sample already stands for the group that closes at `col`. */
  predicate Blocked(a: seq<Sample>, nCol: nat, col: nat)
    requires AllShaped(a, nCol) && col < nCol
  {
    exists i :: 0 <= i < |a| && a[i].isPSample && a[i].anEq[col] == 0
  }

  /** Best of the samples at positions lo.. that await a count at `col`. */
  function Upgradable(a: seq<Sample>, nCol: nat, col: nat, lo: nat): (u: Option<nat>)
    requires AllShaped(a, nCol) && col < nCol && lo <= |a|
    ensures u.Some? ==> lo <= u.value < |a| && a[u.value].anEq[col] == 0
    ensures u.None? ==> forall i :: lo <= i < |a| ==> a[i].anEq[col] != 0
    decreases |a| - lo
  {
    if lo == |a| then None
    else
      var u := Upgradable(a, nCol, col, lo + 1);
      if a[lo].anEq[col] == 0 && (u.None? || Better(nCol, a[lo], a[u.value])) then Some(lo) else u
  }

  /** Position of the least preferred non-periodic sample among the first `n`, or -1. */
  function LeastOf(a: seq<Sample>, nCol: nat, n: nat): (m: int)
    requires AllShaped(a, nCol) && n <= |a|
    ensures -1 <= m < n
    ensures m >= 0 ==> !a[m].isPSample
    ensures m < 0 ==> forall i :: 0 <= i < n ==> a[i].isPSample
  {
    if n == 0 then -1
    else
      var m := LeastOf(a, nCol, n - 1);
      if !a[n-1].isPSample && (m < 0 || Better(nCol, a[m], a[n-1])) then n - 1 else m
  }

  lemma LeastExists(a: seq<Sample>, nCol: nat)
    requires AllShaped(a, nCol) && NumPeriodic(a) < |a|
    ensures LeastOf(a, nCol, |a|) >= 0
  {
    if LeastOf(a, nCol, |a|) < 0 {
      NumPeriodicAll(a);
    }
  }

  /** Look for the next victim once the array is full. */
  function Refind(p: Config, s: Accum): (r: Accum)
    requires p.Valid() && s.Shaped(p) && NumPeriodic(s.a) < p.mxSample
    ensures r.Ready(p, 0) && r == s.(iMin := r.iMin)
  {
    if |s.a| >= p.mxSample then
      LeastExists(s.a, p.nCol);
      s.(iMin := LeastOf(s.a, p.nCol, |s.a|))
    else s
  }

  function Upgrade(o: Sample, n: Sample): Sample
    requires n.iCol < |n.anEq| && n.iCol < |o.anEq|
  {
    o.(iCol := n.iCol, anEq := o.anEq[n.iCol := n.anEq[n.iCol]])
  }

  /** The sample array after the victim, if one is needed, has gone. */
  function MakeRoom(p: Config, s: Accum): (r: seq<Sample>)
    requires s.Ready(p, 0)
    ensures |r| < p.mxSample && AllShaped(r, p.nCol) && NumPeriodic(r) == NumPeriodic(s.a)
  {
    if |s.a| == p.mxSample then
      NumPeriodicRemove(s.a, s.iMin);
      RemoveAt(s.a, s.iMin)
    else s.a
  }

  function UpgradeAt(p: Config, s: Accum, u: nat, n: Sample): (r: Accum)
    requires s.Ready(p, 0) && n.Shaped(p.nCol) && u < |s.a|
    ensures r.Ready(p, 0) && NumPeriodic(r.a) == NumPeriodic(s.a)
    ensures r == s.(a := r.a, iMin := r.iMin)
  {
    var a := s.a[u := Upgrade(s.a[u], n)];
    NumPeriodicSame(s.a, a);
    Refind(p, s.(a := a))
  }

  function Append(p: Config, s: Accum, n: Sample): (r: Accum)
    requires s.Ready(p, if n.isPSample then 1 else 0) && n.Shaped(p.nCol)
    ensures r.Ready(p, 0) && NumPeriodic(r.a) == NumPeriodic(s.a) + (if n.isPSample then 1 else 0)
    ensures r == s.(a := r.a, iMin := r.iMin)
  {
    var a := MakeRoom(p, s) + [n];
    NumPeriodicConcat(MakeRoom(p, s), [n]);
    Refind(p, s.(a := a))
  }

  function Insert(p: Config, s: Accum, n: Sample, nEqZero: nat): (r: Accum)
    requires s.Ready(p, if n.isPSample then 1 else 0) && n.Shaped(p.nCol) && nEqZero <= p.nCol
    ensures r.Ready(p, 0)
    ensures NumPeriodic(r.a) == NumPeriodic(s.a) + (if n.isPSample then 1 else 0)
    ensures r == s.(a := r.a, iMin := r.iMin, nMaxEqZero := r.nMaxEqZero)
  {
    var s := s.(nMaxEqZero := if nEqZero > s.nMaxEqZero then nEqZero else s.nMaxEqZero);
    if !n.isPSample && Blocked(s.a, p.nCol, n.iCol) then s
    else
      var u := if n.isPSample then None else Upgradable(s.a, p.nCol, n.iCol, 0);
      if u.Some? then UpgradeAt(p, s, u.value, n) else Append(p, s, Withhold(n, nEqZero))
  }

  /** Inserting a sample neither reads nor changes the current row. */
  lemma InsertIgnoresCurrent(p: Config, s: Accum, c: Sample, n: Sample, nEqZero: nat)
    requires s.Ready(p, if n.isPSample then 1 else 0) && n.Shaped(p.nCol) && nEqZero <= p.nCol && c.Shaped(p.nCol)
    ensures s.(current := c).Ready(p, if n.isPSample then 1 else 0)
    ensures Insert(p, s.(current := c), n, nEqZero) == Insert(p, s, n, nEqZero).(current := c)
  {
    hide NumPeriodic, Blocked, Upgradable, LeastOf;
  }

  // ----- samplePushPrevious -----

  /** Offer the column-`i` candidate, whose group closes with the row before. */
  function Offer(p: Config, s: Accum, i: nat): (r: Accum)
    requires s.Ready(p, 0) && i < p.nCol
    ensures r.Ready(p, 0) && NumPeriodic(r.a) == NumPeriodic(s.a)
    ensures r.nRow == s.nRow && r.current == s.current && r.iPrn == s.iPrn
  {
    var b := s.aBest[i].(anEq := s.aBest[i].anEq[i := s.current.anEq[i]]);
    var s := s.(aBest := s.aBest[i := b]);
    if |s.a| < p.mxSample || Better(p.nCol, b, s.a[s.iMin]) then Insert(p, s, b, i) else s
  }

  /** Offer the candidates of columns i, i-1, .. iChng. */
  function OfferAll(p: Config, s: Accum, i: int, iChng: nat): (r: Accum)
    requires s.Ready(p, 0) && i < p.nCol
    ensures r.Ready(p, 0) && NumPeriodic(r.a) == NumPeriodic(s.a)
    ensures r.nRow == s.nRow && r.current == s.current && r.iPrn == s.iPrn
    decreases i - iChng
  {
    if i < iChng then s else OfferAll(p, Offer(p, s, i), i - 1, iChng)
  }

  function FillSample(s: Sample, current: Sample, iChng: nat): (r: Sample)
    requires |s.anEq| == |current.anEq|
    ensures r == s.(anEq := r.anEq) && |r.anEq| == |s.anEq|
    ensures forall j :: 0 <= j < |s.anEq| ==>
      r.anEq[j] == if j >= iChng && s.anEq[j] == 0 then current.anEq[j] else s.anEq[j]
  {
    s.(anEq := seq(|s.anEq|, j requires 0 <= j < |s.anEq| =>
      if j >= iChng && s.anEq[j] == 0 then current.anEq[j] else s.anEq[j]))
  }

  /** Give every withheld count at columns iChng.. its final value. */
  function Fill(p: Config, s: Accum, iChng: nat): (r: Accum)
    requires s.Ready(p, 0)
    ensures r.Ready(p, 0) && NumPeriodic(r.a) == NumPeriodic(s.a)
    ensures r == s.(a := r.a, nMaxEqZero := r.nMaxEqZero)
  {
    if iChng < s.nMaxEqZero then
      var a := seq(|s.a|, t requires 0 <= t < |s.a| => FillSample(s.a[t], s.current, iChng));
      NumPeriodicSame(s.a, a);
      s.(a := a, nMaxEqZero := iChng)
    else s
  }

  function PushPrevious(p: Config, s: Accum, iChng: nat): (r: Accum)
    requires s.Ready(p, 0)
    ensures r.Ready(p, 0) && NumPeriodic(r.a) == NumPeriodic(s.a)
    ensures r.nRow == s.nRow && r.current == s.current && r.iPrn == s.iPrn
  {
    Fill(p, OfferAll(p, s, p.nCol - 2, iChng), iChng)
  }

  // ----- statPush: the running counts -----

  function Advance(c: Sample, nRow: nat, iChng: nat): (r: Sample)
    requires |c.anEq| == |c.anLt| == |c.anDLt|
    ensures r == c.(anEq := r.anEq, anLt := r.anLt, anDLt := r.anDLt)
    ensures |r.anEq| == |r.anLt| == |r.anDLt| == |c.anEq|
  {
    var n := |c.anEq|;
    if nRow == 0 then c.(anEq := seq(n, i => 1))
    else
      c.(anEq := seq(n, i requires 0 <= i < n => if i < iChng then c.anEq[i] + 1 else 1),
         anLt := seq(n, i requires 0 <= i < n => if i < iChng then c.anLt[i] else c.anLt[i] + c.anEq[i]),
         anDLt := seq(n, i requires 0 <= i < n => if i < iChng then c.anDLt[i] else c.anDLt[i] + 1))
  }

  lemma AdvanceAt(c: Sample, nRow: nat, iChng: nat, t: nat)
    requires |c.anEq| == |c.anLt| == |c.anDLt| && t < |c.anEq| && nRow > 0
    ensures var r := Advance(c, nRow, iChng);
            && r.anEq[t] == (if t < iChng then c.anEq[t] + 1 else 1)
            && r.anLt[t] == (if t < iChng then c.anLt[t] else c.anLt[t] + c.anEq[t])
            && r.anDLt[t] == (if t < iChng then c.anDLt[t] else c.anDLt[t] + 1)
  {
  }

  function NextPrn(iPrn: nat): nat {
    (iPrn * 1103515245 + 12345) % 0x1_0000_0000
  }

  /** Row number `nLt` (from 0) is a periodic one. */
  predicate Periodic(p: Config, nLt: nat)
    requires p.Valid()
  {
    nLt / p.nPSample != (nLt + 1) / p.nPSample
  }

  /** The candidates after the new row has competed for columns 0..n-1. */
  function Compete(p: Config, best: seq<Sample>, current: Sample, iChng: nat, n: nat): (r: seq<Sample>)
    requires |best| == p.nCol && AllShaped(best, p.nCol) && current.Shaped(p.nCol) && n <= p.nCol
    ensures |r| == p.nCol && AllShaped(r, p.nCol)
    ensures forall i :: n <= i < p.nCol ==> r[i] == best[i]
    ensures forall i :: 0 <= i < n ==>
      r[i] == if i >= iChng || BetterPost(p.nCol, current.(iCol := i), best[i], i + 1)
              then current.(iCol := i) else best[i]
  {
    if n == 0 then best
    else
      var r := Compete(p, best, current, iChng, n - 1);
      var cand := current.(iCol := n - 1);
      if n - 1 >= iChng || BetterPost(p.nCol, cand, best[n-1], n) then r[n-1 := cand] else r
  }

  /** Counting the row, after the groups that it closes have been dealt with. */
  function Count(s: Accum, iChng: nat, rowid: Rowid): (r: Accum)
    requires |s.current.anEq| == |s.current.anLt| == |s.current.anDLt|
    ensures r == s.(current := r.current, nRow := s.nRow + 1, iPrn := r.iPrn)
  {
    var prn := NextPrn(s.iPrn);
    s.(current := Advance(s.current, s.nRow, iChng).(rowid := rowid, iHash := prn),
       nRow := s.nRow + 1, iPrn := prn)
  }

  /** Add the row itself to the samples when it is a periodic one. */
  function AddPeriodic(p: Config, s: Accum): (r: Accum)
    requires p.Valid() && s.Shaped(p) && s.Ready(p, if Periodic(p, s.current.anLt[p.nCol-1]) then 1 else 0)
    ensures r.Ready(p, 0)
    ensures NumPeriodic(r.a) == NumPeriodic(s.a) + (if Periodic(p, s.current.anLt[p.nCol-1]) then 1 else 0)
    ensures r.nRow == s.nRow && r.current == s.current.(iCol := r.current.iCol)
    ensures r.aBest == s.aBest && r.iPrn == s.iPrn
  {
    if Periodic(p, s.current.anLt[p.nCol-1]) then
      Insert(p, s, s.current.(isPSample := true, iCol := 0), p.nCol - 1).(current := s.current.(iCol := 0))
    else s
  }

  function UpdateBest(p: Config, s: Accum, iChng: nat): (r: Accum)
    requires s.Ready(p, 0) && !s.current.isPSample
    ensures r.Ready(p, 0) && !r.current.isPSample
    ensures r == s.(current := s.current.(iCol := r.current.iCol), aBest := r.aBest)
  {
    s.(aBest := Compete(p, s.aBest, s.current, iChng, p.nCol - 1),
       current := if p.nCol > 1 then s.current.(iCol := p.nCol - 2) else s.current)
  }

  /** The row about to be pushed still leaves a sample to evict. */
  predicate CanPush(p: Config, s: Accum, iChng: nat) {
    && s.Ready(p, 0) && !s.current.isPSample
    && s.Ready(p, if Periodic(p, Advance(s.current, s.nRow, iChng).anLt[p.nCol-1]) then 1 else 0)
  }

  /** stat_push(P, iChng, rowid). */
  function Push(p: Config, s: Accum, iChng: nat, rowid: Rowid): (r: Accum)
    requires CanPush(p, s, iChng)
    ensures r.Ready(p, 0) && !r.current.isPSample && r.nRow == s.nRow + 1
    ensures var c := Advance(s.current, s.nRow, iChng);
            && NumPeriodic(r.a) == NumPeriodic(s.a) + (if Periodic(p, c.anLt[p.nCol-1]) then 1 else 0)
            && r.current.anEq == c.anEq && r.current.anLt == c.anLt && r.current.anDLt == c.anDLt
  {
    var flushed := if s.nRow == 0 then s else PushPrevious(p, s, iChng);
    UpdateBest(p, AddPeriodic(p, Count(flushed, iChng, rowid)), iChng)
  }
}

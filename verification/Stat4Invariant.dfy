/** What holds of the accumulator between and during calls, stated against the
    change columns `c` and the rowids `ids` of the rows pushed so far. */
module Stat4Invariant {
  import opened Stat4Index
  import opened Stat4Spec

  /** The row a sample was taken from: nothing lies between it and the rows
      that are smaller in all columns. */
  function RowOf(p: Config, s: Sample): nat
    requires p.Valid() && s.Shaped(p.nCol)
  {
    s.anLt[p.nCol-1]
  }

  /** The sample names a row of the scan, with exact less-than counts. */
  ghost predicate Located(p: Config, c: seq<nat>, ids: seq<Rowid>, s: Sample) {
    && p.Valid() && s.Shaped(p.nCol) && |ids| == |c| && History(c, p.nCol)
    && RowOf(p, s) < |c|
    && s.rowid == ids[RowOf(p, s)]
    && forall j :: 0 <= j < p.nCol ==> LocatedAt(p, c, s, j)
  }

  ghost predicate LocatedAt(p: Config, c: seq<nat>, s: Sample, j: nat)
    requires p.Valid() && s.Shaped(p.nCol) && j < p.nCol && RowOf(p, s) < |c| && c[0] == 0
  {
    var r := RowOf(p, s);
    s.anLt[j] == Start(c, r, j) && s.anDLt[j] == GroupNo(c, r, j)
  }

  /** A withheld count is that of a group still open; any other is exact.
      For columns up to `i` every open group's count is withheld. */
  ghost predicate CountOk(p: Config, c: seq<nat>, s: Sample, j: nat, i: int)
    requires p.Valid() && s.Shaped(p.nCol) && j < p.nCol && RowOf(p, s) < |c| && c[0] == 0
  {
    var r := RowOf(p, s);
    if s.anEq[j] == 0 then j < p.nCol - 1 && Open(c, r, j)
    else s.anEq[j] == End(c, r + 1, j) - Start(c, r, j) && (j <= i && j < p.nCol - 1 ==> !Open(c, r, j))
  }

  /** A non-periodic sample is credited to a column from which on nothing is withheld. */
  predicate RoleOk(p: Config, s: Sample)
    requires p.Valid() && s.Shaped(p.nCol)
  {
    !s.isPSample ==> s.iCol < p.nCol - 1 && forall j :: s.iCol <= j < p.nCol ==> s.anEq[j] > 0
  }

  ghost predicate SampleOk(p: Config, c: seq<nat>, ids: seq<Rowid>, s: Sample, i: int) {
    && Located(p, c, ids, s)
    && RoleOk(p, s)
    && (forall j :: 0 <= j < p.nCol ==> CountOk(p, c, s, j, i))
    && (s.isPSample ==> Periodic(p, RowOf(p, s)))
  }

  ghost predicate SamplesOk(p: Config, c: seq<nat>, ids: seq<Rowid>, a: seq<Sample>, i: int) {
    && p.Valid() && AllShaped(a, p.nCol)
    && forall t :: 0 <= t < |a| ==> SampleOk(p, c, ids, a[t], i)
  }

  /** The candidate of column `i` is in the group now open at column i, and was
      the last row of its group at column i+1. */
  ghost predicate BestOk(p: Config, c: seq<nat>, ids: seq<Rowid>, b: Sample, i: nat)
  {
    && Located(p, c, ids, b) && !b.isPSample && b.iCol == i && i < p.nCol - 1
    && var r := RowOf(p, b);
       && Start(c, r, i) == Start(c, |c| - 1, i)
       && (r + 1 < |c| ==> c[r+1] <= i + 1)
       && forall m :: i < m < p.nCol ==> b.anEq[m] == r + 1 - Start(c, r, m)
  }

  ghost predicate BestsOk(p: Config, c: seq<nat>, ids: seq<Rowid>, best: seq<Sample>) {
    |best| == p.nCol && forall b :: 0 <= b < p.nCol - 1 ==> BestOk(p, c, ids, best[b], b)
  }

  ghost predicate CurrentOk(p: Config, c: seq<nat>, ids: seq<Rowid>, s: Sample) {
    && Located(p, c, ids, s) && !s.isPSample && RowOf(p, s) == |c| - 1
    && forall j :: 0 <= j < p.nCol ==> s.anEq[j] == |c| - Start(c, |c| - 1, j)
  }

  ghost predicate Sorted(p: Config, a: seq<Sample>)
    requires p.Valid() && AllShaped(a, p.nCol)
  {
    forall t, u :: 0 <= t < u < |a| ==> RowOf(p, a[t]) < RowOf(p, a[u])
  }

  ghost predicate HasPeriodic(p: Config, a: seq<Sample>, r: nat)
    requires p.Valid() && AllShaped(a, p.nCol)
  {
    exists x :: x in a && x.isPSample && RowOf(p, x) == r
  }

  ghost predicate PeriodicKept(p: Config, n: nat, a: seq<Sample>)
    requires p.Valid() && AllShaped(a, p.nCol)
  {
    forall r :: 0 <= r < n && Periodic(p, r) ==> HasPeriodic(p, a, r)
  }

  ghost predicate ZeroBound(p: Config, a: seq<Sample>, m: nat)
    requires p.Valid() && AllShaped(a, p.nCol)
  {
    forall t, j :: 0 <= t < |a| && m <= j < p.nCol ==> a[t].anEq[j] > 0
  }

  /** The recorded victim is a least preferred non-periodic sample. */
  ghost predicate MinLeast(p: Config, a: seq<Sample>, iMin: int)
    requires AllShaped(a, p.nCol)
  {
    |a| == p.mxSample ==>
      && 0 <= iMin < |a| && !a[iMin].isPSample
      && forall t :: 0 <= t < |a| && !a[t].isPSample ==> !Better(p.nCol, a[iMin], a[t])
  }

  /** If a sample still awaits the count at `j`, which has been dealt with, then
      a periodic one or one credited to a column up to `j` stands for the group. */
  ghost predicate Awaits(a: seq<Sample>, nCol: nat, j: nat)
    requires AllShaped(a, nCol) && j < nCol
  {
    exists x :: x in a && !x.isPSample && x.anEq[j] == 0
  }

  ghost predicate StandsFor(p: Config, c: seq<nat>, s: Sample, j: nat, g: nat)
    requires p.Valid() && s.Shaped(p.nCol) && c != [] && c[0] == 0 && RowOf(p, s) < |c|
  {
    (s.isPSample || s.iCol <= j) && Start(c, RowOf(p, s), j) == g
  }

  ghost predicate Handled(p: Config, c: seq<nat>, a: seq<Sample>, j: nat)
    requires p.Valid() && AllShaped(a, p.nCol) && j < p.nCol && c != [] && c[0] == 0
    requires forall t :: 0 <= t < |a| ==> RowOf(p, a[t]) < |c|
  {
    Awaits(a, p.nCol, j) ==>
      exists x :: x in a && StandsFor(p, c, x, j, Start(c, |c| - 1, j))
  }

  // ----- which groups the samples stand for -----

  /** The group a sample is credited to has more rows than `n`, or as many and
      is at least as general as column `j`. */
  predicate AtLeast(s: Sample, n: int, j: nat)
    requires s.iCol < |s.anEq|
  {
    s.anEq[s.iCol] > n || (s.anEq[s.iCol] == n && s.iCol <= j)
  }

  /** The group of rows that starts at `g` for columns 0..j is sampled, or the
      array is full of samples for groups that are at least as frequent. */
  ghost predicate Represented(p: Config, c: seq<nat>, a: seq<Sample>, g: nat, j: nat)
    requires p.Valid() && AllShaped(a, p.nCol) && g < |c| && c[0] == 0
    requires forall t :: 0 <= t < |a| ==> RowOf(p, a[t]) < |c|
  {
    || (exists x :: x in a && StandsFor(p, c, x, j, g))
    || (|a| == p.mxSample && forall t :: 0 <= t < |a| && !a[t].isPSample ==> AtLeast(a[t], End(c, g + 1, j) - g, j))
  }

  /** Every group that has ended, or that ends with the last row at a column
      above `i`, is represented. */
  ghost predicate AllRepresented(p: Config, c: seq<nat>, a: seq<Sample>, i: int)
    requires p.Valid() && AllShaped(a, p.nCol) && c != [] && c[0] == 0
    requires forall t :: 0 <= t < |a| ==> RowOf(p, a[t]) < |c|
  {
    forall g, j :: 0 <= g < |c| && 0 <= j < p.nCol - 1 && c[g] <= j && (!Open(c, g, j) || j > i) ==>
      Represented(p, c, a, g, j)
  }

  /** The sample array, while the candidates of columns nCol-2 .. i+1 have been
      offered and the periodic rows below `n` have been added. */
  ghost predicate ArrayInv(p: Config, c: seq<nat>, ids: seq<Rowid>, s: Accum, n: nat, i: int) {
    && c != [] && s.Shaped(p) && History(c, p.nCol)
    && SamplesOk(p, c, ids, s.a, i)
    && Sorted(p, s.a)
    && PeriodicKept(p, n, s.a)
    && ZeroBound(p, s.a, s.nMaxEqZero)
    && MinLeast(p, s.a, s.iMin)
    && (forall j :: i < j < p.nCol - 1 && j >= 0 ==> Handled(p, c, s.a, j))
    && AllRepresented(p, c, s.a, i)
  }

  /** The whole accumulator; between pushes this holds with i == nCol-2. */
  ghost predicate Inv(p: Config, c: seq<nat>, ids: seq<Rowid>, s: Accum, i: int) {
    && ArrayInv(p, c, ids, s, |c|, i)
    && s.nRow == |c|
    && CurrentOk(p, c, ids, s.current)
    && BestsOk(p, c, ids, s.aBest)
  }
}

/** The index that ANALYZE scans, and the true statistics of it.

    A row is the sequence of its column values, reduced to integers that sort
    the way the column's collation sorts, followed in `rowid` by the value that
    identifies the row in the table.  The last column of an index entry is the
    rowid or primary key, so the rows of an index are strictly increasing. */
module Stat4Index {

  datatype Rowid = IntRowid(id: int) | KeyRowid(bytes: seq<int>)

  datatype Row = Row(key: seq<int>, rowid: Rowid)

  ghost predicate SamePrefix(u: seq<int>, v: seq<int>, j: nat)
    requires j < |u| && j < |v|
  {
    forall i :: 0 <= i <= j ==> u[i] == v[i]
  }

  ghost predicate LessPrefix(u: seq<int>, v: seq<int>, j: nat)
    requires j < |u| && j < |v|
  {
    exists d :: 0 <= d <= j && u[d] < v[d] && forall i :: 0 <= i < d ==> u[i] == v[i]
  }

  /** Rows of `nCol` columns each, in strictly increasing order. */
  ghost predicate IndexOrder(rows: seq<Row>, nCol: nat)
  {
    && nCol > 0
    && (forall k :: 0 <= k < |rows| ==> |rows[k].key| == nCol)
    && (forall k :: 0 < k < |rows| ==> Increases(rows, nCol, k))
  }

  ghost predicate Increases(rows: seq<Row>, nCol: nat, k: nat)
    requires nCol > 0 && (forall i :: 0 <= i < |rows| ==> |rows[i].key| == nCol)
    requires 0 < k < |rows|
  {
    LessPrefix(rows[k-1].key, rows[k].key, nCol - 1)
  }

  /** True statistics of row `r` at column `j`: how many rows share its
      (j+1)-column prefix, how many lie below it, and how many distinct
      prefixes lie below it. */
  ghost function TrueEq(rows: seq<Row>, nCol: nat, r: nat, j: nat): nat
    requires IndexOrder(rows, nCol) && r < |rows| && j < nCol
  {
    |set q | 0 <= q < |rows| && SamePrefix(rows[q].key, rows[r].key, j)|
  }

  ghost function TrueLt(rows: seq<Row>, nCol: nat, r: nat, j: nat): nat
    requires IndexOrder(rows, nCol) && r < |rows| && j < nCol
  {
    |set q | 0 <= q < |rows| && LessPrefix(rows[q].key, rows[r].key, j)|
  }

  ghost function TrueDLt(rows: seq<Row>, nCol: nat, r: nat, j: nat): nat
    requires IndexOrder(rows, nCol) && r < |rows| && j < nCol
  {
    |set q | 0 <= q < |rows| && LessPrefix(rows[q].key, rows[r].key, j) :: rows[q].key[..j+1]|
  }

  /** Number of distinct (j+1)-column prefixes in the whole index. */
  ghost function TrueDistinct(rows: seq<Row>, nCol: nat, j: nat): nat
    requires IndexOrder(rows, nCol) && j < nCol
  {
    |set q | 0 <= q < |rows| :: rows[q].key[..j+1]|
  }

  /** The column test that the ANALYZE program runs before each stat_push(): the
      first of the leading columns that differs, or the last column when none
      of them does. */
  function FirstDiff(u: seq<int>, v: seq<int>, i: nat): (d: nat)
    requires |u| == |v| && i < |u|
    ensures i <= d < |u|
    ensures forall t :: i <= t < d ==> u[t] == v[t]
    ensures d < |u| - 1 ==> u[d] != v[d]
    decreases |u| - i
  {
    if i == |u| - 1 || u[i] != v[i] then i else FirstDiff(u, v, i + 1)
  }

  /** The "leftmost changed column" argument of every stat_push() call. */
  function Changes(rows: seq<Row>, nCol: nat): (c: seq<nat>)
    requires forall k :: 0 <= k < |rows| ==> |rows[k].key| == nCol
    requires nCol > 0
    ensures |c| == |rows|
  {
    seq(|rows|, k requires 0 <= k < |rows| =>
      if k == 0 then 0 else FirstDiff(rows[k-1].key, rows[k].key, 0))
  }

  // ----- groups of rows with equal prefixes, read off the change columns -----

  /** Change columns of a non-empty scan. */
  predicate History(c: seq<nat>, nCol: nat)
  {
    && nCol > 0
    && (|c| > 0 ==> c[0] == 0)
    && forall k :: 0 <= k < |c| ==> c[k] < nCol
  }

  /** First row of the group that agrees with row `k` on columns 0..j. */
  function Start(c: seq<nat>, k: nat, j: nat): (s: nat)
    requires k < |c| && c[0] == 0
    ensures s <= k && c[s] <= j
    ensures forall t :: s < t <= k ==> c[t] > j
  {
    if c[k] <= j then k else Start(c, k - 1, j)
  }

  /** First row at or after `e` that opens a new group for columns 0..j. */
  function End(c: seq<nat>, e: nat, j: nat): (x: nat)
    requires e <= |c|
    ensures e <= x <= |c|
    ensures forall t :: e <= t < x ==> c[t] > j
    ensures x < |c| ==> c[x] <= j
    decreases |c| - e
  {
    if e == |c| || c[e] <= j then e else End(c, e + 1, j)
  }

  /** Number of groups for columns 0..j that start after row 0 and up to `k`. */
  function GroupNo(c: seq<nat>, k: nat, j: nat): nat
    requires k < |c|
  {
    if k == 0 then 0 else GroupNo(c, k - 1, j) + (if c[k] <= j then 1 else 0)
  }

  /** The group of row `r` at column `j` reaches the end of the scan so far. */
  predicate Open(c: seq<nat>, r: nat, j: nat)
    requires r < |c|
  {
    End(c, r + 1, j) == |c|
  }

  lemma {:induction false} GroupNoExtend(c: seq<nat>, x: nat, k: nat, j: nat)
    requires k < |c|
    ensures GroupNo(c + [x], k, j) == GroupNo(c, k, j)
  {
    if k > 0 {
      GroupNoExtend(c, x, k - 1, j);
    }
  }

  lemma GroupNoBounds(c: seq<nat>, k: nat, i: nat, j: nat)
    requires k < |c| && i <= j
    ensures GroupNo(c, k, i) <= GroupNo(c, k, j) <= k
  {
  }

  /** Rows of one group share the start, the end and the group number. */
  lemma {:induction false} SameGroup(c: seq<nat>, q: nat, r: nat, j: nat)
    requires q <= r < |c| && c[0] == 0
    requires forall t :: q < t <= r ==> c[t] > j
    ensures Start(c, q, j) == Start(c, r, j)
    ensures End(c, q + 1, j) == End(c, r + 1, j)
    ensures GroupNo(c, q, j) == GroupNo(c, r, j)
  {
    if q < r {
      SameGroup(c, q, r - 1, j);
    }
  }

  lemma GroupStart(c: seq<nat>, r: nat, j: nat)
    requires r < |c| && c[0] == 0
    ensures var s := Start(c, r, j);
            GroupNo(c, r, j) == if s == 0 then 0 else GroupNo(c, s - 1, j) + 1
  {
    SameGroup(c, Start(c, r, j), r, j);
  }

  // ----- the groups are the sets of rows with equal prefixes -----

  lemma LessTransitive(u: seq<int>, v: seq<int>, w: seq<int>, j: nat)
    requires j < |u| && j < |v| && j < |w|
    requires LessPrefix(u, v, j) || SamePrefix(u, v, j)
    requires LessPrefix(v, w, j) || SamePrefix(v, w, j)
    ensures LessPrefix(u, w, j) || SamePrefix(u, w, j)
    ensures LessPrefix(u, v, j) || LessPrefix(v, w, j) ==> LessPrefix(u, w, j)
  {
    if LessPrefix(u, v, j) {
      var d :| 0 <= d <= j && u[d] < v[d] && forall i :: 0 <= i < d ==> u[i] == v[i];
      if LessPrefix(v, w, j) {
        var e :| 0 <= e <= j && v[e] < w[e] && forall i :: 0 <= i < e ==> v[i] == w[i];
        var m := if d < e then d else e;
        assert u[m] < w[m];
      } else {
        assert u[d] < w[d];
      }
    } else if LessPrefix(v, w, j) {
      var e :| 0 <= e <= j && v[e] < w[e] && forall i :: 0 <= i < e ==> v[i] == w[i];
      assert u[e] < w[e];
    }
  }

  /** The change column decides how the (j+1)-prefixes of row k-1 and row k compare. */
  ghost predicate Neighbours(rows: seq<Row>, nCol: nat, c: seq<nat>, k: nat, j: nat)
    requires IndexOrder(rows, nCol) && 0 < k < |rows| == |c| && j < nCol
  {
    if c[k] > j then SamePrefix(rows[k-1].key, rows[k].key, j) else LessPrefix(rows[k-1].key, rows[k].key, j)
  }

  ghost predicate Tracks(rows: seq<Row>, nCol: nat, c: seq<nat>)
    requires IndexOrder(rows, nCol)
  {
    && |c| == |rows|
    && History(c, nCol)
    && forall k, j :: 0 < k < |rows| && 0 <= j < nCol ==> Neighbours(rows, nCol, c, k, j)
  }

  lemma ChangesTrack(rows: seq<Row>, nCol: nat)
    requires IndexOrder(rows, nCol)
    ensures Tracks(rows, nCol, Changes(rows, nCol))
  {
    var c := Changes(rows, nCol);
    forall k, j | 0 < k < |rows| && 0 <= j < nCol ensures Neighbours(rows, nCol, c, k, j) {
      assert Increases(rows, nCol, k);
      var u, v := rows[k-1].key, rows[k].key;
      var d :| 0 <= d <= nCol - 1 && u[d] < v[d] && forall i :: 0 <= i < d ==> u[i] == v[i];
      assert c[k] == FirstDiff(u, v, 0) == d;
    }
  }

  lemma {:induction false} PrefixOrder(rows: seq<Row>, nCol: nat, c: seq<nat>, q: nat, r: nat, j: nat)
    requires IndexOrder(rows, nCol) && Tracks(rows, nCol, c) && q <= r < |rows| && j < nCol
    ensures if exists t :: q < t <= r && c[t] <= j
            then LessPrefix(rows[q].key, rows[r].key, j)
            else SamePrefix(rows[q].key, rows[r].key, j)
  {
    if q < r {
      PrefixOrder(rows, nCol, c, q, r - 1, j);
      assert Neighbours(rows, nCol, c, r, j);
      LessTransitive(rows[q].key, rows[r-1].key, rows[r].key, j);
      if t :| q < t <= r - 1 && c[t] <= j {
        assert LessPrefix(rows[q].key, rows[r-1].key, j);
      } else {
        assert SamePrefix(rows[q].key, rows[r-1].key, j);
        if c[r] > j {
          assert !exists t :: q < t <= r && c[t] <= j;
        } else {
          assert exists t :: q < t <= r && c[t] <= j;
        }
      }
    }
  }

  lemma NotBoth(u: seq<int>, v: seq<int>, j: nat)
    requires j < |u| && j < |v|
    requires LessPrefix(u, v, j)
    ensures !SamePrefix(u, v, j) && !SamePrefix(v, u, j) && !LessPrefix(v, u, j)
  {
  }

  /** Row `q` shares row `r`'s prefix exactly when it lies in `r`'s group, and
      has a smaller prefix exactly when it lies before the group. */
  lemma PrefixByGroup(rows: seq<Row>, nCol: nat, c: seq<nat>, q: nat, r: nat, j: nat)
    requires IndexOrder(rows, nCol) && Tracks(rows, nCol, c)
    requires q < |rows| && r < |rows| && j < nCol
    ensures SamePrefix(rows[q].key, rows[r].key, j) <==> Start(c, r, j) <= q < End(c, r + 1, j)
    ensures LessPrefix(rows[q].key, rows[r].key, j) <==> q < Start(c, r, j)
  {
    var s, e := Start(c, r, j), End(c, r + 1, j);
    var u, v := rows[q].key, rows[r].key;
    if q <= r {
      PrefixOrder(rows, nCol, c, q, r, j);
      if q < s {
        assert q < s <= r && c[s] <= j;
        NotBoth(u, v, j);
      }
    } else {
      PrefixOrder(rows, nCol, c, r, q, j);
      if e <= q {
        assert r < e <= q && c[e] <= j;
        NotBoth(v, u, j);
      }
    }
  }

  ghost function Interval(a: nat, b: nat): (s: set<nat>)
    requires a <= b
    ensures forall q :: q in s <==> a <= q < b
    ensures |s| == b - a
  {
    if a == b then {} else Interval(a, b - 1) + {b - 1}
  }

  ghost function Prefixes(rows: seq<Row>, nCol: nat, b: nat, j: nat): set<seq<int>>
    requires IndexOrder(rows, nCol) && b <= |rows| && j < nCol
  {
    set q | 0 <= q < b :: rows[q].key[..j+1]
  }

  lemma SamePrefixIsEqual(rows: seq<Row>, nCol: nat, q: nat, r: nat, j: nat)
    requires IndexOrder(rows, nCol) && q < |rows| && r < |rows| && j < nCol
    ensures rows[q].key[..j+1] == rows[r].key[..j+1] <==> SamePrefix(rows[q].key, rows[r].key, j)
  {
    var u, v := rows[q].key[..j+1], rows[r].key[..j+1];
    if u == v {
      forall i | 0 <= i <= j ensures rows[q].key[i] == rows[r].key[i] {
        assert u[i] == v[i];
      }
    }
  }

  /** The first `b` rows have as many distinct prefixes as group starts. */
  lemma {:induction false} DistinctBelow(rows: seq<Row>, nCol: nat, c: seq<nat>, b: nat, j: nat)
    requires IndexOrder(rows, nCol) && Tracks(rows, nCol, c)
    requires b <= |rows| && j < nCol
    ensures |Prefixes(rows, nCol, b, j)| == if b == 0 then 0 else GroupNo(c, b - 1, j) + 1
  {
    hide SamePrefix, LessPrefix, Prefixes, Tracks;
    if b > 0 {
      var r := b - 1;
      DistinctBelow(rows, nCol, c, r, j);
      NextPrefix(rows, nCol, c, r, j);
      NextGroupNo(rows, nCol, c, r, j);
      var before, last := Prefixes(rows, nCol, r, j), rows[r].key[..j+1];
      if last in before {
        assert before + {last} == before;
      } else if r == 0 {
        NoPrefixes(rows, nCol, j);
      }
    } else {
      NoPrefixes(rows, nCol, j);
    }
  }

  lemma NoPrefixes(rows: seq<Row>, nCol: nat, j: nat)
    requires IndexOrder(rows, nCol) && j < nCol
    ensures |Prefixes(rows, nCol, 0, j)| == 0
  {
    assert Prefixes(rows, nCol, 0, j) == {};
  }

  /** A row brings a new prefix exactly when it starts a group. */
  lemma NextPrefix(rows: seq<Row>, nCol: nat, c: seq<nat>, r: nat, j: nat)
    requires IndexOrder(rows, nCol) && Tracks(rows, nCol, c) && r < |rows| && j < nCol
    ensures |c| == |rows|
    ensures var before, last := Prefixes(rows, nCol, r, j), rows[r].key[..j+1];
            && Prefixes(rows, nCol, r + 1, j) == before + {last}
            && (last in before <==> r > 0 && c[r] > j)
  {
    var before, last := Prefixes(rows, nCol, r, j), rows[r].key[..j+1];
    if r > 0 && c[r] > j {
      assert Neighbours(rows, nCol, c, r, j);
      SamePrefixIsEqual(rows, nCol, r - 1, r, j);
      assert last in before;
    } else if last in before {
      var q :| 0 <= q < r && rows[q].key[..j+1] == last;
      SamePrefixIsEqual(rows, nCol, q, r, j);
      PrefixByGroup(rows, nCol, c, q, r, j);
      assert false;
    }
  }

  lemma NextGroupNo(rows: seq<Row>, nCol: nat, c: seq<nat>, r: nat, j: nat)
    requires IndexOrder(rows, nCol) && Tracks(rows, nCol, c) && r < |rows| && j < nCol
    ensures r < |c| && GroupNo(c, r, j) == if r == 0 then 0 else GroupNo(c, r - 1, j) + (if c[r] > j then 0 else 1)
  {
  }

  /** The group boundaries are the true statistics. */
  lemma TrueCounts(rows: seq<Row>, nCol: nat, c: seq<nat>, r: nat, j: nat)
    requires IndexOrder(rows, nCol) && Tracks(rows, nCol, c)
    requires r < |rows| && j < nCol
    ensures TrueEq(rows, nCol, r, j) == End(c, r + 1, j) - Start(c, r, j)
    ensures TrueLt(rows, nCol, r, j) == Start(c, r, j)
  {
    var s, e := Start(c, r, j), End(c, r + 1, j);
    forall q | 0 <= q < |rows|
      ensures SamePrefix(rows[q].key, rows[r].key, j) <==> s <= q < e
      ensures LessPrefix(rows[q].key, rows[r].key, j) <==> q < s
    {
      PrefixByGroup(rows, nCol, c, q, r, j);
    }
    assert (set q | 0 <= q < |rows| && SamePrefix(rows[q].key, rows[r].key, j)) == Interval(s, e);
    assert (set q | 0 <= q < |rows| && LessPrefix(rows[q].key, rows[r].key, j)) == Interval(0, s);
  }

  lemma TrueDistinctCounts(rows: seq<Row>, nCol: nat, c: seq<nat>, r: nat, j: nat)
    requires IndexOrder(rows, nCol) && Tracks(rows, nCol, c)
    requires r < |rows| && j < nCol
    ensures TrueDLt(rows, nCol, r, j) == GroupNo(c, r, j)
    ensures TrueDistinct(rows, nCol, j) == GroupNo(c, |rows| - 1, j) + 1
  {
    var s := Start(c, r, j);
    var below := set q | 0 <= q < |rows| && LessPrefix(rows[q].key, rows[r].key, j) :: rows[q].key[..j+1];
    assert below == Prefixes(rows, nCol, s, j) by {
      forall q | 0 <= q < |rows|
        ensures LessPrefix(rows[q].key, rows[r].key, j) <==> q < s
      {
        PrefixByGroup(rows, nCol, c, q, r, j);
      }
    }
    DistinctBelow(rows, nCol, c, s, j);
    GroupStart(c, r, j);
    DistinctBelow(rows, nCol, c, |rows|, j);
  }
}

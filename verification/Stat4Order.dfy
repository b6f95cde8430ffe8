/** The preference between samples is a strict weak order, so the scans for an
    upgrade target and for a victim find a best and a least sample. */
module Stat4Order {
  import opened Stat4Spec

  lemma {:induction false} PostSplit(nCol: nat, x: Sample, y: Sample, z: Sample, i: nat)
    requires x.Shaped(nCol) && y.Shaped(nCol) && z.Shaped(nCol) && i <= nCol
    ensures BetterPost(nCol, x, z, i) ==> BetterPost(nCol, x, y, i) || BetterPost(nCol, y, z, i)
    decreases nCol - i
  {
    if i < nCol {
      PostSplit(nCol, x, y, z, i + 1);
    }
  }

  lemma {:induction false} PostAsymmetric(nCol: nat, x: Sample, y: Sample, i: nat)
    requires x.Shaped(nCol) && y.Shaped(nCol) && i <= nCol
    ensures !(BetterPost(nCol, x, y, i) && BetterPost(nCol, y, x, i))
    decreases nCol - i
  {
    if i < nCol {
      PostAsymmetric(nCol, x, y, i + 1);
    }
  }

  lemma PostChain(nCol: nat, x: Sample, y: Sample, z: Sample, i: nat)
    requires x.Shaped(nCol) && y.Shaped(nCol) && z.Shaped(nCol) && i <= nCol
    requires BetterPost(nCol, x, y, i) && (BetterPost(nCol, y, z, i) || !BetterPost(nCol, z, y, i))
    ensures BetterPost(nCol, x, z, i)
  {
    hide BetterPost;
    PostSplit(nCol, x, z, y, i);
    PostAsymmetric(nCol, y, z, i);
  }

  /** At the first column from `i` on where the counts `u` and `v` differ, `u` is larger;
      if they never differ, the hash of `u` is. */
  ghost predicate Larger(u: seq<nat>, v: seq<nat>, i: nat, hashU: nat, hashV: nat)
    requires |u| == |v|
  {
    || (exists m :: i <= m < |u| && u[m] > v[m] && forall k :: i <= k < m ==> u[k] == v[k])
    || ((forall k :: i <= k < |u| ==> u[k] == v[k]) && hashU > hashV)
  }

  lemma {:induction false} PostMeans(nCol: nat, n: Sample, o: Sample, i: nat)
    requires n.Shaped(nCol) && o.Shaped(nCol) && i <= nCol
    ensures BetterPost(nCol, n, o, i) <==> Larger(n.anEq, o.anEq, i, n.iHash, o.iHash)
    decreases nCol - i
  {
    if i < nCol && n.anEq[i] == o.anEq[i] {
      PostMeans(nCol, n, o, i + 1);
    }
  }

  lemma BetterSplit(nCol: nat, x: Sample, y: Sample, z: Sample)
    requires x.Shaped(nCol) && y.Shaped(nCol) && z.Shaped(nCol)
    ensures Better(nCol, x, z) ==> Better(nCol, x, y) || Better(nCol, y, z)
  {
    PostSplit(nCol, x, y, z, x.iCol + 1);
  }

  lemma BetterAsymmetric(nCol: nat, x: Sample, y: Sample)
    requires x.Shaped(nCol) && y.Shaped(nCol)
    ensures !(Better(nCol, x, y) && Better(nCol, y, x))
  {
    PostAsymmetric(nCol, x, y, x.iCol + 1);
  }

  /** A better sample than the best one so far is better than all seen. */
  lemma BetterThanMax(nCol: nat, x: Sample, m: Sample, t: Sample)
    requires x.Shaped(nCol) && m.Shaped(nCol) && t.Shaped(nCol)
    requires Better(nCol, x, m) && !Better(nCol, t, m)
    ensures !Better(nCol, t, x)
  {
    BetterSplit(nCol, t, m, x);
    BetterAsymmetric(nCol, m, x);
  }

  lemma WorseThanMin(nCol: nat, x: Sample, m: Sample, t: Sample)
    requires x.Shaped(nCol) && m.Shaped(nCol) && t.Shaped(nCol)
    requires Better(nCol, m, x) && !Better(nCol, m, t)
    ensures !Better(nCol, x, t)
  {
    BetterSplit(nCol, x, m, t);
    BetterAsymmetric(nCol, m, x);
  }

  lemma {:induction false} UpgradableIsBest(a: seq<Sample>, nCol: nat, col: nat, lo: nat)
    requires AllShaped(a, nCol) && col < nCol && lo <= |a|
    ensures var u := Upgradable(a, nCol, col, lo);
            u.Some? ==> forall t :: lo <= t < |a| && a[t].anEq[col] == 0 ==> !Better(nCol, a[t], a[u.value])
    decreases |a| - lo
  {
    if lo < |a| {
      UpgradableIsBest(a, nCol, col, lo + 1);
      var u := Upgradable(a, nCol, col, lo + 1);
      if a[lo].anEq[col] == 0 && (u.None? || Better(nCol, a[lo], a[u.value])) {
        forall t | lo <= t < |a| && a[t].anEq[col] == 0 ensures !Better(nCol, a[t], a[lo]) {
          if t == lo {
            BetterAsymmetric(nCol, a[lo], a[lo]);
          } else {
            BetterThanMax(nCol, a[lo], a[u.value], a[t]);
          }
        }
      }
    }
  }

  lemma {:induction false} LeastIsLeast(a: seq<Sample>, nCol: nat, n: nat)
    requires AllShaped(a, nCol) && n <= |a|
    ensures var m := LeastOf(a, nCol, n);
            m >= 0 ==> forall t :: 0 <= t < n && !a[t].isPSample ==> !Better(nCol, a[m], a[t])
  {
    if n > 0 {
      LeastIsLeast(a, nCol, n - 1);
      var m := LeastOf(a, nCol, n - 1);
      if !a[n-1].isPSample && (m < 0 || Better(nCol, a[m], a[n-1])) {
        forall t | 0 <= t < n && !a[t].isPSample ensures !Better(nCol, a[n-1], a[t]) {
          if t == n - 1 {
            BetterAsymmetric(nCol, a[t], a[t]);
          } else {
            WorseThanMin(nCol, a[n-1], a[m], a[t]);
          }
        }
      }
    }
  }
}

/** Column lists of the indices of a WITHOUT ROWID table. */
module WithoutRowid {
  import opened Seqs

  // ----- the lists that are promised -----

  /** Every column of a list once, where it first occurs. */
  function Firsts(cols: seq<int>): (r: seq<int>)
    ensures |r| <= |cols| && (cols != [] ==> r != [])
  {
    if cols == [] then []
    else
      var n := |cols| - 1;
      var r := Firsts(cols[..n]);
      if cols[n] in r then r else r + [cols[n]]
  }

  /** The columns of `source` that `key` does not have, in the order of `source`. */
  function Missing(key: seq<int>, source: seq<int>): (r: seq<int>)
    ensures |r| <= |source|
  {
    if source == [] then []
    else
      var n := |source| - 1;
      var r := Missing(key, source[..n]);
      if source[n] in key then r else r + [source[n]]
  }

  /** The columns of a table */
  function Columns(nCol: nat): (r: seq<int>)
    ensures |r| == nCol && forall i :: 0 <= i < nCol ==> r[i] == i
  {
    seq(nCol, i => i)
  }

  /** Position of the first occurrence */
  function First(cols: seq<int>, x: int): (i: nat)
    requires x in cols
    ensures i < |cols| && cols[i] == x && forall k :: 0 <= k < i ==> cols[k] != x
    decreases |cols|
  {
    if cols[0] == x then 0 else
      assert x in cols[1..];
      1 + First(cols[1..], x)
  }

  lemma FirstOfPrefix(cols: seq<int>, n: nat, x: int)
    requires n <= |cols| && x in cols[..n]
    ensures x in cols && First(cols, x) == First(cols[..n], x) && First(cols, x) < n
  {
    assert forall k :: 0 <= k < n ==> cols[..n][k] == cols[k];
    assert cols[First(cols[..n], x)] == x;
  }

  /** The declared columns in the order of their first occurrence, none twice. */
  lemma {:induction false} FirstsOnce(cols: seq<int>)
    ensures NoRepeats(Firsts(cols))
    ensures forall x :: x in Firsts(cols) <==> x in cols
    ensures forall i, j :: 0 <= i < j < |Firsts(cols)| ==>
      Firsts(cols)[i] in cols && Firsts(cols)[j] in cols && First(cols, Firsts(cols)[i]) < First(cols, Firsts(cols)[j])
  {
    if cols != [] {
      var n := |cols| - 1;
      var g := cols[..n];
      var r := Firsts(g);
      FirstsOnce(g);
      assert cols == g + [cols[n]];
      forall x | x in g ensures First(cols, x) == First(g, x) < n {
        FirstOfPrefix(cols, n, x);
      }
      var c := cols[n];
      if c !in r {
        assert c !in g;
        assert First(cols, c) == n;
      }
    }
  }

  /** The missing columns are those of `source` that are not in the key; none is
      added twice, and the order is that of `source`. */
  lemma {:induction false} MissingOnce(key: seq<int>, source: seq<int>)
    requires NoRepeats(source)
    ensures NoRepeats(Missing(key, source))
    ensures forall x :: x in Missing(key, source) <==> x in source && x !in key
    ensures forall i, j :: 0 <= i < j < |Missing(key, source)| ==>
      Missing(key, source)[i] in source && Missing(key, source)[j] in source
      && First(source, Missing(key, source)[i]) < First(source, Missing(key, source)[j])
  {
    if source != [] {
      var n := |source| - 1;
      var g := source[..n];
      MissingOnce(key, g);
      assert source == g + [source[n]];
      forall x | x in g ensures First(source, x) == First(g, x) < n {
        FirstOfPrefix(source, n, x);
      }
      assert source[n] !in g;
      assert First(source, source[n]) == n;
    }
  }

  /** With the missing table columns, a key that has none twice becomes a
      permutation of all columns. */
  lemma CoversAll(pk: seq<int>, nCol: nat)
    requires NoRepeats(pk) && forall x :: x in pk ==> 0 <= x < nCol
    ensures var all := pk + Missing(pk, Columns(nCol));
            NoRepeats(all) && (forall x :: x in all <==> 0 <= x < nCol) && |all| == nCol
            && multiset(all) == multiset(Columns(nCol))
  {
    var more := Missing(pk, Columns(nCol));
    var all := pk + more;
    MissingOnce(pk, Columns(nCol));
    assert forall x :: x in Columns(nCol) <==> 0 <= x < nCol by {
      forall x | 0 <= x < nCol ensures x in Columns(nCol) {
        assert Columns(nCol)[x] == x;
      }
    }
    forall i, j | 0 <= i < j < |all| ensures all[i] != all[j] {
      if i < |pk| <= j {
        assert all[i] in pk && all[j] in more;
      }
    }
    SameMultiset(all, Columns(nCol));
    assert |multiset(all)| == |all|;
  }

  /** Without repeats a multiset is a set. */
  lemma {:induction false} CountOnce(s: seq<int>, x: int)
    requires NoRepeats(s)
    ensures multiset(s)[x] == if x in s then 1 else 0
  {
    if s != [] {
      var n := |s| - 1;
      assert s == s[..n] + [s[n]];
      CountOnce(s[..n], x);
    }
  }

  lemma SameMultiset(a: seq<int>, b: seq<int>)
    requires NoRepeats(a) && NoRepeats(b) && forall x :: x in a <==> x in b
    ensures multiset(a) == multiset(b)
  {
    forall x ensures multiset(a)[x] == multiset(b)[x] {
      CountOnce(a, x);
      CountOnce(b, x);
    }
  }

  lemma FirstsStep(cols: seq<int>, i: nat)
    requires i < |cols|
    ensures Firsts(cols[..i+1]) == if cols[i] in Firsts(cols[..i]) then Firsts(cols[..i]) else Firsts(cols[..i]) + [cols[i]]
    ensures Firsts(cols[..0]) == []
  {
    assert cols[..i+1][..i] == cols[..i];
  }

  // ----- the index objects -----

  /** hasColumn() */
  method HasColumn(aiCol: array<int>, nCol: nat, x: int) returns (has: bool)
    requires nCol <= aiCol.Length
    ensures has <==> x in aiCol[..nCol]
  {
    var i := 0;
    while i < nCol
      invariant 0 <= i <= nCol && x !in aiCol[..i]
    {
      if x == aiCol[i] {
        assert aiCol[..nCol][i] == x;
        return true;
      }
      i := i + 1;
    }
    return false;
  }

  lemma KeyInFront(a: array<int>, j: nat, key: seq<int>, more: seq<int>)
    requires j <= a.Length && a[..j] == key + more
    ensures |key| <= j && a[..|key|] == key
  {
    assert a[..|key|] == a[..j][..|key|];
  }

  /** Table column `i`, with the columns before it done. */
  lemma CoverStep(key: seq<int>, nCol: nat, i: nat)
    requires i < nCol
    ensures var from := Columns(nCol);
            var more := Missing(key, from[..i]);
            && key + Missing(key, from[..i+1]) == (if i in key + more then key + more else (key + more) + [i])
            && |Missing(key, from[..i+1])| <= |Missing(key, from)|
  {
    hide Missing;
    var from := Columns(nCol);
    MissingStep(key, from, i);
    MissingGrows(key, from, i + 1);
    MissingBelow(key, from, i);
    assert i !in Missing(key, from[..i]);
  }

  method Append(a: array<int>, j: nat, x: int)
    requires j < a.Length
    modifies a
    ensures a[..j+1] == old(a[..j]) + [x] && forall k :: j < k < a.Length ==> a[k] == old(a[k])
  {
    a[j] := x;
  }

  class Index {
    var aiColumn: array<int>
    var nKeyCol: nat
    var nColumn: nat
    var isResized: bool
    const isPk: bool
    var tnum: int
    var pNext: Index?

    /** An index as sqlite3CreateIndex() leaves it: the key and the rowid. */
    constructor (key: seq<int>, isPk: bool, tnum: int, pNext: Index?)
      ensures fresh(aiColumn) && aiColumn.Length == nColumn == |key| + 1 && nKeyCol == |key| && aiColumn[..nKeyCol] == key
      ensures !isResized && this.isPk == isPk && this.tnum == tnum && this.pNext == pNext
    {
      aiColumn := new int[|key| + 1](i => if 0 <= i < |key| then key[i] else -1);
      nKeyCol, nColumn := |key|, |key| + 1;
      this.isPk, this.tnum, this.pNext, isResized := isPk, tnum, pNext, false;
    }

    ghost predicate Valid()
      reads `aiColumn, `nKeyCol, `nColumn, `isResized
    {
      0 < nKeyCol && nColumn == nKeyCol + 1 <= aiColumn.Length && !isResized
    }

    /** resizeIndexObject() */
    method Resize(N: nat)
      requires nColumn <= aiColumn.Length && (nColumn < N ==> !isResized)
      modifies this`aiColumn, this`nColumn, this`isResized
      ensures aiColumn == old(aiColumn) || fresh(aiColumn)
      ensures nColumn == (if old(nColumn) >= N then old(nColumn) else N) <= aiColumn.Length
      ensures aiColumn[..old(nColumn)] == old(aiColumn[..nColumn])
    {
      if nColumn >= N { return; }
      var zExtra := new int[N](i => 0);
      var i := 0;
      while i < nColumn
        invariant 0 <= i <= nColumn && zExtra[..i] == aiColumn[..i]
        modifies zExtra
      {
        zExtra[i] := aiColumn[i];
        i := i + 1;
      }
      aiColumn, nColumn, isResized := zExtra, N, true;
    }

    /** The loop that takes repeated columns out of the PRIMARY KEY. */
    method DropRepeats()
      requires Valid()
      modifies this`nKeyCol, this`nColumn, aiColumn
      ensures Valid() && aiColumn[..nKeyCol] == Firsts(old(aiColumn[..nKeyCol]))
    {
      hide Firsts;
      ghost var key, was := aiColumn[..nKeyCol], aiColumn[..];
      var i, j := 1, 1;
      FirstsStep(key, 0);
      assert aiColumn[..1] == [key[0]];
      while i < nKeyCol
        invariant 1 <= j <= i <= nKeyCol == old(nKeyCol)
        invariant aiColumn[..j] == Firsts(key[..i]) && forall k :: i <= k < aiColumn.Length ==> aiColumn[k] == was[k]
        invariant nColumn == nKeyCol + 1 - (i - j)
      {
        var has := HasColumn(aiColumn, j, aiColumn[i]);
        assert aiColumn[i] == was[i] == key[i];
        FirstsStep(key, i);
        if has {
          nColumn := nColumn - 1;
        } else {
          Append(aiColumn, j, aiColumn[i]);
          j := j + 1;
        }
        i := i + 1;
      }
      assert key[..i] == key;
      nKeyCol := j;
    }

    /** The rowid at the end of another index gives way to the columns of the
        PRIMARY KEY that the index does not have. */
    method AppendKey(pk: array<int>, nPk: nat)
      requires Valid() && nPk <= pk.Length && pk != aiColumn
      modifies this`aiColumn, this`nColumn, this`isResized, aiColumn
      ensures aiColumn == old(aiColumn) || fresh(aiColumn)
      ensures nColumn <= aiColumn.Length
      ensures var key := old(aiColumn[..nKeyCol]); aiColumn[..nColumn] == key + Missing(key, pk[..nPk])
    {
      ghost var key, from := aiColumn[..nKeyCol], pk[..nPk];
      var i, n := 0, 0;
      while i < nPk
        invariant 0 <= i <= nPk && n == |Missing(key, from[..i])|
        modifies {}
      {
        var c := pk[i];
        var has := HasColumn(aiColumn, nKeyCol, c);
        assert aiColumn[..nKeyCol] == key && from[..i+1][..i] == from[..i] && from[i] == c;
        if !has { n := n + 1; }
        i := i + 1;
      }
      assert from[..i] == from;
      if n == 0 {
        nColumn := nKeyCol;
        return;
      }
      Resize(nKeyCol + n);
      assert aiColumn[..nKeyCol] == aiColumn[..nKeyCol+1][..nKeyCol];
      assert nColumn == nKeyCol + n;
      AppendColumns(pk, nPk, key);
    }

    /** One column, unless the key has it. */
    method AppendOne(x: int, j: nat, ghost key: seq<int>, ghost more: seq<int>) returns (j': nat)
      requires |key| == nKeyCol && j == nKeyCol + |more| <= aiColumn.Length && aiColumn[..j] == key + more
      requires x !in key ==> j < aiColumn.Length
      modifies aiColumn
      ensures var more' := if x in key then more else more + [x];
              j' == nKeyCol + |more'| && aiColumn[..j'] == key + more'
    {
      KeyInFront(aiColumn, j, key, more);
      var has := HasColumn(aiColumn, nKeyCol, x);
      j' := j;
      if !has {
        Append(aiColumn, j, x);
        j' := j + 1;
      }
    }

    /** The second loop over the PRIMARY KEY, which writes what the first one counted. */
    method AppendColumns(pk: array<int>, nPk: nat, ghost key: seq<int>)
      requires nPk <= pk.Length && pk != aiColumn && nKeyCol <= nColumn <= aiColumn.Length && aiColumn[..nKeyCol] == key
      requires nColumn == nKeyCol + |Missing(key, pk[..nPk])|
      modifies aiColumn
      ensures aiColumn[..nColumn] == key + Missing(key, pk[..nPk])
    {
      ghost var from := pk[..nPk];
      assert Missing(key, from[..0]) == [];
      hide Missing;
      var i, j := 0, nKeyCol;
      while i < nPk
        invariant 0 <= i <= nPk && j == nKeyCol + |Missing(key, from[..i])|
        invariant j <= nColumn && aiColumn[..j] == key + Missing(key, from[..i])
      {
        MissingStep(key, from, i);
        MissingGrows(key, from, i + 1);
        assert pk[i] == from[i];
        j := AppendOne(pk[i], j, key, Missing(key, from[..i]));
        i := i + 1;
      }
      assert from[..i] == from;
    }

    /** All table columns join the PRIMARY KEY. */
    method Cover(nCol: nat)
      requires Valid() && NoRepeats(aiColumn[..nKeyCol]) && forall i :: 0 <= i < nKeyCol ==> 0 <= aiColumn[i] < nCol
      modifies this`aiColumn, this`nColumn, this`isResized, aiColumn
      ensures aiColumn == old(aiColumn) || fresh(aiColumn)
      ensures nColumn == nCol <= aiColumn.Length
      ensures var key := old(aiColumn[..nKeyCol]); aiColumn[..nColumn] == key + Missing(key, Columns(nCol))
    {
      ghost var key := aiColumn[..nKeyCol];
      CoversAll(key, nCol);
      if nKeyCol < nCol {
        Resize(nCol);
        assert aiColumn[..nKeyCol] == aiColumn[..nKeyCol+1][..nKeyCol];
        CoverColumns(nCol, key);
      } else {
        assert Missing(key, Columns(nCol)) == [];
        nColumn := nCol;
      }
    }

    method CoverColumns(nCol: nat, ghost key: seq<int>)
      requires nKeyCol + |Missing(key, Columns(nCol))| == nCol <= aiColumn.Length && aiColumn[..nKeyCol] == key
      modifies aiColumn
      ensures aiColumn[..nCol] == key + Missing(key, Columns(nCol))
    {
      ghost var from := Columns(nCol);
      assert Missing(key, from[..0]) == [];
      hide Missing, Columns;
      var i, j := 0, nKeyCol;
      while i < nCol
        invariant 0 <= i <= nCol && j == nKeyCol + |Missing(key, from[..i])| <= nCol
        invariant aiColumn[..j] == key + Missing(key, from[..i])
      {
        CoverStep(key, nCol, i);
        j := AppendNew(i, j, key + Missing(key, from[..i]));
        i := i + 1;
      }
      assert from[..i] == from;
    }

    /** One column, unless it is there already. */
    method AppendNew(x: int, j: nat, ghost cols: seq<int>) returns (j': nat)
      requires j <= aiColumn.Length && aiColumn[..j] == cols && (x !in cols ==> j < aiColumn.Length)
      modifies aiColumn
      ensures var cols' := if x in cols then cols else cols + [x];
              j' == |cols'| && aiColumn[..j'] == cols'
    {
      var has := HasColumn(aiColumn, j, x);
      j' := j;
      if !has {
        Append(aiColumn, j, x);
        j' := j + 1;
      }
    }
  }

  lemma MissingStep(key: seq<int>, source: seq<int>, i: nat)
    requires i < |source|
    ensures Missing(key, source[..i+1]) ==
      if source[i] in key then Missing(key, source[..i]) else Missing(key, source[..i]) + [source[i]]
    ensures Missing(key, source[..0]) == []
  {
    assert source[..i+1][..i] == source[..i];
  }

  lemma {:induction false} MissingGrows(key: seq<int>, source: seq<int>, i: nat)
    requires i <= |source|
    ensures |Missing(key, source[..i])| <= |Missing(key, source)|
    decreases |source| - i
  {
    if i < |source| {
      assert source[..i+1][..i] == source[..i];
      MissingGrows(key, source, i + 1);
    } else {
      assert source[..i] == source;
    }
  }

  lemma {:induction false} MissingBelow(key: seq<int>, source: seq<int>, i: nat)
    requires i <= |source| && forall k :: 0 <= k < |source| ==> source[k] == k
    ensures forall x :: x in Missing(key, source[..i]) ==> x < i
  {
    if i > 0 {
      assert source[..i][..i-1] == source[..i-1];
      MissingBelow(key, source, i - 1);
    }
  }

  // ----- the table -----

  ghost function Arrays(list: seq<Index>): set<object>
    reads list`aiColumn
  {
    set h | h in list :: h.aiColumn
  }

  /** Different index objects with different column arrays, chained by `pNext`. */
  ghost predicate ListOk(head: Index?, list: seq<Index>)
    reads list`pNext, list`aiColumn
  {
    && head == (if list == [] then null else list[0])
    && (forall i {:trigger list[i].pNext} :: 0 <= i < |list| ==> list[i].pNext == if i + 1 < |list| then list[i+1] else null)
    && (forall i, j :: 0 <= i < j < |list| ==> list[i] != list[j] && list[i].aiColumn != list[j].aiColumn)
  }

  /** An index as it was created, with this key. */
  ghost predicate Created(h: Index, key: seq<int>)
    reads h`aiColumn, h`nKeyCol, h`nColumn, h`isResized, h.aiColumn
  {
    h.Valid() && h.aiColumn[..h.nKeyCol] == key
  }

  /** An index that now has exactly this key and, after it, exactly these columns. */
  ghost predicate Has(h: Index, key: seq<int>, more: seq<int>)
    reads h`aiColumn, h`nKeyCol, h`nColumn, h.aiColumn
  {
    h.nKeyCol == |key| && h.nColumn <= h.aiColumn.Length && h.aiColumn[..h.nColumn] == key + more
  }

  lemma HasIs(h: Index, key: seq<int>, more: seq<int>)
    requires h.nKeyCol == |key| && h.nColumn <= h.aiColumn.Length && h.aiColumn[..h.nColumn] == key + more
    ensures Has(h, key, more)
  {
  }

  lemma CreatedIs(h: Index, key: seq<int>)
    requires h.Valid() && h.aiColumn[..h.nKeyCol] == key
    ensures Created(h, key)
  {
  }

  lemma FirstOf(head: Index?, list: seq<Index>)
    requires ListOk(head, list)
    ensures head == if |list| > 0 then list[0] else null
  {
  }

  lemma NextOf(head: Index?, list: seq<Index>, k: nat)
    requires ListOk(head, list) && k < |list|
    ensures list[k].pNext == if k + 1 < |list| then list[k+1] else null
  {
  }

  /** sqlite3PrimaryKeyIndex() */
  method PrimaryKeyIndex(pIndex: Index?, ghost list: seq<Index>) returns (pPk: Index?, ghost m: nat)
    requires ListOk(pIndex, list)
    ensures pPk == null ==> forall i :: 0 <= i < |list| ==> !list[i].isPk
    ensures pPk != null ==> m < |list| && pPk == list[m] && pPk.isPk
  {
    pPk, m := pIndex, 0;
    while pPk != null && !pPk.isPk
      invariant 0 <= m <= |list| && pPk == (if m < |list| then list[m] else null)
      invariant forall i :: 0 <= i < m ==> !list[i].isPk
      decreases |list| - m
    {
      pPk := pPk.pNext;
      m := m + 1;
    }
  }

  /** Another index converted: the indices after it and the PRIMARY KEY stay as
      created, those before it stay as converted. */
  ghost predicate Upto(list: seq<Index>, m: nat, keys: seq<seq<int>>, k: nat)
    requires |keys| == |list| && m < |list|
    reads list`aiColumn, list`nKeyCol, list`nColumn, list`isResized, Arrays(list)
  {
    forall i :: 0 <= i < |list| ==>
      if i >= k || i == m then Created(list[i], keys[i]) else Has(list[i], keys[i], Missing(keys[i], keys[m]))
  }

  method ConvertOther(pIdx: Index, pPk: Index, nPk: nat, ghost head: Index?, ghost list: seq<Index>, ghost m: nat,
                      ghost keys: seq<seq<int>>, ghost k: nat)
    requires ListOk(head, list) && |keys| == |list| && m < |list| && pPk == list[m] && nPk == pPk.nKeyCol
    requires k < |list| && pIdx == list[k] && k != m && Upto(list, m, keys, k)
    modifies pIdx`aiColumn, pIdx`nColumn, pIdx`isResized, pIdx.aiColumn
    ensures ListOk(head, list) && Upto(list, m, keys, k + 1)
    ensures pIdx.aiColumn == old(pIdx.aiColumn) || fresh(pIdx.aiColumn)
  {
    hide Has, Missing;
    assert Created(pIdx, keys[k]) && Created(pPk, keys[m]);
    assert pPk.aiColumn != pIdx.aiColumn;
    pIdx.AppendKey(pPk.aiColumn, nPk);
    HasIs(pIdx, keys[k], Missing(keys[k], keys[m]));
    hide Created;
  }

  lemma SkipKey(list: seq<Index>, m: nat, keys: seq<seq<int>>)
    requires |keys| == |list| && m < |list| && Upto(list, m, keys, m)
    ensures Upto(list, m, keys, m + 1)
  {
  }

  /** The loop over all other indices. */
  method ConvertOthers(pIndex: Index?, pPk: Index, nPk: nat, ghost list: seq<Index>, ghost m: nat, ghost keys: seq<seq<int>>)
    requires ListOk(pIndex, list) && |keys| == |list| && m < |list| && pPk == list[m] && nPk == pPk.nKeyCol
    requires Upto(list, m, keys, 0) && forall i :: 0 <= i < |list| ==> (list[i].isPk <==> i == m)
    modifies list`aiColumn, list`nColumn, list`isResized, Arrays(list)
    ensures ListOk(pIndex, list) && Upto(list, m, keys, |list|) && pPk.aiColumn == old(pPk.aiColumn)
  {
    hide Created, Has, Missing, Upto, ListOk;
    var pIdx := pIndex;
    ghost var k := 0;
    FirstOf(pIndex, list);
    while pIdx != null
      invariant 0 <= k <= |list| && pIdx == (if k < |list| then list[k] else null)
      invariant ListOk(pIndex, list) && Upto(list, m, keys, k) && pPk.aiColumn == old(pPk.aiColumn)
      invariant forall i :: 0 <= i < |list| ==> list[i].aiColumn == old(list[i].aiColumn) || fresh(list[i].aiColumn)
      decreases |list| - k
    {
      assert pIdx in list;
      if !pIdx.isPk {
        ConvertOther(pIdx, pPk, nPk, pIndex, list, m, keys, k);
      } else {
        SkipKey(list, m, keys);
      }
      NextOf(pIndex, list, k);
      pIdx := pIdx.pNext;
      k := k + 1;
    }
  }

  class Table {
    var iPKey: int
    const nCol: nat
    var tnum: int
    var pIndex: Index?

    constructor (nCol: nat, iPKey: int, tnum: int)
      requires -1 <= iPKey < nCol
      ensures this.nCol == nCol && this.iPKey == iPKey && this.tnum == tnum && pIndex == null
    {
      this.nCol, this.iPKey, this.tnum, pIndex := nCol, iPKey, tnum, null;
    }

    /** A PRIMARY KEY index for an INTEGER PRIMARY KEY. */
    method CreateKey(ghost list: seq<Index>, ghost keys: seq<seq<int>>) returns (pPk: Index)
      requires ListOk(pIndex, list) && |keys| == |list| && forall i :: 0 <= i < |list| ==> Created(list[i], keys[i])
      modifies `pIndex
      ensures ListOk(pIndex, [pPk] + list) && fresh(pPk) && fresh(pPk.aiColumn) && pPk.isPk
      ensures Created(pPk, [iPKey]) && forall i :: 0 <= i < |list| ==> Created(list[i], keys[i])
    {
      hide Created;
      pPk := new Index([iPKey], true, 0, pIndex);
      pIndex := pPk;
      CreatedIs(pPk, [iPKey]);
    }

    /** The declared PRIMARY KEY without its repeated columns. */
    method CleanKey(ghost list: seq<Index>, ghost keys: seq<seq<int>>) returns (pPk: Index, ghost m: nat)
      requires ListOk(pIndex, list) && |keys| == |list| && forall i :: 0 <= i < |list| ==> Created(list[i], keys[i])
      requires exists i :: 0 <= i < |list| && list[i].isPk
      modifies list`nKeyCol, list`nColumn, Arrays(list)
      ensures m < |list| && pPk == list[m] && pPk.isPk
      ensures Created(pPk, Firsts(keys[m])) && forall i :: 0 <= i < |list| && i != m ==> Created(list[i], keys[i])
    {
      hide Firsts;
      var pk;
      pk, m := PrimaryKeyIndex(pIndex, list);
      pPk := pk;
      assert pPk in list && Created(pPk, keys[m]);
      assert pPk.Valid() && pPk.aiColumn[..pPk.nKeyCol] == keys[m];
      hide Created;
      pPk.DropRepeats();
      CreatedIs(pPk, Firsts(keys[m]));
    }

    /** convertToWithoutRowidTable(): the PRIMARY KEY has its columns in the order of
        their first occurrence and then all other table columns; every other index
        has its own key and then the PRIMARY KEY columns that it lacks. */
    method Convert(ghost list: seq<Index>, ghost keys: seq<seq<int>>)
      returns (ghost list': seq<Index>, ghost keys': seq<seq<int>>, ghost m: nat)
      requires ListOk(pIndex, list) && |keys| == |list| && forall i :: 0 <= i < |list| ==> Created(list[i], keys[i])
      requires if iPKey >= 0 then iPKey < nCol && forall i :: 0 <= i < |list| ==> !list[i].isPk
               else exists i :: 0 <= i < |list| && list[i].isPk
      requires forall i, j :: 0 <= i < j < |list| && list[i].isPk ==> !list[j].isPk
      requires forall i, x :: 0 <= i < |list| && list[i].isPk && x in keys[i] ==> 0 <= x < nCol
      modifies this, list, Arrays(list)
      ensures ListOk(pIndex, list') && |keys'| == |list'| && m < |list'| && list'[m].isPk && iPKey < 0
      ensures if old(iPKey) >= 0 then list'[1..] == list && keys' == [[old(iPKey)]] + keys && m == 0
              else list' == list && keys' == keys[m := Firsts(keys[m])]
      ensures list'[m].tnum == tnum == old(tnum)
      ensures Has(list'[m], keys'[m], Missing(keys'[m], Columns(nCol)))
      ensures forall i :: 0 <= i < |list'| && i != m ==> Has(list'[i], keys'[i], Missing(keys'[i], keys'[m]))
    {
      hide Created, Has, Missing, Firsts, NoRepeats, ListOk, Upto;
      var pPk;
      pPk, list', keys', m := KeyIndex(list, keys);
      KeyRange(keys'[m], if old(iPKey) >= 0 then [old(iPKey)] else keys[m], nCol);
      Finish(pPk, list', keys', m);
    }

    /** Find the PRIMARY KEY index and clean it, or create it. */
    method KeyIndex(ghost list: seq<Index>, ghost keys: seq<seq<int>>)
      returns (pPk: Index, ghost list': seq<Index>, ghost keys': seq<seq<int>>, ghost m: nat)
      requires ListOk(pIndex, list) && |keys| == |list| && forall i :: 0 <= i < |list| ==> Created(list[i], keys[i])
      requires if iPKey >= 0 then forall i :: 0 <= i < |list| ==> !list[i].isPk
               else exists i :: 0 <= i < |list| && list[i].isPk
      requires forall i, j :: 0 <= i < j < |list| && list[i].isPk ==> !list[j].isPk
      modifies `pIndex, `iPKey, list`nKeyCol, list`nColumn, Arrays(list)
      ensures ListOk(pIndex, list') && |keys'| == |list'| && m < |list'| && pPk == list'[m] && iPKey < 0
      ensures Upto(list', m, keys', 0) && forall i :: 0 <= i < |list'| ==> (list'[i].isPk <==> i == m)
      ensures if old(iPKey) >= 0 then fresh(pPk) && fresh(pPk.aiColumn) && list' == [pPk] + list && keys' == [[old(iPKey)]] + keys && m == 0
              else list' == list && keys' == keys[m := Firsts(keys[m])]
      ensures forall i :: 0 <= i < |list| ==> list[i].aiColumn == old(list[i].aiColumn)
    {
      hide Created, Firsts;
      if iPKey >= 0 {
        pPk := CreateKey(list, keys);
        m, list', keys' := 0, [pPk] + list, [[iPKey]] + keys;
        iPKey := -1;
      } else {
        pPk, m := CleanKey(list, keys);
        list', keys' := list, keys[m := Firsts(keys[m])];
      }
    }

    /** From the root page on, once the PRIMARY KEY is clean. */
    method Finish(pPk: Index, ghost list: seq<Index>, ghost keys: seq<seq<int>>, ghost m: nat)
      requires ListOk(pIndex, list) && |keys| == |list| && m < |list| && pPk == list[m] && Upto(list, m, keys, 0)
      requires forall i :: 0 <= i < |list| ==> (list[i].isPk <==> i == m)
      requires NoRepeats(keys[m]) && forall x :: x in keys[m] ==> 0 <= x < nCol
      modifies list`aiColumn, list`nColumn, list`isResized, list`tnum, Arrays(list)
      ensures ListOk(pIndex, list) && list[m].tnum == tnum
      ensures Has(list[m], keys[m], Missing(keys[m], Columns(nCol)))
      ensures forall i :: 0 <= i < |list| && i != m ==> Has(list[i], keys[i], Missing(keys[i], keys[m]))
    {
      hide Created, Has, Missing, NoRepeats;
      assert pPk in list;
      pPk.tnum := tnum;
      assert Created(pPk, keys[m]);
      ConvertOthers(pIndex, pPk, pPk.nKeyCol, list, m, keys);
      CoverKey(pPk, nCol, keys[m]);
    }
  }

  lemma KeyRange(pk: seq<int>, key: seq<int>, nCol: nat)
    requires (pk == key && |key| == 1) || pk == Firsts(key)
    requires forall x :: x in key ==> 0 <= x < nCol
    ensures NoRepeats(pk) && forall x :: x in pk ==> 0 <= x < nCol
  {
    FirstsOnce(key);
  }

  method CoverKey(pPk: Index, nCol: nat, ghost pk: seq<int>)
    requires Created(pPk, pk) && NoRepeats(pk) && forall x :: x in pk ==> 0 <= x < nCol
    modifies pPk`aiColumn, pPk`nColumn, pPk`isResized, pPk.aiColumn
    ensures pPk.aiColumn == old(pPk.aiColumn) || fresh(pPk.aiColumn)
    ensures Has(pPk, pk, Missing(pk, Columns(nCol)))
  {
    assert forall i :: 0 <= i < pPk.nKeyCol ==> pPk.aiColumn[i] == pk[i] && pk[i] in pk;
    pPk.Cover(nCol);
  }
}

/** The token lists and the in-place edit of ALTER TABLE RENAME. */
module Rename {
  import opened Arithmetic
  import opened Bytes
  import opened RenameSpec
  import opened Seqs

  class RenameToken {
    const t: Token
    var p: nat
    var pNext: RenameToken?

    constructor (p: nat, t: Token, pNext: RenameToken?)
      ensures this.p == p && this.t == t && this.pNext == pNext
    {
      this.p, this.t, this.pNext := p, t, pNext;
    }
  }

  /** `list` is what `pNext` chains from `head`. */
  ghost predicate Chain(head: RenameToken?, list: seq<RenameToken>)
    reads list`pNext
  {
    && head == (if list == [] then null else list[0])
    && (forall i {:trigger list[i].pNext} :: 0 <= i < |list| ==> list[i].pNext == if i + 1 < |list| then list[i+1] else null)
    && (forall i, j :: 0 <= i < j < |list| ==> list[i] != list[j])
  }

  lemma Removed(head: RenameToken?, list: seq<RenameToken>, k: nat)
    requires Chain(head, list) && k < |list|
    ensures forall e :: e in RemoveAt(list, k) ==> e in list && e != list[k]
    ensures forall i :: 0 <= i < |RemoveAt(list, k)| ==> RemoveAt(list, k)[i] != list[k]
  {
  }

  /** The list of a Parse object or of a RenameCtx. */
  class RenameList {
    var pList: RenameToken?
    var nList: nat

    constructor ()
      ensures pList == null && nList == 0
    {
      pList, nList := null, 0;
    }

    /** `*pp = (*pp)->pNext`, where `pp` points into `before`, or at the head. */
    method Unlink(before: RenameToken?, token: RenameToken, ghost list: seq<RenameToken>, ghost k: nat)
      requires Chain(pList, list) && k < |list| && token == list[k]
      requires before == if k > 0 then list[k-1] else null
      modifies this`pList, list`pNext
      ensures Chain(pList, RemoveAt(list, k)) && token.pNext == old(token.pNext)
      ensures forall i {:trigger list[i].pNext} :: 0 <= i < |list| && i != k - 1 ==> list[i].pNext == old(list[i].pNext)
    {
      if before == null {
        pList := token.pNext;
      } else {
        before.pNext := token.pNext;
      }
      ghost var r := RemoveAt(list, k);
      assert forall i :: 0 <= i < |r| ==> r[i] == list[if i < k then i else i + 1];
    }

    /** The loop of renameTokenFind(): the first token of the element, and the one
        before it. */
    method Locate(pPtr: nat, ghost list: seq<RenameToken>) returns (before: RenameToken?, at: RenameToken?, ghost k: nat)
      requires Chain(pList, list)
      ensures k <= |list| && at == (if k < |list| then list[k] else null) && before == (if k > 0 then list[k-1] else null)
      ensures (forall i :: 0 <= i < k ==> list[i].p != pPtr) && (k < |list| ==> list[k].p == pPtr)
    {
      before, at, k := null, pList, 0;
      while at != null && at.p != pPtr
        invariant 0 <= k <= |list| && at == (if k < |list| then list[k] else null)
        invariant before == (if k > 0 then list[k-1] else null)
        invariant forall i :: 0 <= i < k ==> list[i].p != pPtr
        decreases |list| - k
      {
        before, at, k := at, at.pNext, k + 1;
      }
    }

    /** A token, out of its list, goes to the front of this one. */
    method Push(token: RenameToken, ghost list: seq<RenameToken>)
      requires Chain(pList, list) && token !in list
      modifies this, token`pNext
      ensures Chain(pList, [token] + list) && nList == old(nList) + 1
    {
      token.pNext := pList;
      pList := token;
      nList := nList + 1;
    }

    /** renameColumnTokenNext(): the last token of the text leaves the list. */
    method TokenNext(ghost list: seq<RenameToken>) returns (pBest: RenameToken, ghost k: nat)
      requires list != [] && Chain(pList, list)
      modifies this`pList, list`pNext
      ensures k < |list| && pBest == list[k] && Chain(pList, RemoveAt(list, k))
      ensures forall i :: 0 <= i < |list| ==> list[i].t.z <= pBest.t.z
    {
      pBest := pList;
      ghost var best := 0;
      var pToken := pBest.pNext;
      ghost var i := 1;
      while pToken != null
        invariant 1 <= i <= |list| && pToken == (if i < |list| then list[i] else null)
        invariant best < i && pBest == list[best] && forall j :: 0 <= j < i ==> list[j].t.z <= pBest.t.z
        decreases |list| - i
      {
        if pToken.t.z > pBest.t.z {
          pBest, best := pToken, i;
        }
        pToken := pToken.pNext;
        i := i + 1;
      }
      k := best;
      var before: RenameToken? := null;
      var at := pList;
      ghost var j := 0;
      while at != pBest
        invariant 0 <= j <= k && at == list[j] && before == (if j > 0 then list[j-1] else null)
        decreases k - j
      {
        before, at := at, at.pNext;
        j := j + 1;
      }
      Unlink(before, pBest, list, k);
    }
  }

  /** renameTokenFind(): the first token of parse element `pPtr`, if there is one,
      moves from the list of the parser to the front of the list of the context. */
  method TokenFind(pParse: RenameList, pCtx: RenameList, pPtr: nat, ghost list: seq<RenameToken>, ghost ctx: seq<RenameToken>)
    returns (ghost list': seq<RenameToken>, ghost ctx': seq<RenameToken>)
    requires pParse != pCtx && Chain(pParse.pList, list) && Chain(pCtx.pList, ctx)
    requires forall e :: e in list ==> e !in ctx
    modifies pParse`pList, pCtx, list`pNext
    ensures Chain(pParse.pList, list') && Chain(pCtx.pList, ctx')
    ensures forall e :: e in list' ==> e !in ctx'
    ensures (forall i :: 0 <= i < |list| ==> list[i].p != pPtr) ==>
            list' == list && ctx' == ctx && pCtx.nList == old(pCtx.nList)
    ensures (exists i :: 0 <= i < |list| && list[i].p == pPtr) ==>
            exists k :: 0 <= k < |list| && list[k].p == pPtr && (forall i :: 0 <= i < k ==> list[i].p != pPtr)
                        && list' == RemoveAt(list, k) && ctx' == [list[k]] + ctx && pCtx.nList == old(pCtx.nList) + 1
  {
    hide Chain;
    var before, at;
    ghost var k;
    before, at, k := pParse.Locate(pPtr, list);
    if at == null {
      list', ctx' := list, ctx;
      return;
    }
    Removed(pParse.pList, list, k);
    list', ctx' := RemoveAt(list, k), [at] + ctx;
    assert forall i :: 0 <= i < |list'| ==> list'[i] != at;
    assert forall i :: 0 <= i < |ctx| ==> ctx[i] in ctx && ctx[i] !in list;
    pParse.Unlink(before, at, list, k);
    pCtx.Push(at, ctx);
  }

  // ----- the edit -----

  /** memcpy() of a whole text into a buffer */
  method Memcpy(to: array<Byte>, at: nat, z: seq<Byte>)
    requires at + |z| <= to.Length
    modifies to
    ensures to[..] == old(to[..at]) + z + old(to[at+|z|..])
  {
    forall i | 0 <= i < |z| {
      to[at + i] := z[i];
    }
  }

  /** memmove() inside a buffer */
  method Memmove(a: array<Byte>, to: nat, at: nat, n: nat)
    requires to + n <= a.Length && at + n <= a.Length
    modifies a
    ensures a[..] == old(a[..to]) + old(a[at..at+n]) + old(a[to+n..])
  {
    forall i | 0 <= i < n {
      a[to + i] := a[at + i];
    }
  }

  /** Room for `r` bytes in place of the `n` at `iOff`. */
  method Shift(zOut: array<Byte>, nOut: nat, iOff: nat, n: nat, r: nat) returns (nOut': nat)
    requires iOff + n <= nOut < zOut.Length && nOut + r - n < zOut.Length && zOut[nOut] == 0
    modifies zOut
    ensures nOut' == nOut + r - n && nOut' < zOut.Length && zOut[nOut'] == 0
    ensures zOut[..iOff] == old(zOut[..iOff]) && zOut[iOff+r..nOut'] == old(zOut[iOff+n..nOut])
  {
    nOut' := nOut;
    if n != r {
      Memmove(zOut, iOff + r, iOff + n, nOut - (iOff + n));
      nOut' := nOut + r - n;
      ghost var now := zOut[..];
      assert now[..iOff+r][..iOff] == now[..iOff];
      zOut[nOut'] := 0;
      assert zOut[..] == now[nOut' := 0];
    }
  }

  /** The body of the loop of renameEditSql(): `n` bytes at `iOff` give way to
      `zReplace`, and the text after them moves up or down. */
  method Splice(zOut: array<Byte>, nOut: nat, iOff: nat, n: nat, zReplace: seq<Byte>) returns (nOut': nat)
    requires iOff + n <= nOut < zOut.Length && nOut + |zReplace| - n < zOut.Length && zOut[nOut] == 0
    modifies zOut
    ensures nOut' == nOut + |zReplace| - n && nOut' < zOut.Length && zOut[nOut'] == 0
    ensures zOut[..nOut'] == old(zOut[..iOff]) + zReplace + old(zOut[iOff+n..nOut])
  {
    nOut' := Shift(zOut, nOut, iOff, n, |zReplace|);
    ghost var mid := zOut[..];
    Memcpy(zOut, iOff, zReplace);
    assert zOut[nOut'] == mid[nOut'];
    assert zOut[..nOut'] == mid[..iOff] + zReplace + mid[iOff+|zReplace|..nOut'];
  }

  /** The bytes up to the first NUL, as sqlite3_result_text() with length -1 takes them. */
  method Text(z: array<Byte>, ghost n: nat) returns (text: seq<Byte>)
    requires n < z.Length && z[n] == 0 && NoNul(z[..n])
    ensures text == z[..n]
  {
    assert forall j :: 0 <= j < n ==> z[j] == z[..n][j];
    var i := 0;
    while z[i] != 0
      invariant 0 <= i <= n
      decreases n - i
    {
      i := i + 1;
    }
    text := z[..i];
  }

  ghost function Offsets(list: seq<RenameToken>): set<nat> {
    set e | e in list :: e.t.z
  }

  /** Every token of the list is one of `toks`, and none is there twice. */
  ghost predicate Among(list: seq<RenameToken>, toks: map<nat, nat>) {
    && (forall i :: 0 <= i < |list| ==> list[i].t.z in toks && toks[list[i].t.z] == list[i].t.n)
    && (forall i, j :: 0 <= i < j < |list| ==> list[i].t.z != list[j].t.z)
  }

  lemma OffsetsRemove(list: seq<RenameToken>, toks: map<nat, nat>, k: nat)
    requires Among(list, toks) && k < |list|
    ensures Among(RemoveAt(list, k), toks) && Offsets(RemoveAt(list, k)) == Offsets(list) - {list[k].t.z}
    ensures list[k].t.z in Offsets(list)
  {
    var list' := RemoveAt(list, k);
    assert list[k] in list;
    assert forall i :: 0 <= i < |list'| ==> list'[i] == list[if i < k then i else i + 1];
    forall z | z in Offsets(list) && z != list[k].t.z ensures z in Offsets(list') {
      var i :| 0 <= i < |list| && list[i].t.z == z;
      assert list'[if i < k then i else i - 1] == list[i];
    }
  }

  lemma FewerTokens(sql: seq<Byte>, toks: map<nat, nat>, out: set<nat>)
    requires OkTokens(sql, toks)
    ensures OkTokens(sql, toks - out)
  {
  }

  /** The finished tokens all come after those of the list. */
  ghost predicate After(list: seq<RenameToken>, toks: map<nat, nat>) {
    forall y, z :: y in toks && y !in Offsets(list) && z in Offsets(list) ==> z < y
  }

  /** Taking the last token of the list: it comes right before the finished ones. */
  lemma TakeLast(sql: seq<Byte>, list: seq<RenameToken>, toks: map<nat, nat>, k: nat)
    requires OkTokens(sql, toks) && Among(list, toks) && After(list, toks) && k < |list|
    requires forall i :: 0 <= i < |list| ==> list[i].t.z <= list[k].t.z
    ensures var t, list', done := list[k].t, RemoveAt(list, k), toks - Offsets(list);
            && t.n > 0 && t.z + t.n <= |sql| && (forall y :: y in done ==> t.z < y)
            && Among(list', toks) && After(list', toks)
            && OkTokens(sql, done) && OkTokens(sql, done[t.z := t.n]) && done[t.z := t.n] == toks - Offsets(list')
  {
    var t, list', done := list[k].t, RemoveAt(list, k), toks - Offsets(list);
    assert t.z in toks && toks[t.z] == t.n;
    hide Among;
    OffsetsRemove(list, toks, k);
    FewerTokens(sql, toks, Offsets(list));
    FewerTokens(sql, toks, Offsets(list'));
    assert t.n > 0 && t.z + t.n <= |sql|;
    hide OkTokens;
    assert done[t.z := t.n] == toks - Offsets(list');
    assert forall z :: z in Offsets(list) ==> z <= t.z;
  }

  lemma ChainEmpty(head: RenameToken?, list: seq<RenameToken>)
    requires Chain(head, list)
    ensures head == null <==> list == []
  {
  }

  lemma NoOffsets(list: seq<RenameToken>, toks: map<nat, nat>)
    requires list == []
    ensures toks - Offsets(list) == toks
  {
  }

  /** At first no token is finished. */
  lemma AllInList(list: seq<RenameToken>, toks: map<nat, nat>)
    requires Offsets(list) == toks.Keys
    ensures After(list, toks)
  {
  }

  /** One turn of the loop of renameEditSql(), for the last token of the list. */
  method EditOne(pRename: RenameList, zOut: array<Byte>, nOut: nat, zSql: seq<Byte>, new_: New,
                 ghost list: seq<RenameToken>, ghost toks: map<nat, nat>)
    returns (nOut': nat, ghost k: nat)
    requires Chain(pRename.pList, list) && list != []
    requires Among(list, toks) && After(list, toks) && OkTokens(zSql, toks) && OkTokens(zSql, toks - Offsets(list))
    requires nOut < zOut.Length && zOut[nOut] == 0 && nOut + |new_.quot| < zOut.Length && |new_.bare| <= |new_.quot|
    requires zOut[..nOut] == Substituted(zSql, 0, toks - Offsets(list), new_)
    modifies pRename`pList, list`pNext, zOut
    ensures k < |list| && var rest := RemoveAt(list, k);
            && Chain(pRename.pList, rest) && Among(rest, toks) && After(rest, toks) && OkTokens(zSql, toks - Offsets(rest))
            && nOut' <= nOut + |new_.quot| && zOut[nOut'] == 0
            && zOut[..nOut'] == Substituted(zSql, 0, toks - Offsets(rest), new_)
  {
    hide Chain, Among, After, OkTokens, Substituted, NoNul;
    var pBest;
    pBest, k := pRename.TokenNext(list);
    TakeLast(zSql, list, toks, k);
    OneMore(zSql, toks - Offsets(list), pBest.t.z, pBest.t.n, new_);
    var zReplace := if IdChar(At(zSql, pBest.t.z)) then new_.bare else new_.quot;
    ghost var was, z, n := zOut[..nOut], pBest.t.z, pBest.t.n;
    assert was[..z] == zSql[..z] && zOut[..z] == was[..z];
    assert was[z+n..] == Substituted(zSql, z + n, toks - Offsets(list), new_) && zOut[z+n..nOut] == was[z+n..];
    nOut' := Splice(zOut, nOut, pBest.t.z, pBest.t.n, zReplace);
  }

  /** The bytes that `k` replacements can add. */
  function Room(k: nat, nQuot: nat): nat {
    k * nQuot
  }

  lemma RoomLess(k: nat, k': nat, nQuot: nat)
    requires k <= k'
    ensures Room(k, nQuot) <= Room(k', nQuot)
    ensures k > 0 ==> Room(k, nQuot) == Room(k - 1, nQuot) + nQuot
  {
    MulMonotone(k, k', nQuot);
    Distribute(k, 1, nQuot);
  }

  /** A zeroed buffer with the text in front. */
  method NewBuffer(zSql: seq<Byte>, size: nat) returns (zOut: array<Byte>)
    requires |zSql| < size
    ensures fresh(zOut) && zOut.Length == size && zOut[..|zSql|] == zSql && zOut[|zSql|] == 0
  {
    zOut := new Byte[size](i => 0);
    Memcpy(zOut, 0, zSql);
  }

  /** renameEditSql(): the text with every token of the list replaced at once. */
  method EditSql(pRename: RenameList, zSql: seq<Byte>, zNew: seq<Byte>, bQuote: bool,
                 ghost list: seq<RenameToken>, ghost toks: map<nat, nat>) returns (text: seq<Byte>)
    requires NoNul(zSql) && NoNul(zNew)
    requires Chain(pRename.pList, list) && |list| <= pRename.nList
    requires Among(list, toks) && Offsets(list) == toks.Keys && OkTokens(zSql, toks)
    modifies pRename`pList, list`pNext
    ensures pRename.pList == null
    ensures text == Substituted(zSql, 0, toks, New(if bQuote then Quoted(zNew) else zNew, Quoted(zNew)))
    ensures forall z :: z in toks && toks.Keys == {z} ==>
              text == zSql[..z] + (if bQuote || !IdChar(zSql[z]) then Quoted(zNew) else zNew) + zSql[z+toks[z]..]
    ensures !bQuote && AllRead(zSql, toks, zNew) ==> text == zSql
  {
    hide Among, After, OkTokens, Substituted, Chain, Quoted, Offsets, NoNul, Room;
    var zQuot := Quoted(zNew);
    var new_ := New(if bQuote then zQuot else zNew, zQuot);
    var zOut := NewBuffer(zSql, |zSql| + Room(pRename.nList, |zQuot|) + 1);
    var nOut: nat := |zSql|;
    ghost var rest := list;
    assert toks - Offsets(list) == map[];
    AllInList(list, toks);
    RoomLess(|list|, pRename.nList, |zQuot|);
    NoTokens(zSql, new_);
    while pRename.pList != null
      invariant Chain(pRename.pList, rest) && forall i :: 0 <= i < |rest| ==> rest[i] in list
      invariant Among(rest, toks) && After(rest, toks) && OkTokens(zSql, toks - Offsets(rest))
      invariant nOut + Room(|rest|, |zQuot|) < zOut.Length && zOut[nOut] == 0
      invariant zOut[..nOut] == Substituted(zSql, 0, toks - Offsets(rest), new_)
      decreases |rest|
    {
      ChainEmpty(pRename.pList, rest);
      RoomLess(|rest|, |rest|, |zQuot|);
      ghost var k;
      hide NoNul, RemoveAt;
      nOut, k := EditOne(pRename, zOut, nOut, zSql, new_, rest, toks);
      rest := RemoveAt(rest, k);
    }
    ChainEmpty(pRename.pList, rest);
    NoOffsets(rest, toks);
    QuotedNoNul(zNew);
    SubstitutedNoNul(zSql, 0, toks, new_);
    text := Text(zOut, nOut);
    EditMeans(zSql, zNew, bQuote, toks);
  }

  /** A single token, and tokens that have the new name already. */
  lemma EditMeans(zSql: seq<Byte>, zNew: seq<Byte>, bQuote: bool, toks: map<nat, nat>)
    requires OkTokens(zSql, toks)
    ensures var text := Substituted(zSql, 0, toks, New(if bQuote then Quoted(zNew) else zNew, Quoted(zNew)));
            && (forall z :: z in toks && toks.Keys == {z} ==>
                  text == zSql[..z] + (if bQuote || !IdChar(zSql[z]) then Quoted(zNew) else zNew) + zSql[z+toks[z]..])
            && (!bQuote && AllRead(zSql, toks, zNew) ==> text == zSql)
  {
    forall z | z in toks && toks.Keys == {z}
      ensures Substituted(zSql, 0, toks, New(if bQuote then Quoted(zNew) else zNew, Quoted(zNew)))
              == zSql[..z] + (if bQuote || !IdChar(zSql[z]) then Quoted(zNew) else zNew) + zSql[z+toks[z]..]
    {
      assert toks == map[z := toks[z]];
      OneToken(zSql, z, toks[z], New(if bQuote then Quoted(zNew) else zNew, Quoted(zNew)));
    }
    if !bQuote && AllRead(zSql, toks, zNew) {
      SameName(zSql, 0, toks, zNew);
      assert zSql[0..] == zSql;
    }
  }
}

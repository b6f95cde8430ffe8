/** The automaton of sqlite3_complete() accepts exactly the lists of complete
    statements. */
module CompleteProof {
  import opened CompleteSpec

  predicate NoWs(s: seq<Code>) {
    forall i :: 0 <= i < |s| ==> s[i] != WS
  }

  predicate NoSemi(s: seq<Code>) {
    forall i :: 0 <= i < |s| ==> s[i] != SEMI
  }

  /** No part of the tokens, from the first one on, brings the automaton back to START. */
  predicate Live(s: seq<Code>) {
    forall k :: 0 < k < |s| ==> Run(1, s[..k]) != 1
  }

  // ----- what the states say -----

  /** In a trigger body that starts at `n` and does not end. */
  predicate InBody(s: seq<Code>, n: nat, q: Code) {
    && HeadAt(s, n) && NoEnd(s, n, -1)
    && (q == 6 <==> |s| > n && s[|s|-1] == SEMI)
    && (q == 7 <==> |s| > n + 1 && s[|s|-2] == SEMI && s[|s|-1] == END)
  }

  predicate Means(s: seq<Code>, q: Code) {
    match q
    case 0 => false
    case 1 => Statement(s)
    case 2 => NoSemi(s) && !IsExplain(s) && !IsCreate(s) && !HasHead(s)
    case 3 => NoSemi(s) && IsExplain(s) && !IsCreate(s) && !HasHead(s)
    case 4 => NoSemi(s) && !IsExplain(s) && IsCreate(s) && !HasHead(s)
    case _ => exists n :: 0 <= n <= |s| && InBody(s, n, q)
  }

  lemma CreateNotExplain(s: seq<Code>)
    requires IsCreate(s)
    ensures !IsExplain(s) && NoSemi(s)
  {
    var a :| 0 <= a < |s| && CreateAt(s, a);
    assert a > 0 ==> forall i :: 0 <= i < a ==> s[..a][i] == s[i];
  }

  /** The first token of a statement */
  lemma MeansFirst(x: Code)
    requires x != WS
    ensures Means([x], Step(1, x))
  {
    Table(1, x);
    assert [] + [x] == [x];
    ExplainGrows([], x);
    CreateGrows([], x);
    HeadGrows([], x);
    if x == CREATE {
      CreateNotExplain([x]);
    }
  }

  /** One more token before the head of a trigger is complete. */
  lemma MeansNormal(s: seq<Code>, q: Code, x: Code)
    requires s != [] && 2 <= q <= 4 && Means(s, q) && x != WS
    ensures Means(s + [x], Step(q, x))
  {
    Table(q, x);
    ExplainGrows(s, x);
    CreateGrows(s, x);
    HeadGrows(s, x);
    var r := s + [x];
    assert r[|r|-1] == x && forall i :: 0 <= i < |s| ==> r[i] == s[i];
    if IsCreate(r) {
      CreateNotExplain(r);
    }
    if x == TRIGGER && IsCreate(s) {
      assert InBody(r, |r|, 5);
    }
  }

  lemma EndStays(s: seq<Code>, x: Code, n: nat)
    requires NoEnd(s, n, -1)
    ensures NoEnd(s + [x], n, |s| - 2)
  {
    var r := s + [x];
    forall k | n <= k < |r| && k != |s| - 2 ensures !EndAt(r, k) {
      if EndAt(r, k) {
        assert EndAt(s, k);
      }
    }
  }

  /** One more token in the body of a trigger. */
  lemma MeansBody(s: seq<Code>, q: Code, x: Code)
    requires q >= 5 && Means(s, q) && x != WS
    ensures Means(s + [x], Step(q, x))
  {
    Table(q, x);
    var n :| 0 <= n <= |s| && InBody(s, n, q);
    var r := s + [x];
    assert r[|r|-1] == x && forall i :: 0 <= i < |s| ==> r[i] == s[i];
    HeadStays(s, x, n);
    EndStays(s, x, n);
    assert HeadAt(r, n);
    if q == 7 && x == SEMI {
      assert EndAt(r, |r| - 3) && HasHead(r);
    } else {
      assert |s| - 2 >= n ==> !EndAt(r, |s| - 2);
      assert NoEnd(r, n, -1);
      assert InBody(r, n, Step(q, x));
    }
  }

  lemma Between(s: seq<Code>, q: Code)
    requires Means(s, q) && q != 1
    ensures q >= 2
  {
  }

  /** Until the automaton comes back to START, its state says what has been read. */
  lemma {:induction false} StateMeans(s: seq<Code>)
    requires s != [] && NoWs(s) && Live(s)
    ensures Means(s, Run(1, s))
    decreases |s|
  {
    hide Means;
    var n := |s| - 1;
    var t, x := s[..n], s[n];
    assert s == t + [x];
    if t == [] {
      assert s == [x];
      MeansFirst(x);
    } else {
      assert forall k :: 0 < k <= n ==> t[..k] == s[..k];
      assert Run(1, s[..n]) != 1;
      StateMeans(t);
      var q := Run(1, t);
      Between(t, q);
      if q <= 4 { MeansNormal(t, q, x); } else { MeansBody(t, q, x); }
    }
  }

  lemma MeansStatement(s: seq<Code>, q: Code)
    requires s != [] && Means(s, q)
    ensures q == 1 <==> Statement(s)
  {
    if q >= 5 {
      var n :| 0 <= n <= |s| && InBody(s, n, q);
      assert HasHead(s);
      if Statement(s) {
        var m :| 0 <= m <= |s| - 3 && HeadAt(s, m) && EndAt(s, |s| - 3) && NoEnd(s, m, |s| - 3);
        HeadUnique(s, n, m);
        assert false;
      }
    }
  }

  // ----- statements are prefix-free -----

  lemma HeadNoSemi(s: seq<Code>, n: nat, i: nat)
    requires HeadAt(s, n) && i < n
    ensures s[i] != SEMI
  {
    CreateNotExplain(s[..n-1]);
    assert i < n - 1 ==> s[..n-1][i] == s[i];
  }

  lemma HeadOfPrefix(s: seq<Code>, k: nat, n: nat)
    requires n <= k <= |s|
    ensures HeadAt(s, n) <==> HeadAt(s[..k], n)
  {
    if n > 0 {
      assert s[..k][..n-1] == s[..n-1] && s[..k][n-1] == s[n-1];
    }
  }

  /** No complete statement is a proper beginning of another one. */
  lemma PrefixFree(s: seq<Code>, k: nat)
    requires 0 < k < |s| && Statement(s[..k])
    ensures !Statement(s)
  {
    hide IsCreate;
    var p := s[..k];
    assert forall i :: 0 <= i < k ==> p[i] == s[i];
    if HasHead(p) {
      var n :| 0 <= n <= |p| - 3 && HeadAt(p, n) && EndAt(p, |p| - 3) && NoEnd(p, n, |p| - 3);
      HeadOfPrefix(s, k, n);
      assert HasHead(s) && EndAt(s, k - 3);
      if Statement(s) {
        var m :| 0 <= m <= |s| - 3 && HeadAt(s, m) && EndAt(s, |s| - 3) && NoEnd(s, m, |s| - 3);
        HeadUnique(s, n, m);
      }
    } else {
      assert s[k-1] == SEMI;
      if HasHead(s) {
        var n :| 0 <= n <= |s| && HeadAt(s, n);
        if n <= k {
          HeadOfPrefix(s, k, n);
        } else {
          HeadNoSemi(s, n, k - 1);
        }
      }
    }
  }

  // ----- the theorem -----

  lemma {:induction false} RunAppend(q: Code, a: seq<Code>, b: seq<Code>)
    ensures Run(q, a + b) == Run(Run(q, a), b)
    decreases |b|
  {
    hide Step;
    if b == [] {
      assert a + b == a;
    } else {
      var n := |b| - 1;
      var c := a + b;
      assert |c| - 1 == |a| + n && c[..|a|+n] == a + b[..n] && c[|a|+n] == b[n];
      RunAppend(q, a, b[..n]);
    }
  }

  lemma RunNone(q: Code)
    ensures Run(q, []) == q
  {
  }

  lemma RunOne(q: Code, s: seq<Code>, x: Code)
    ensures Run(q, s + [x]) == Step(Run(q, s), x)
  {
    assert (s + [x])[..|s|] == s;
  }

  /** The first time that the automaton comes back to START. */
  lemma {:induction false} FirstReturn(s: seq<Code>, j: nat) returns (k: nat)
    requires 0 < j <= |s| && Run(1, s[..j]) == 1
    ensures 0 < k <= j && Live(s[..k]) && Run(1, s[..k]) == 1
    decreases j
  {
    if i :| 0 < i < j && Run(1, s[..i]) == 1 {
      k := FirstReturn(s, i);
    } else {
      k := j;
      assert forall i :: 0 < i < j ==> s[..j][..i] == s[..i];
    }
  }

  /** A complete statement brings the automaton from START back to START, and
      nothing shorter does. */
  lemma StatementReturns(s: seq<Code>)
    requires s != [] && NoWs(s)
    ensures Statement(s) <==> Live(s) && Run(1, s) == 1
  {
    if Live(s) {
      StateMeans(s);
      MeansStatement(s, Run(1, s));
    } else {
      var j :| 0 < j < |s| && Run(1, s[..j]) == 1;
      var k := FirstReturn(s, j);
      StateMeans(s[..k]);
      MeansStatement(s[..k], 1);
      PrefixFree(s, k);
    }
  }

  /** The automaton ends in START exactly for one or more complete statements. */
  lemma {:induction false} AcceptsStatements(s: seq<Code>)
    requires NoWs(s)
    ensures Statements(s) <==> s != [] && Run(1, s) == 1
    decreases |s|
  {
    hide Statement, Live, Step;
    forall n | 0 < n <= |s| && (Statement(s[..n]) || (Live(s[..n]) && Run(1, s[..n]) == 1))
      ensures (Statements(s[n..]) <==> n < |s| && Run(1, s) == 1) && (n == |s| ==> Run(1, s) == 1)
      ensures Statement(s[..n])
    {
      StatementReturns(s[..n]);
      RunAppend(1, s[..n], s[n..]);
      assert s[..n] + s[n..] == s;
      AcceptsStatements(s[n..]);
    }
    if s != [] && Run(1, s) == 1 {
      assert s[..|s|] == s;
      var k := FirstReturn(s, |s|);
      assert Statement(s[..k]);
    }
  }

  /** From the INVALID state the automaton moves as from START, but for no tokens at all. */
  lemma {:induction false} FromInvalid(s: seq<Code>)
    requires NoWs(s)
    ensures Run(0, s) == if s == [] then 0 else Run(1, s)
  {
    if s != [] {
      var n := |s| - 1;
      FromInvalid(s[..n]);
      Table(0, s[n]);
      Table(1, s[n]);
    }
  }
}

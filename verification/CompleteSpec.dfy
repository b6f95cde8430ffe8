/** When is SQL text a list of complete statements: a language over tokens and the
    automaton that is to accept it. */
module CompleteSpec {

  type Code = x: nat | x < 8

  // Tokens
  const SEMI: Code := 0
  const WS: Code := 1
  const OTHER: Code := 2
  const EXPLAIN: Code := 3
  const CREATE: Code := 4
  const TEMP: Code := 5
  const TRIGGER: Code := 6
  const END: Code := 7

  // ----- the language -----

  /** EXPLAIN and any other tokens */
  predicate IsExplain(s: seq<Code>) {
    s != [] && s[0] == EXPLAIN && forall i :: 1 <= i < |s| ==> s[i] == OTHER
  }

  /** CREATE and any number of TEMP, perhaps after EXPLAIN and other tokens: the
      CREATE is at `a`. */
  predicate CreateAt(s: seq<Code>, a: nat) {
    a < |s| && s[a] == CREATE && (a == 0 || IsExplain(s[..a])) && forall i :: a < i < |s| ==> s[i] == TEMP
  }

  predicate IsCreate(s: seq<Code>) {
    exists a :: 0 <= a < |s| && CreateAt(s, a)
  }

  /** The first `n` tokens are the head of a CREATE TRIGGER statement. */
  predicate HeadAt(s: seq<Code>, n: nat) {
    0 < n <= |s| && s[n-1] == TRIGGER && IsCreate(s[..n-1])
  }

  predicate HasHead(s: seq<Code>) {
    exists n :: 0 <= n <= |s| && HeadAt(s, n)
  }

  /** `; END ;` at position `k` */
  predicate EndAt(s: seq<Code>, k: nat) {
    k + 2 < |s| && s[k] == SEMI && s[k+1] == END && s[k+2] == SEMI
  }

  /** No `; END ;` that begins after the head of `n` tokens, except at `last`. */
  predicate NoEnd(s: seq<Code>, n: nat, last: int) {
    forall k :: n <= k < |s| && k != last ==> !EndAt(s, k)
  }

  /** One complete statement: a CREATE TRIGGER ends at its first `; END ;`, any other
      statement at its first semicolon. */
  predicate Statement(s: seq<Code>) {
    if HasHead(s) then
      exists n :: 0 <= n <= |s| - 3 && HeadAt(s, n) && EndAt(s, |s| - 3) && NoEnd(s, n, |s| - 3)
    else
      s != [] && s[|s|-1] == SEMI && forall i :: 0 <= i < |s| - 1 ==> s[i] != SEMI
  }

  /** One or more complete statements, one after the other. */
  predicate Statements(s: seq<Code>)
    decreases |s|
  {
    exists n :: 0 < n <= |s| && Statement(s[..n]) && (n == |s| || Statements(s[n..]))
  }

  // ----- the automaton -----

  //                                      SEMI WS OTHER EXPLAIN CREATE TEMP TRIGGER END
  const TRANS: seq<seq<Code>> := [/* INVALID */ [1, 0, 2, 3, 4, 2, 2, 2],
                                  /* START   */ [1, 1, 2, 3, 4, 2, 2, 2],
                                  /* NORMAL  */ [1, 2, 2, 2, 2, 2, 2, 2],
                                  /* EXPLAIN */ [1, 3, 3, 2, 4, 2, 2, 2],
                                  /* CREATE  */ [1, 4, 2, 2, 2, 4, 5, 2],
                                  /* TRIGGER */ [6, 5, 5, 5, 5, 5, 5, 5],
                                  /* SEMI    */ [6, 6, 5, 5, 5, 5, 5, 7],
                                  /* END     */ [1, 7, 5, 5, 5, 5, 5, 5]]

  function Step(state: Code, token: Code): Code {
    TRANS[state][token]
  }

  function Run(state: Code, s: seq<Code>): Code {
    if s == [] then state else Step(Run(state, s[..|s|-1]), s[|s|-1])
  }

  /** The table, row by row. */
  lemma Table(q: Code, t: Code)
    ensures t == WS ==> Step(q, t) == q
    ensures q <= 1 && t != WS ==> Step(q, t) == if t == SEMI then 1 else if t == EXPLAIN then 3 else if t == CREATE then 4 else 2
    ensures q == 2 && t != WS ==> Step(q, t) == if t == SEMI then 1 else 2
    ensures q == 3 && t != WS ==> Step(q, t) == if t == SEMI then 1 else if t == OTHER then 3 else if t == CREATE then 4 else 2
    ensures q == 4 && t != WS ==> Step(q, t) == if t == SEMI then 1 else if t == TEMP then 4 else if t == TRIGGER then 5 else 2
    ensures q == 5 && t != WS ==> Step(q, t) == if t == SEMI then 6 else 5
    ensures q == 6 && t != WS ==> Step(q, t) == if t == SEMI then 6 else if t == END then 7 else 5
    ensures q == 7 && t != WS ==> Step(q, t) == if t == SEMI then 1 else 5
  {
  }

  // ----- one more token -----

  lemma ExplainGrows(s: seq<Code>, x: Code)
    ensures IsExplain(s + [x]) <==> if s == [] then x == EXPLAIN else IsExplain(s) && x == OTHER
  {
    var r := s + [x];
    assert r[|s|] == x && forall i :: 0 <= i < |s| ==> r[i] == s[i];
  }

  lemma CreateGrows(s: seq<Code>, x: Code)
    ensures IsCreate(s + [x]) <==> (x == CREATE && (s == [] || IsExplain(s))) || (x == TEMP && IsCreate(s))
  {
    var r := s + [x];
    assert r[..|s|] == s;
    assert r[|s|] == x && forall i :: 0 <= i < |s| ==> r[i] == s[i];
    if IsCreate(r) {
      var a :| 0 <= a < |r| && CreateAt(r, a);
      if a < |s| {
        assert r[..a] == s[..a];
        assert CreateAt(s, a);
      }
    }
    if x == CREATE && (s == [] || IsExplain(s)) {
      assert CreateAt(r, |s|);
    }
    if x == TEMP && IsCreate(s) {
      var a :| 0 <= a < |s| && CreateAt(s, a);
      assert r[..a] == s[..a];
      assert CreateAt(r, a);
    }
  }

  lemma HeadStays(s: seq<Code>, x: Code, n: nat)
    requires n <= |s|
    ensures HeadAt(s + [x], n) <==> HeadAt(s, n)
  {
    var r := s + [x];
    if n > 0 {
      assert r[..n-1] == s[..n-1] && r[n-1] == s[n-1];
    }
  }

  lemma HeadGrows(s: seq<Code>, x: Code)
    ensures HasHead(s + [x]) <==> HasHead(s) || (x == TRIGGER && IsCreate(s))
    ensures x == TRIGGER && IsCreate(s) ==> HeadAt(s + [x], |s| + 1)
  {
    var r := s + [x];
    assert r[..|s|] == s && r[|s|] == x;
    if HasHead(r) {
      var n :| 0 <= n <= |r| && HeadAt(r, n);
      if n <= |s| {
        HeadStays(s, x, n);
      }
    }
    if HasHead(s) {
      var n :| 0 <= n <= |s| && HeadAt(s, n);
      HeadStays(s, x, n);
    }
    if x == TRIGGER && IsCreate(s) {
      assert HeadAt(r, |s| + 1);
    }
  }

  /** There is no TRIGGER before the one that ends the head. */
  lemma HeadUnique(s: seq<Code>, n: nat, m: nat)
    requires HeadAt(s, n) && HeadAt(s, m)
    ensures n == m
  {
    NoTrigger(s, n, m);
    NoTrigger(s, m, n);
  }

  lemma NoTrigger(s: seq<Code>, n: nat, m: nat)
    requires HeadAt(s, n) && HeadAt(s, m)
    ensures n >= m
  {
    var c := s[..m-1];
    var a :| 0 <= a < |c| && CreateAt(c, a);
    assert a > 0 ==> forall i :: 0 <= i < a ==> c[..a][i] == s[i] && s[i] != TRIGGER;
    assert forall i :: a <= i < m - 1 ==> c[i] == s[i] && s[i] != TRIGGER;
    assert s[n-1] == TRIGGER;
  }
}

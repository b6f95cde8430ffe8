/** Renaming in SQL text: what the edit of renameEditSql() is to produce. */
module RenameSpec {
  import opened Bytes

  /** A token of the text: its offset and its length. */
  datatype Token = Token(z: nat, n: nat)

  // ----- quoting -----

  const QUOTE: Byte := 34

  /** The text with every double quote doubled. */
  function Doubled(z: seq<Byte>): (r: seq<Byte>)
    ensures |r| >= |z|
  {
    if z == [] then [] else (if z[0] == QUOTE then [QUOTE, QUOTE] else [z[0]]) + Doubled(z[1..])
  }

  /** The format "%w" between double quotes. */
  function Quoted(z: seq<Byte>): (r: seq<Byte>)
    ensures |r| >= |z| + 2
  {
    [QUOTE] + Doubled(z) + [QUOTE]
  }

  /** What sqlite3Dequote() makes of the text after the opening double quote. */
  function Undoubled(z: seq<Byte>): seq<Byte> {
    if z == [] then []
    else if z[0] != QUOTE then [z[0]] + Undoubled(z[1..])
    else if |z| > 1 && z[1] == QUOTE then [QUOTE] + Undoubled(z[2..])
    else []
  }

  lemma {:induction false} DoubledUndone(z: seq<Byte>)
    ensures Undoubled(Doubled(z) + [QUOTE]) == z
  {
    if z != [] {
      var rest := Doubled(z[1..]) + [QUOTE];
      var head := if z[0] == QUOTE then [QUOTE, QUOTE] else [z[0]];
      assert Doubled(z) + [QUOTE] == head + rest;
      assert (head + rest)[|head|..] == rest;
      DoubledUndone(z[1..]);
    }
  }

  /** A quoted name reads back as the name, whatever characters it has. */
  lemma QuotedReadsBack(z: seq<Byte>)
    ensures Quoted(z)[0] == QUOTE && Undoubled(Quoted(z)[1..]) == z
  {
    assert Quoted(z)[1..] == Doubled(z) + [QUOTE];
    DoubledUndone(z);
  }

  lemma {:induction false} QuotedNoNul(z: seq<Byte>)
    requires NoNul(z)
    ensures NoNul(Quoted(z))
  {
    DoubledNoNul(z);
  }

  lemma {:induction false} DoubledNoNul(z: seq<Byte>)
    requires NoNul(z)
    ensures NoNul(Doubled(z))
  {
    if z != [] {
      DoubledNoNul(z[1..]);
    }
  }

  // ----- simultaneous substitution -----

  /** Tokens by offset: none is empty, none leaves the text, no two overlap. */
  ghost predicate OkTokens(sql: seq<Byte>, toks: map<nat, nat>) {
    && (forall z :: z in toks ==> toks[z] > 0 && z + toks[z] <= |sql|)
    && (forall z, y :: z in toks && y in toks && z < y ==> z + toks[z] <= y)
  }

  /** The texts that replace: `bare` for a token that starts with an identifier
      character, `quot` for any other one. */
  datatype New = New(bare: seq<Byte>, quot: seq<Byte>)

  function Replacement(sql: seq<Byte>, z: nat, new_: New): seq<Byte> {
    if IdChar(At(sql, z)) then new_.bare else new_.quot
  }

  /** Reading the text once from `i` on, with every token replaced where it stands. */
  ghost function Substituted(sql: seq<Byte>, i: nat, toks: map<nat, nat>, new_: New): (r: seq<Byte>)
    requires i <= |sql| && OkTokens(sql, toks)
    decreases |sql| - i
  {
    if i == |sql| then []
    else if i in toks then Replacement(sql, i, new_) + Substituted(sql, i + toks[i], toks, new_)
    else [sql[i]] + Substituted(sql, i + 1, toks, new_)
  }

  /** Text between tokens is copied. */
  lemma {:induction false} Copied(sql: seq<Byte>, i: nat, j: nat, toks: map<nat, nat>, new_: New)
    requires i <= j <= |sql| && OkTokens(sql, toks) && forall k :: i <= k < j ==> k !in toks
    ensures Substituted(sql, i, toks, new_) == sql[i..j] + Substituted(sql, j, toks, new_)
    decreases j - i
  {
    hide OkTokens, Replacement;
    if i < j {
      Copied(sql, i + 1, j, toks, new_);
      assert sql[i..j] == [sql[i]] + sql[i+1..j];
    }
  }

  /** Only the tokens from `i` on matter for the text from `i` on. */
  lemma {:induction false} SameTokens(sql: seq<Byte>, i: nat, toks: map<nat, nat>, more: map<nat, nat>, new_: New)
    requires i <= |sql| && OkTokens(sql, toks) && OkTokens(sql, more)
    requires forall k :: k >= i ==> (k in toks <==> k in more)
    requires forall k :: k >= i && k in toks ==> toks[k] == more[k]
    ensures Substituted(sql, i, toks, new_) == Substituted(sql, i, more, new_)
    decreases |sql| - i
  {
    if i < |sql| {
      SameTokens(sql, if i in toks then i + toks[i] else i + 1, toks, more, new_);
    }
  }

  lemma Apart(sql: seq<Byte>, done: map<nat, nat>, z: nat, n: nat, y: nat)
    requires OkTokens(sql, done[z := n]) && y in done && z < y
    ensures z + n <= y
  {
    var more := done[z := n];
    assert z in more && y in more && more[z] == n;
  }

  /** The text with one more token, in front of all others. */
  lemma FirstReplaced(sql: seq<Byte>, done: map<nat, nat>, z: nat, n: nat, new_: New)
    requires n > 0 && z + n <= |sql| && OkTokens(sql, done) && OkTokens(sql, done[z := n])
    requires forall y :: y in done ==> z + n <= y
    ensures Substituted(sql, 0, done[z := n], new_) ==
            sql[..z] + Replacement(sql, z, new_) + Substituted(sql, z + n, done, new_)
  {
    hide OkTokens, Replacement;
    var more := done[z := n];
    assert Substituted(sql, z, more, new_) == Replacement(sql, z, new_) + Substituted(sql, z + n, more, new_);
    hide Substituted;
    Copied(sql, 0, z, more, new_);
    assert sql[0..z] == sql[..z];
    SameTokens(sql, z + n, done, more, new_);
  }

  /** One more token, in front of all others: what stands before and after it. */
  lemma OneMore(sql: seq<Byte>, done: map<nat, nat>, z: nat, n: nat, new_: New)
    requires OkTokens(sql, done) && OkTokens(sql, done[z := n]) && forall y :: y in done ==> z < y
    requires n > 0 && z + n <= |sql|
    ensures var rest := Substituted(sql, z + n, done, new_);
            && Substituted(sql, 0, done, new_) == sql[..z+n] + rest
            && Substituted(sql, 0, done[z := n], new_) == sql[..z] + Replacement(sql, z, new_) + rest
  {
    hide Substituted, OkTokens, Replacement;
    forall y | y in done ensures z + n <= y {
      Apart(sql, done, z, n, y);
    }
    FirstReplaced(sql, done, z, n, new_);
    Copied(sql, 0, z + n, done, new_);
    assert sql[0..z+n] == sql[..z+n];
  }

  /** A single token: quoted, unless it starts like a bare identifier. */
  lemma OneToken(sql: seq<Byte>, z: nat, n: nat, new_: New)
    requires n > 0 && z + n <= |sql|
    ensures OkTokens(sql, map[z := n])
    ensures Substituted(sql, 0, map[z := n], new_) ==
            sql[..z] + (if IdChar(sql[z]) then new_.bare else new_.quot) + sql[z+n..]
  {
    NoTokens(sql, new_);
    assert map[][z := n] == map[z := n];
    OneMore(sql, map[], z, n, new_);
    Copied(sql, z + n, |sql|, map[], new_);
  }

  /** Every token reads as `name` does where it stands: bare, or quoted. */
  ghost predicate AllRead(sql: seq<Byte>, toks: map<nat, nat>, name: seq<Byte>)
    requires OkTokens(sql, toks)
  {
    forall z :: z in toks ==> sql[z..z+toks[z]] == if IdChar(sql[z]) then name else Quoted(name)
  }

  /** Renaming to the name that all tokens have changes nothing. */
  lemma {:induction false} SameName(sql: seq<Byte>, i: nat, toks: map<nat, nat>, name: seq<Byte>)
    requires i <= |sql| && OkTokens(sql, toks) && AllRead(sql, toks, name)
    ensures Substituted(sql, i, toks, New(name, Quoted(name))) == sql[i..]
    decreases |sql| - i
  {
    hide Quoted;
    if i < |sql| {
      var next := if i in toks then i + toks[i] else i + 1;
      SameName(sql, next, toks, name);
      assert sql[i..] == sql[i..next] + sql[next..];
    }
  }

  lemma NoTokens(sql: seq<Byte>, new_: New)
    ensures OkTokens(sql, map[]) && Substituted(sql, 0, map[], new_) == sql
  {
    Copied(sql, 0, |sql|, map[], new_);
    assert sql[0..|sql|] == sql;
  }

  lemma {:induction false} SubstitutedNoNul(sql: seq<Byte>, i: nat, toks: map<nat, nat>, new_: New)
    requires i <= |sql| && OkTokens(sql, toks) && NoNul(sql) && NoNul(new_.bare) && NoNul(new_.quot)
    ensures NoNul(Substituted(sql, i, toks, new_))
    decreases |sql| - i
  {
    if i < |sql| {
      SubstitutedNoNul(sql, if i in toks then i + toks[i] else i + 1, toks, new_);
    }
  }

  // ----- renaming back -----

  /** Where the tokens from `i` on stand in the new text, if `i` has come to `at`. */
  ghost function Moved(sql: seq<Byte>, i: nat, toks: map<nat, nat>, new_: New, at: nat): (r: map<nat, nat>)
    requires i <= |sql| && OkTokens(sql, toks)
    ensures forall z :: z in r ==> z >= at
    decreases |sql| - i
  {
    if i == |sql| then map[]
    else if i in toks then
      var n := |Replacement(sql, i, new_)|;
      Moved(sql, i + toks[i], toks, new_, at + n)[at := n]
    else Moved(sql, i + 1, toks, new_, at + 1)
  }

  lemma MovedOne(sql: seq<Byte>, at: nat, n: nat, rest: map<nat, nat>)
    requires OkTokens(sql, rest) && n > 0 && at + n <= |sql| && forall z :: z in rest ==> z >= at + n
    ensures OkTokens(sql, rest[at := n])
  {
  }

  /** The new text from a token on, or from a byte between tokens. */
  lemma SubstitutedStep(sql: seq<Byte>, i: nat, toks: map<nat, nat>, new_: New)
    requires i < |sql| && OkTokens(sql, toks)
    ensures i in toks ==> i + toks[i] <= |sql|
    ensures Substituted(sql, i, toks, new_) ==
            if i in toks then Replacement(sql, i, new_) + Substituted(sql, i + toks[i], toks, new_)
            else [sql[i]] + Substituted(sql, i + 1, toks, new_)
  {
  }

  /** A token that has moved to `at` turns back into the old text. */
  lemma BackToken(out: seq<Byte>, at: nat, n: nat, rest: map<nat, nat>, sql: seq<Byte>, i: nat, next: nat, o: New)
    requires OkTokens(out, rest) && (forall z :: z in rest ==> z >= at + n) && n > 0 && at + n <= |out|
    requires i <= next <= |sql| && Substituted(out, at + n, rest, o) == sql[next..]
    requires Replacement(out, at, o) == sql[i..next]
    ensures OkTokens(out, rest[at := n]) && Substituted(out, at, rest[at := n], o) == sql[i..]
  {
    hide Substituted, Replacement;
    MovedOne(out, at, n, rest);
    SameTokens(out, at + n, rest, rest[at := n], o);
    SubstitutedStep(out, at, rest[at := n], o);
    assert sql[i..] == sql[i..next] + sql[next..];
  }

  lemma BackByte(out: seq<Byte>, at: nat, back: map<nat, nat>, sql: seq<Byte>, i: nat, o: New)
    requires OkTokens(out, back) && (forall z :: z in back ==> z >= at + 1) && at < |out|
    requires i < |sql| && Substituted(out, at + 1, back, o) == sql[i+1..] && out[at] == sql[i]
    ensures Substituted(out, at, back, o) == sql[i..]
  {
    SubstitutedStep(out, at, back, o);
    assert sql[i..] == [sql[i]] + sql[i+1..];
  }

  lemma MovedStep(sql: seq<Byte>, i: nat, toks: map<nat, nat>, new_: New, at: nat)
    requires i < |sql| && OkTokens(sql, toks)
    ensures i in toks ==> i + toks[i] <= |sql|
    ensures Moved(sql, i, toks, new_, at) ==
            if i in toks then
              var n := |Replacement(sql, i, new_)|; Moved(sql, i + toks[i], toks, new_, at + n)[at := n]
            else Moved(sql, i + 1, toks, new_, at + 1)
  {
  }

  /** The token at `i` gives way to the new name, which reads as bare or quoted as it. */
  lemma ReplacedKind(sql: seq<Byte>, i: nat, toks: map<nat, nat>, old_: seq<Byte>, new_: seq<Byte>)
    requires OkTokens(sql, toks) && AllRead(sql, toks, old_) && new_ != [] && IdChar(new_[0]) && i in toks
    ensures i < i + toks[i] <= |sql|
    ensures var r := Replacement(sql, i, New(new_, Quoted(new_)));
            r != [] && (if IdChar(r[0]) then old_ else Quoted(old_)) == sql[i..i+toks[i]]
  {
  }

  /** The text is `head` and then `rest` from `at` on. */
  lemma Behind(out: seq<Byte>, at: nat, head: seq<Byte>, rest: seq<Byte>)
    requires at <= |out| && out[at..] == head + rest
    ensures at + |head| <= |out| && out[at+|head|..] == rest && (head != [] ==> out[at] == head[0])
  {
    assert out[at+|head|..] == out[at..][|head|..];
    assert head != [] ==> out[at] == out[at..][0];
  }

  lemma BackEnd(out: seq<Byte>, at: nat, sql: seq<Byte>, toks: map<nat, nat>, n: New, o: New)
    requires OkTokens(sql, toks) && at <= |out| && out[at..] == Substituted(sql, |sql|, toks, n)
    ensures var back := Moved(sql, |sql|, toks, n, at);
            OkTokens(out, back) && Substituted(out, at, back, o) == sql[|sql|..]
  {
  }

  /** The tokens, where they stand in the new text, replaced by the old name. */
  lemma {:induction false} BackFrom(out: seq<Byte>, at: nat, sql: seq<Byte>, i: nat, toks: map<nat, nat>, old_: seq<Byte>, new_: seq<Byte>)
    requires i <= |sql| && OkTokens(sql, toks) && AllRead(sql, toks, old_)
    requires new_ != [] && IdChar(new_[0])
    requires at <= |out| && out[at..] == Substituted(sql, i, toks, New(new_, Quoted(new_)))
    ensures var back := Moved(sql, i, toks, New(new_, Quoted(new_)), at);
            OkTokens(out, back) && Substituted(out, at, back, New(old_, Quoted(old_))) == sql[i..]
    decreases |sql| - i
  {
    hide Substituted, Moved, OkTokens, AllRead, Quoted;
    var n, o := New(new_, Quoted(new_)), New(old_, Quoted(old_));
    if i == |sql| {
      BackEnd(out, at, sql, toks, n, o);
    } else {
      SubstitutedStep(sql, i, toks, n);
      MovedStep(sql, i, toks, n, at);
      if i in toks {
        var r, next := Replacement(sql, i, n), i + toks[i];
        ReplacedKind(sql, i, toks, old_, new_);
        Behind(out, at, r, Substituted(sql, next, toks, n));
        BackFrom(out, at + |r|, sql, next, toks, old_, new_);
        BackToken(out, at, |r|, Moved(sql, next, toks, n, at + |r|), sql, i, next, o);
      } else {
        Behind(out, at, [sql[i]], Substituted(sql, i + 1, toks, n));
        BackFrom(out, at + 1, sql, i + 1, toks, old_, new_);
        BackByte(out, at, Moved(sql, i + 1, toks, n, at + 1), sql, i, o);
      }
    }
  }

  /** Renaming, and renaming the same tokens back, restores the text. */
  lemma RenamedBack(sql: seq<Byte>, toks: map<nat, nat>, old_: seq<Byte>, new_: seq<Byte>)
    requires OkTokens(sql, toks) && AllRead(sql, toks, old_) && new_ != [] && IdChar(new_[0])
    ensures var n := New(new_, Quoted(new_));
            var out, back := Substituted(sql, 0, toks, n), Moved(sql, 0, toks, n, 0);
            OkTokens(out, back) && Substituted(out, 0, back, New(old_, Quoted(old_))) == sql
  {
    var out := Substituted(sql, 0, toks, New(new_, Quoted(new_)));
    assert out[0..] == out && sql[0..] == sql;
    BackFrom(out, 0, sql, 0, toks, old_, new_);
  }
}

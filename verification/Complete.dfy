/** sqlite3_complete(): the scanner of SQL text, on top of the automaton. */
module Complete {
  import opened Bytes
  import opened CompleteSpec
  import opened Seqs
  import CompleteProof
  import CompleteText

  // ----- the tokens of SQL text -----

  const NL: Byte := 10

  /** The first position from `i` on with byte `c`, or the end of the text. */
  function Find(z: seq<Byte>, c: Byte, i: nat): (k: nat)
    requires i <= |z|
    ensures i <= k <= |z| && (k < |z| ==> z[k] == c) && forall j :: i <= j < k ==> z[j] != c
    decreases |z| - i
  {
    if i == |z| || z[i] == c then i else Find(z, c, i + 1)
  }

  /** The first `*` from `i` on that a `/` follows, or the end of the text. */
  function FindClose(z: seq<Byte>, i: nat): (k: nat)
    requires i <= |z|
    ensures i <= k <= |z| && (k < |z| ==> k + 1 < |z| && z[k] == 42 && z[k+1] == 47)
    ensures forall j :: i <= j < k ==> !(z[j] == 42 && At(z, j + 1) == 47)
    decreases |z| - i
  {
    if i == |z| || (z[i] == 42 && At(z, i + 1) == 47) then i else FindClose(z, i + 1)
  }

  /** The end of the run of identifier characters from `i` on. */
  function IdEnd(z: seq<Byte>, i: nat): (k: nat)
    requires i <= |z|
    ensures i <= k <= |z| && (k < |z| ==> !IdChar(z[k])) && forall j :: i <= j < k ==> IdChar(z[j])
    decreases |z| - i
  {
    if i < |z| && IdChar(z[i]) then IdEnd(z, i + 1) else i
  }

  // The keywords that matter, in lower case.
  const WORD_CREATE: seq<Byte> := [99, 114, 101, 97, 116, 101]
  const WORD_TRIGGER: seq<Byte> := [116, 114, 105, 103, 103, 101, 114]
  const WORD_TEMP: seq<Byte> := [116, 101, 109, 112]
  const WORD_TEMPORARY: seq<Byte> := [116, 101, 109, 112, 111, 114, 97, 114, 121]
  const WORD_END: seq<Byte> := [101, 110, 100]
  const WORD_EXPLAIN: seq<Byte> := [101, 120, 112, 108, 97, 105, 110]

  /** The token of a word, whatever its letter case. */
  function Keyword(word: seq<Byte>): (t: Code)
    ensures t != WS && t != SEMI
  {
    var w := Fold(word);
    if w == WORD_CREATE then CREATE
    else if w == WORD_TRIGGER then TRIGGER
    else if w == WORD_TEMP || w == WORD_TEMPORARY then TEMP
    else if w == WORD_END then END
    else if w == WORD_EXPLAIN then EXPLAIN
    else OTHER
  }

  /** A token with the position after it; or a comment, string or identifier that
      the text does not close; or a line comment that the text ends. */
  datatype Lexeme = Tok(token: Code, next: nat) | Open | LastComment

  function Closed(z: seq<Byte>, k: nat, token: Code, n: nat): Lexeme {
    if k < |z| then Tok(token, k + n) else Open
  }

  /** The lexeme at `i`. */
  function Lex(z: seq<Byte>, i: nat): (l: Lexeme)
    requires i < |z|
    ensures l.Tok? ==> i < l.next <= |z|
  {
    var c := z[i];
    if c == 59 then Tok(SEMI, i + 1)
    else if c == 32 || c == 13 || c == 9 || c == 10 || c == 12 then Tok(WS, i + 1)
    else if c == 47 && At(z, i + 1) == 42 then Closed(z, FindClose(z, i + 2), WS, 2)
    else if c == 45 && At(z, i + 1) == 45 then
      var k := Find(z, NL, i);
      if k < |z| then Tok(WS, k + 1) else LastComment
    else if c == 91 then Closed(z, Find(z, 93, i + 1), OTHER, 1)
    else if c == 96 || c == 34 || c == 39 then Closed(z, Find(z, c, i + 1), OTHER, 1)
    else if IdChar(c) then
      var k := IdEnd(z, i + 1);
      Tok(Keyword(z[i..k]), k)
    else Tok(OTHER, i + 1)
  }

  /** The tokens from `i` on without white space and comments, unless something
      stays open. */
  function Tokens(z: seq<Byte>, i: nat): Option<seq<Code>>
    requires i <= |z|
    decreases |z| - i
  {
    if i == |z| then Some([])
    else match Lex(z, i)
      case Open => None
      case LastComment => Some([])
      case Tok(t, next) =>
        var rest := Tokens(z, next);
        if rest.None? || t == WS then rest else Some([t] + rest.value)
  }

  lemma {:induction false} TokensNoWs(z: seq<Byte>, i: nat)
    requires i <= |z|
    ensures Tokens(z, i).Some? ==> CompleteProof.NoWs(Tokens(z, i).value)
    decreases |z| - i
  {
    if i < |z| && Lex(z, i).Tok? {
      TokensNoWs(z, Lex(z, i).next);
    }
  }

  // ----- the lexemes are the pieces of the text -----

  lemma SameBytes(c: Byte)
    ensures IdChar(c) <==> CompleteText.WordByte(c)
    ensures c == 32 || c == 13 || c == 9 || c == 10 || c == 12 <==> CompleteText.AnyOf(c, " \t\n\r\U{000C}")
    ensures c == 59 || c == 96 || c == 34 || c == 39 || c == 91 <==> CompleteText.AnyOf(c, ";'\"`[")
  {
    var space, quote := " \t\n\r\U{000C}", ";'\"`[";
    assert space[0] == ' ' && space[1] == '\t' && space[2] == '\n' && space[3] == '\r' && space[4] == '\U{000C}';
    assert quote[0] == ';' && quote[1] == '\'' && quote[2] == '"' && quote[3] == '`' && quote[4] == '[';
  }

  lemma SpellsIs(w: seq<Byte>, s: string, word: seq<Byte>)
    requires |word| == |s| && forall k :: 0 <= k < |s| ==> 97 <= word[k] <= 122 && word[k] == s[k] as int
    ensures CompleteText.Spells(w, s) <==> Fold(w) == word
  {
  }

  lemma KeywordMeans(w: seq<Byte>, t: Code)
    ensures CompleteText.Means(w, t) <==> t == Keyword(w)
  {
    SpellsIs(w, "create", WORD_CREATE);
    SpellsIs(w, "trigger", WORD_TRIGGER);
    SpellsIs(w, "temp", WORD_TEMP);
    SpellsIs(w, "temporary", WORD_TEMPORARY);
    SpellsIs(w, "end", WORD_END);
    SpellsIs(w, "explain", WORD_EXPLAIN);
    hide Fold, CompleteText.Spells;
  }

  /** The end of a quotation, if there is one, decides which piece it is. */
  lemma QuotationIs(z: seq<Byte>, i: nat, open: char, close: char, n: nat)
    requires i < |z| && CompleteText.Is(z[i], open) && (close as int) < 256 && i < n <= |z|
    ensures var k := Find(z, close as int, i + 1);
            && (CompleteText.Quotation(z[i..n], open, close) <==> k < |z| && n == k + 1)
            && (CompleteText.OpenQuotation(z[i..], open, close) <==> k == |z|)
  {
    var k, w := Find(z, close as int, i + 1), z[i..n];
    assert forall j :: 0 <= j < |w| ==> w[j] == z[i + j];
    assert forall j :: 0 <= j < |z| - i ==> z[i..][j] == z[i + j];
    if k < |z| {
      assert z[i..][k - i] == z[k];
      if n > k { assert w[k - i] == z[k]; }
    }
    if CompleteText.Quotation(w, open, close) {
      assert z[n-1] == close as int;
    }
  }

  lemma BlockIs(z: seq<Byte>, i: nat, n: nat)
    requires i + 1 < |z| && z[i] == 47 && z[i+1] == 42 && i < n <= |z|
    ensures var k := FindClose(z, i + 2);
            && (CompleteText.BlockComment(z[i..n]) <==> k < |z| && n == k + 2)
            && (CompleteText.OpenBlock(z[i..]) <==> k == |z|)
  {
    var k, w, v := FindClose(z, i + 2), z[i..n], z[i..];
    assert forall j :: 0 <= j < |w| ==> w[j] == z[i + j];
    assert forall j :: 0 <= j < |v| ==> v[j] == z[i + j];
    forall j | 2 <= j ensures CompleteText.Closes(v, j) <==> i + j < |z| && z[i+j] == 42 && At(z, i + j + 1) == 47
    {
    }
    if k + 2 < n {
      assert CompleteText.Closes(w, k - i);
    }
    if CompleteText.BlockComment(w) {
      assert z[n-2] == 42 && z[n-1] == 47 && i + 2 <= n - 2;
    }
    if k < |z| {
      assert CompleteText.Closes(v, k - i);
      if n == k + 2 {
        forall j | 2 <= j < |w| - 2 ensures !CompleteText.Closes(w, j) {
          assert !(z[i+j] == 42 && At(z, i + j + 1) == 47);
        }
      }
    } else {
      forall j | 2 <= j < |v| ensures !CompleteText.Closes(v, j) {
        assert !(z[i+j] == 42 && At(z, i + j + 1) == 47);
      }
    }
  }

  lemma LineIs(z: seq<Byte>, i: nat, n: nat)
    requires i + 1 < |z| && z[i] == 45 && z[i+1] == 45 && i < n <= |z|
    ensures var k := Find(z, NL, i);
            && (CompleteText.LineComment(z[i..n]) <==> k < |z| && n == k + 1)
            && (CompleteText.LastLine(z[i..]) <==> k == |z|)
  {
    var k, w, v := Find(z, NL, i), z[i..n], z[i..];
    assert forall j :: 0 <= j < |w| ==> w[j] == z[i + j];
    assert forall j :: 0 <= j < |v| ==> v[j] == z[i + j];
    if k < |z| {
      assert k >= i + 2 && v[k-i] == NL;
      if n > k { assert w[k-i] == NL; }
    }
    if CompleteText.LineComment(w) {
      assert z[n-1] == NL;
    }
  }

  lemma WordIs(z: seq<Byte>, i: nat, n: nat)
    requires i < |z| && IdChar(z[i]) && i < n <= |z|
    ensures CompleteText.Word(z[i..n]) && !CompleteText.WordByte(At(z, n)) <==> n == IdEnd(z, i + 1)
  {
    var k, w := IdEnd(z, i + 1), z[i..n];
    assert forall j :: 0 <= j < |w| ==> w[j] == z[i + j];
    if n > k {
      assert w[k-i] == z[k];
    }
  }

  /** The kinds of pieces that can start with the byte at `i`. */
  lemma FirstByte(z: seq<Byte>, i: nat, n: nat, t: Code)
    requires i < n <= |z|
    ensures var c, w, p := z[i], z[i..n], CompleteText.PieceAt(z, i, n, t);
            && (c == 59 ==> (p <==> t == SEMI && n == i + 1))
            && (c == 32 || c == 13 || c == 9 || c == 10 || c == 12 ==> (p <==> t == WS && n == i + 1))
            && (c == 39 ==> (p <==> t == OTHER && CompleteText.Quotation(w, '\'', '\'')))
            && (c == 34 ==> (p <==> t == OTHER && CompleteText.Quotation(w, '"', '"')))
            && (c == 96 ==> (p <==> t == OTHER && CompleteText.Quotation(w, '`', '`')))
            && (c == 91 ==> (p <==> t == OTHER && CompleteText.Quotation(w, '[', ']')))
            && (IdChar(c) ==> (p <==> CompleteText.Word(w) && !CompleteText.WordByte(At(z, n)) && CompleteText.Means(w, t)))
  {
    var w := z[i..n];
    assert w[0] == z[i];
    SameBytes(z[i]);
    hide CompleteText.WordByte, CompleteText.AnyOf, CompleteText.Means, IdChar;
  }

  lemma OtherByte(z: seq<Byte>, i: nat, n: nat, t: Code)
    requires i < n <= |z| && !IdChar(z[i]) && z[i] !in [59, 32, 13, 9, 10, 12, 39, 34, 96, 91]
    ensures var c, d, w, p := z[i], At(z, i + 1), z[i..n], CompleteText.PieceAt(z, i, n, t);
            if c == 47 && d == 42 then p <==> t == WS && CompleteText.BlockComment(w)
            else if c == 45 && d == 45 then p <==> t == WS && CompleteText.LineComment(w)
            else p <==> t == OTHER && n == i + 1
  {
    var w := z[i..n];
    assert w[0] == z[i] && (|w| > 1 ==> w[1] == z[i+1]);
    SameBytes(z[i]);
    hide CompleteText.WordByte, CompleteText.AnyOf, CompleteText.Means, IdChar;
  }

  /** The lexeme at `i` is the one piece of the text that starts there. */
  lemma PieceIsLex(z: seq<Byte>, i: nat, n: nat, t: Code)
    requires i < |z|
    ensures CompleteText.PieceAt(z, i, n, t) <==> Lex(z, i) == Tok(t, n)
  {
    if i < n <= |z| {
      var c := z[i];
      FirstByte(z, i, n, t);
      hide CompleteText.PieceAt, IdChar, CompleteText.WordByte, CompleteText.Word, CompleteText.Means;
      if c in [59, 32, 13, 9, 10, 12] {
      } else if c == 39 {
        QuotationIs(z, i, '\'', '\'', n);
      } else if c == 34 {
        QuotationIs(z, i, '"', '"', n);
      } else if c == 96 {
        QuotationIs(z, i, '`', '`', n);
      } else if c == 91 {
        QuotationIs(z, i, '[', ']', n);
      } else if IdChar(c) {
        WordIs(z, i, n);
        KeywordMeans(z[i..n], t);
      } else {
        OtherByte(z, i, n, t);
        if c == 47 && At(z, i + 1) == 42 {
          BlockIs(z, i, n);
        } else if c == 45 && At(z, i + 1) == 45 {
          LineIs(z, i, n);
        }
      }
    }
  }

  /** Something is open, or the last line comment begins, exactly where the text says so. */
  lemma OpenIsLex(z: seq<Byte>, i: nat)
    requires i < |z|
    ensures CompleteText.Unclosed(z[i..]) <==> Lex(z, i) == Open
    ensures CompleteText.LastLine(z[i..]) <==> Lex(z, i) == LastComment
  {
    var c, v := z[i], z[i..];
    assert v[0] == c && (|v| > 1 ==> v[1] == z[i+1]);
    if c == 39 {
      QuotationIs(z, i, '\'', '\'', i + 1);
    } else if c == 34 {
      QuotationIs(z, i, '"', '"', i + 1);
    } else if c == 96 {
      QuotationIs(z, i, '`', '`', i + 1);
    } else if c == 91 {
      QuotationIs(z, i, '[', ']', i + 1);
    } else if c == 47 && At(z, i + 1) == 42 {
      BlockIs(z, i, i + 1);
    } else if c == 45 && At(z, i + 1) == 45 {
      LineIs(z, i, i + 1);
    }
  }

  lemma LexMeans(z: seq<Byte>, i: nat)
    requires i < |z|
    ensures match Lex(z, i)
            case Tok(t, n) => CompleteText.PieceAt(z, i, n, t)
            case Open => CompleteText.Unclosed(z[i..])
            case LastComment => CompleteText.LastLine(z[i..])
  {
    var l := Lex(z, i);
    hide Lex, CompleteText.PieceAt, CompleteText.Unclosed, CompleteText.LastLine;
    OpenIsLex(z, i);
    if l.Tok? {
      PieceIsLex(z, i, l.next, l.token);
    }
  }

  /** A text that can be read has the tokens of its pieces. */
  lemma {:induction false} ReadsTokens(z: seq<Byte>, cuts: seq<nat>, codes: seq<Code>)
    requires CompleteText.Reads(z, cuts, codes)
    ensures cuts[0] <= |z| && Tokens(z, cuts[0]) == Some(CompleteText.Solid(codes))
    decreases |codes|
  {
    hide Lex, CompleteText.PieceAt, CompleteText.LastLine;
    var i := cuts[0];
    if codes != [] {
      assert CompleteText.PieceAt(z, cuts[0], cuts[1], codes[0]);
      PieceInside(z, cuts[0], cuts[1], codes[0]);
      PieceIsLex(z, cuts[0], cuts[1], codes[0]);
      ReadsLess(z, cuts, codes);
      ReadsTokens(z, cuts[1..], codes[1..]);
      var rest := CompleteText.Solid(codes[1..]);
      assert CompleteText.Solid(codes) == if codes[0] == WS then rest else [codes[0]] + rest;
    } else if i < |z| {
      OpenIsLex(z, i);
    }
  }

  lemma ReadsLess(z: seq<Byte>, cuts: seq<nat>, codes: seq<Code>)
    requires CompleteText.Reads(z, cuts, codes) && codes != []
    ensures CompleteText.Reads(z, cuts[1..], codes[1..])
  {
    hide CompleteText.PieceAt, CompleteText.LastLine;
    var cuts', codes' := cuts[1..], codes[1..];
    forall k | 0 <= k < |codes'| ensures CompleteText.PieceAt(z, cuts'[k], cuts'[k+1], codes'[k]) {
      var m := k + 1;
      assert CompleteText.PieceAt(z, cuts[m], cuts[m+1], codes[m]);
    }
  }

  lemma PieceInside(z: seq<Byte>, i: nat, n: nat, t: Code)
    requires CompleteText.PieceAt(z, i, n, t)
    ensures i < n <= |z|
  {
  }

  /** A text that has tokens can be read. */
  lemma {:induction false} TokensRead(z: seq<Byte>, i: nat) returns (cuts: seq<nat>, codes: seq<Code>)
    requires i <= |z| && Tokens(z, i).Some?
    ensures CompleteText.Reads(z, cuts, codes) && cuts[0] == i && Tokens(z, i).value == CompleteText.Solid(codes)
    decreases |z| - i
  {
    hide CompleteText.PieceAt, CompleteText.LastLine;
    cuts, codes := [i], [];
    if i < |z| {
      var l := Lex(z, i);
      hide Lex;
      OpenIsLex(z, i);
      if l.Tok? {
        PieceIsLex(z, i, l.next, l.token);
        cuts, codes := TokensRead(z, l.next);
        ReadsMore(z, cuts, codes, i, l.token);
        cuts, codes := [i] + cuts, [l.token] + codes;
      }
    }
  }

  lemma ReadsMore(z: seq<Byte>, cuts: seq<nat>, codes: seq<Code>, i: nat, t: Code)
    requires CompleteText.Reads(z, cuts, codes) && CompleteText.PieceAt(z, i, cuts[0], t)
    ensures CompleteText.Reads(z, [i] + cuts, [t] + codes)
    ensures CompleteText.Solid([t] + codes) == (if t == WS then [] else [t]) + CompleteText.Solid(codes)
  {
    hide CompleteText.PieceAt, CompleteText.LastLine;
    var cuts', codes' := [i] + cuts, [t] + codes;
    forall k | 0 <= k < |codes'| ensures CompleteText.PieceAt(z, cuts'[k], cuts'[k+1], codes'[k]) {
      if k > 0 {
        assert CompleteText.PieceAt(z, cuts[k-1], cuts[k-1+1], codes[k-1]);
      }
    }
    assert codes'[1..] == codes;
  }

  /** The text is complete exactly when its tokens are complete statements. */
  lemma TokensDecide(z: seq<Byte>)
    ensures CompleteText.CompleteText(z) <==> Tokens(z, 0).Some? && Statements(Tokens(z, 0).value)
  {
    hide Statements, Tokens;
    if CompleteText.CompleteText(z) {
      var cuts, codes :| CompleteText.Reads(z, cuts, codes) && cuts[0] == 0 && Statements(CompleteText.Solid(codes));
      ReadsTokens(z, cuts, codes);
    }
    if Tokens(z, 0).Some? {
      var cuts, codes := TokensRead(z, 0);
    }
  }

  // ----- the scanner -----

  /** The loop over bytes other than `c`. */
  method SkipTo(z: seq<Byte>, c: Byte, i: nat) returns (k: nat)
    requires i <= |z| && NoNul(z) && c != 0
    ensures k == Find(z, c, i)
  {
    k := i;
    while At(z, k) != 0 && At(z, k) != c
      invariant i <= k <= |z| && Find(z, c, i) == Find(z, c, k)
      decreases |z| - k
    {
      k := k + 1;
    }
  }

  method SkipComment(z: seq<Byte>, i: nat) returns (k: nat)
    requires i <= |z| && NoNul(z)
    ensures k == FindClose(z, i)
  {
    k := i;
    while At(z, k) != 0 && (At(z, k) != 42 || At(z, k + 1) != 47)
      invariant i <= k <= |z| && FindClose(z, i) == FindClose(z, k)
      decreases |z| - k
    {
      k := k + 1;
    }
  }

  /** The loop and the nested switch for a word that starts at `i`. */
  method ScanWord(z: seq<Byte>, i: nat) returns (token: Code, k: nat)
    requires i < |z| && IdChar(z[i]) && NoNul(z)
    ensures k == IdEnd(z, i + 1) && token == Keyword(z[i..k])
  {
    var nId := 1;
    while IdChar(At(z, i + nId))
      invariant 1 <= nId && i + nId <= |z| && IdEnd(z, i + 1) == IdEnd(z, i + nId)
      decreases |z| - i - nId
    {
      nId := nId + 1;
    }
    k := i + nId;
    var w := Fold(z[i..k]);
    assert w[0] == Lower(z[i]);
    var c := z[i];
    token := OTHER;
    if c == 99 || c == 67 {
      if nId == 6 && w == WORD_CREATE { token := CREATE; }
    } else if c == 116 || c == 84 {
      if nId == 7 && w == WORD_TRIGGER {
        token := TRIGGER;
      } else if nId == 4 && w == WORD_TEMP {
        token := TEMP;
      } else if nId == 9 && w == WORD_TEMPORARY {
        token := TEMP;
      }
    } else if c == 101 || c == 69 {
      if nId == 3 && w == WORD_END {
        token := END;
      } else if nId == 7 && w == WORD_EXPLAIN {
        token := EXPLAIN;
      }
    }
  }

  /** The switch on the byte at `i`. */
  method Scan(z: seq<Byte>, i: nat) returns (l: Lexeme)
    requires i < |z| && NoNul(z)
    ensures l == Lex(z, i)
    ensures match l
            case Tok(t, n) => CompleteText.PieceAt(z, i, n, t)
            case Open => CompleteText.Unclosed(z[i..])
            case LastComment => CompleteText.LastLine(z[i..])
  {
    LexMeans(z, i);
    hide CompleteText.PieceAt, CompleteText.Unclosed, CompleteText.LastLine;
    var c, k := z[i], i;
    if c == 59 {
      l := Tok(SEMI, i + 1);
    } else if c == 32 || c == 13 || c == 9 || c == 10 || c == 12 {
      l := Tok(WS, i + 1);
    } else if c == 47 {
      if At(z, i + 1) != 42 { return Tok(OTHER, i + 1); }
      k := SkipComment(z, i + 2);
      if At(z, k) == 0 { return Open; }
      l := Tok(WS, k + 2);
    } else if c == 45 {
      if At(z, i + 1) != 45 { return Tok(OTHER, i + 1); }
      k := SkipTo(z, NL, i);
      if At(z, k) == 0 { return LastComment; }
      l := Tok(WS, k + 1);
    } else if c == 91 {
      k := SkipTo(z, 93, i + 1);
      if At(z, k) == 0 { return Open; }
      l := Tok(OTHER, k + 1);
    } else if c == 96 || c == 34 || c == 39 {
      k := SkipTo(z, c, i + 1);
      if At(z, k) == 0 { return Open; }
      l := Tok(OTHER, k + 1);
    } else if IdChar(c) {
      var token;
      token, k := ScanWord(z, i);
      l := Tok(token, k);
    } else {
      l := Tok(OTHER, i + 1);
    }
  }

  /** sqlite3_complete(): the text closes all that it opens, and its tokens are one
      or more complete statements. */
  method SqlComplete(z: seq<Byte>) returns (complete: bool)
    requires NoNul(z)
    ensures complete <==> CompleteText.CompleteText(z)
  {
    hide Lex, Run, Statements, Step, CompleteText.CompleteText;
    var state: Code := 0;
    ghost var done: seq<Code> := [];
    var i := 0;
    CompleteProof.RunNone(0);
    while i < |z|
      invariant 0 <= i <= |z| && state == Run(0, done)
      invariant if Tokens(z, 0).None? then Tokens(z, i).None?
                else Tokens(z, i).Some? && Tokens(z, 0).value == done + Tokens(z, i).value
      decreases |z| - i
    {
      var l := Scan(z, i);
      if l.Open? {
        TokensDecide(z);
        return false;
      }
      if l.LastComment? { break; }
      state := Step(state, l.token);
      ghost var was := done;
      if l.token == WS {
        Table(Run(0, done), WS);
      } else {
        done := done + [l.token];
        CompleteProof.RunOne(0, was, l.token);
      }
      i := l.next;
    }
    assert Tokens(z, 0).Some? && Tokens(z, 0).value == done;
    TokensNoWs(z, 0);
    CompleteProof.FromInvalid(done);
    CompleteProof.AcceptsStatements(done);
    TokensDecide(z);
    return state == 1;
  }
}

/** The type affinity of a column: a rolling 32-bit window against a rule about
    substrings. */
module Affinity {
  import opened Bytes
  import opened Seqs

  datatype Aff = BLOB | TEXT | NUMERIC | INTEGER | REAL

  // The names of the rule, in lower case.
  const INT: seq<Byte> := [105, 110, 116]
  const CHAR: seq<Byte> := [99, 104, 97, 114]
  const CLOB: seq<Byte> := [99, 108, 111, 98]
  const TEXT4: seq<Byte> := [116, 101, 120, 116]
  const BLOB4: seq<Byte> := [98, 108, 111, 98]
  const REAL4: seq<Byte> := [114, 101, 97, 108]
  const FLOA: seq<Byte> := [102, 108, 111, 97]
  const DOUB: seq<Byte> := [100, 111, 117, 98]

  // ----- the documented rule -----

  predicate EndsWith(f: seq<Byte>, p: seq<Byte>) {
    |p| <= |f| && f[|f|-|p|..] == p
  }

  predicate Contains(f: seq<Byte>, p: seq<Byte>) {
    exists i :: 0 <= i <= |f| && EndsWith(f[..i], p)
  }

  /** The affinity of a folded type name: the first line of the table that fits. */
  function AffinityOf(f: seq<Byte>): Aff {
    if Contains(f, INT) then INTEGER
    else if Contains(f, CHAR) || Contains(f, CLOB) || Contains(f, TEXT4) then TEXT
    else if Contains(f, BLOB4) then BLOB
    else if Contains(f, REAL4) || Contains(f, FLOA) || Contains(f, DOUB) then REAL
    else NUMERIC
  }

  /** The lower-case letters `s` stand at `i`, in any letter case. */
  predicate SpellsAt(z: seq<Byte>, i: nat, s: string) {
    i + |s| <= |z| && forall k :: 0 <= k < |s| ==> z[i+k] == s[k] as int || z[i+k] as int + 32 == s[k] as int
  }

  predicate Mentions(z: seq<Byte>, s: string) {
    exists i :: 0 <= i <= |z| && SpellsAt(z, i, s)
  }

  /** The table as the documentation has it, for a type name as written. */
  predicate Documented(z: seq<Byte>, aff: Aff) {
    var int_ := Mentions(z, "int");
    var text := Mentions(z, "char") || Mentions(z, "clob") || Mentions(z, "text");
    var blob := Mentions(z, "blob");
    var real_ := Mentions(z, "real") || Mentions(z, "floa") || Mentions(z, "doub");
    && (aff == INTEGER <==> int_)
    && (aff == TEXT <==> !int_ && text)
    && (aff == BLOB <==> !int_ && !text && blob)
    && (aff == REAL <==> !int_ && !text && !blob && real_)
  }

  lemma MentionsIs(z: seq<Byte>, s: string, p: seq<Byte>)
    requires |p| == |s| && forall k :: 0 <= k < |s| ==> 97 <= p[k] <= 122 && p[k] == s[k] as int
    ensures Mentions(z, s) <==> Contains(Fold(z), p)
  {
    var f := Fold(z);
    forall i | 0 <= i && i + |s| <= |z| ensures SpellsAt(z, i, s) <==> EndsWith(f[..i+|s|], p) {
      var t := f[..i+|s|];
      assert t[|t|-|p|..] == f[i..i+|s|];
    }
    if i :| 0 <= i <= |z| && SpellsAt(z, i, s) {
      assert EndsWith(f[..i+|s|], p);
    }
    if j :| 0 <= j <= |f| && EndsWith(f[..j], p) {
      assert SpellsAt(z, j - |p|, s);
    }
  }

  lemma DocumentedIs(z: seq<Byte>)
    ensures Documented(z, AffinityOf(Fold(z)))
  {
    MentionsIs(z, "int", INT);
    MentionsIs(z, "char", CHAR);
    MentionsIs(z, "clob", CLOB);
    MentionsIs(z, "text", TEXT4);
    MentionsIs(z, "blob", BLOB4);
    MentionsIs(z, "real", REAL4);
    MentionsIs(z, "floa", FLOA);
    MentionsIs(z, "doub", DOUB);
    hide Mentions, Contains, Fold;
  }

  // ----- the window -----

  /** What `h = (h<<8) + c` makes of the bytes in 32 bits. */
  function Roll(f: seq<Byte>): (h: nat)
    ensures h < U32
  {
    if f == [] then 0 else (Roll(f[..|f|-1]) * 256 + f[|f|-1]) % U32
  }

  function Word(a: Byte, b: Byte, c: Byte, d: Byte): (w: nat)
    ensures w < U32
  {
    ((a * 256 + b) * 256 + c) * 256 + d
  }

  /** A byte counted from the end, zero before the start of the text. */
  function Last(f: seq<Byte>, k: nat): Byte {
    if k < |f| then f[|f|-1-k] else 0
  }

  lemma ShiftWord(a: Byte, b: Byte, c: Byte, d: Byte, e: Byte)
    ensures (Word(a, b, c, d) * 256 + e) % U32 == Word(b, c, d, e)
  {
    assert Word(a, b, c, d) * 256 + e == a * U32 + Word(b, c, d, e);
  }

  /** The window always holds the last four bytes. */
  lemma {:induction false} RollIsLastFour(f: seq<Byte>)
    ensures Roll(f) == Word(Last(f, 3), Last(f, 2), Last(f, 1), Last(f, 0))
  {
    if f != [] {
      var g := f[..|f|-1];
      RollIsLastFour(g);
      hide Word;
      ShiftWord(Last(g, 3), Last(g, 2), Last(g, 1), Last(g, 0), f[|f|-1]);
      assert Last(f, 3) == Last(g, 2) && Last(f, 2) == Last(g, 1) && Last(f, 1) == Last(g, 0);
    }
  }

  lemma SplitByte(x: nat, c: Byte, x': nat, c': Byte)
    ensures x * 256 + c == x' * 256 + c' <==> x == x' && c == c'
  {
  }

  lemma WordUnique(a: Byte, b: Byte, c: Byte, d: Byte, a': Byte, b': Byte, c': Byte, d': Byte)
    ensures Word(a, b, c, d) == Word(a', b', c', d') <==> a == a' && b == b' && c == c' && d == d'
  {
    var ab, ab' := a * 256 + b, a' * 256 + b';
    var abc, abc' := ab * 256 + c, ab' * 256 + c';
    assert Word(a, b, c, d) == abc * 256 + d && Word(a', b', c', d') == abc' * 256 + d';
    SplitByte(abc, d, abc', d');
    SplitByte(ab, c, ab', c');
    SplitByte(a, b, a', b');
  }

  lemma Masked(a: Byte, b: Byte, c: Byte, d: Byte)
    ensures Word(a, b, c, d) % 0x100_0000 == Word(0, b, c, d)
  {
    assert Word(a, b, c, d) == a * 0x100_0000 + Word(0, b, c, d);
    assert Word(0, b, c, d) < 0x100_0000;
  }

  /** Comparing the window with a name finds the name at the end of the text. */
  lemma WindowMatches(f: seq<Byte>, p: seq<Byte>)
    requires |p| == 4 && p[0] != 0
    ensures Roll(f) == Word(p[0], p[1], p[2], p[3]) <==> EndsWith(f, p)
  {
    hide Word, Roll;
    RollIsLastFour(f);
    WordUnique(Last(f, 3), Last(f, 2), Last(f, 1), Last(f, 0), p[0], p[1], p[2], p[3]);
    if |f| >= 4 {
      var t := f[|f|-4..];
      assert t[0] == Last(f, 3) && t[1] == Last(f, 2) && t[2] == Last(f, 1) && t[3] == Last(f, 0);
    }
  }

  lemma MaskMatches(f: seq<Byte>, p: seq<Byte>)
    requires |p| == 3 && p[0] != 0
    ensures Roll(f) % 0x100_0000 == Word(0, p[0], p[1], p[2]) <==> EndsWith(f, p)
  {
    hide Word, Roll;
    RollIsLastFour(f);
    Masked(Last(f, 3), Last(f, 2), Last(f, 1), Last(f, 0));
    WordUnique(0, Last(f, 2), Last(f, 1), Last(f, 0), 0, p[0], p[1], p[2]);
    if |f| >= 3 {
      var t := f[|f|-3..];
      assert t[0] == Last(f, 2) && t[1] == Last(f, 1) && t[2] == Last(f, 0);
    }
  }

  // ----- one more byte -----

  lemma ContainsGrows(f: seq<Byte>, p: seq<Byte>)
    requires f != []
    ensures Contains(f, p) <==> Contains(f[..|f|-1], p) || EndsWith(f, p)
  {
    var g := f[..|f|-1];
    assert f[..|f|] == f;
    forall i | 0 <= i <= |g| ensures g[..i] == f[..i] {
    }
    if Contains(g, p) {
      var i :| 0 <= i <= |g| && EndsWith(g[..i], p);
      assert EndsWith(f[..i], p);
    }
    if Contains(f, p) {
      var i :| 0 <= i <= |f| && EndsWith(f[..i], p);
      if i < |f| {
        assert EndsWith(g[..i], p);
      }
    }
  }

  lemma {:induction false} ContainsMore(f: seq<Byte>, i: nat, p: seq<Byte>)
    requires i <= |f| && Contains(f[..i], p)
    ensures Contains(f, p)
  {
    var k :| 0 <= k <= i && EndsWith(f[..i][..k], p);
    assert f[..i][..k] == f[..k];
  }

  /** The affinity of a name without INT, one byte further on. */
  lemma OneMoreByte(f: seq<Byte>)
    requires f != [] && !Contains(f[..|f|-1], INT)
    ensures var was := AffinityOf(f[..|f|-1]);
            AffinityOf(f) ==
              if EndsWith(f, CHAR) || EndsWith(f, CLOB) || EndsWith(f, TEXT4) then TEXT
              else if EndsWith(f, BLOB4) then (if was == NUMERIC || was == REAL then BLOB else was)
              else if EndsWith(f, REAL4) || EndsWith(f, FLOA) || EndsWith(f, DOUB) then (if was == NUMERIC then REAL else was)
              else if EndsWith(f, INT) then INTEGER
              else was
    ensures Contains(f, INT) <==> EndsWith(f, INT)
    ensures Contains(f, INT) ==> AffinityOf(f) == INTEGER
  {
    hide Contains;
    ContainsGrows(f, INT);
    ContainsGrows(f, CHAR);
    ContainsGrows(f, CLOB);
    ContainsGrows(f, TEXT4);
    ContainsGrows(f, BLOB4);
    ContainsGrows(f, REAL4);
    ContainsGrows(f, FLOA);
    ContainsGrows(f, DOUB);
    if EndsWith(f, INT) {
      assert f[|f|-1] == 116 && f[|f|-2] == 110;
    }
  }

  lemma RollStep(f: seq<Byte>)
    requires f != []
    ensures Roll(f) == (Roll(f[..|f|-1]) * 256 + f[|f|-1]) % U32
  {
  }

  lemma IntFirst(f: seq<Byte>)
    requires Contains(f, INT)
    ensures AffinityOf(f) == INTEGER
  {
  }

  lemma Nothing()
    ensures Roll([]) == 0 && AffinityOf([]) == NUMERIC && !Contains([], INT)
  {
  }

  /** sqlite3AffinityType(): the result is that of the documented rule. */
  method AffinityType(zIn: seq<Byte>) returns (aff: Aff)
    requires NoNul(zIn)
    ensures aff == AffinityOf(Fold(zIn)) && Documented(zIn, aff)
  {
    DocumentedIs(zIn);
    hide Contains, AffinityOf, Roll, Word, EndsWith, Documented;
    var h := 0;
    aff := NUMERIC;
    ghost var f := Fold(zIn);
    var i := 0;
    assert f[..0] == [];
    Nothing();
    while i < |zIn|
      invariant 0 <= i <= |zIn| && h == Roll(f[..i])
      invariant !Contains(f[..i], INT) && aff == AffinityOf(f[..i])
    {
      h := (h * 256 + Lower(zIn[i])) % U32;
      i := i + 1;
      ghost var g := f[..i];
      assert g[..|g|-1] == f[..i-1] && g[i-1] == Lower(zIn[i-1]);
      RollStep(g);
      OneMoreByte(g);
      Windows(g);
      if h == Word(99, 104, 97, 114) {
        aff := TEXT;
      } else if h == Word(99, 108, 111, 98) {
        aff := TEXT;
      } else if h == Word(116, 101, 120, 116) {
        aff := TEXT;
      } else if h == Word(98, 108, 111, 98) && (aff == NUMERIC || aff == REAL) {
        aff := BLOB;
      } else if h == Word(114, 101, 97, 108) && aff == NUMERIC {
        aff := REAL;
      } else if h == Word(102, 108, 111, 97) && aff == NUMERIC {
        aff := REAL;
      } else if h == Word(100, 111, 117, 98) && aff == NUMERIC {
        aff := REAL;
      } else if h % 0x100_0000 == Word(0, 105, 110, 116) {
        aff := INTEGER;
        ContainsMore(f, i, INT);
        IntFirst(f);
        return;
      }
    }
    assert f[..i] == f;
  }

  lemma Windows(g: seq<Byte>)
    ensures Roll(g) == Word(99, 104, 97, 114) <==> EndsWith(g, CHAR)
    ensures Roll(g) == Word(99, 108, 111, 98) <==> EndsWith(g, CLOB)
    ensures Roll(g) == Word(116, 101, 120, 116) <==> EndsWith(g, TEXT4)
    ensures Roll(g) == Word(98, 108, 111, 98) <==> EndsWith(g, BLOB4)
    ensures Roll(g) == Word(114, 101, 97, 108) <==> EndsWith(g, REAL4)
    ensures Roll(g) == Word(102, 108, 111, 97) <==> EndsWith(g, FLOA)
    ensures Roll(g) == Word(100, 111, 117, 98) <==> EndsWith(g, DOUB)
    ensures Roll(g) % 0x100_0000 == Word(0, 105, 110, 116) <==> EndsWith(g, INT)
  {
    hide Roll, Word, EndsWith;
    WindowMatches(g, CHAR);
    WindowMatches(g, CLOB);
    WindowMatches(g, TEXT4);
    WindowMatches(g, BLOB4);
    WindowMatches(g, REAL4);
    WindowMatches(g, FLOA);
    WindowMatches(g, DOUB);
    MaskMatches(g, INT);
  }
}

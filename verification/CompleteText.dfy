/** SQL text as sqlite3_complete() is to see it: the pieces that the text is made of,
    each described by its own bytes and the byte after it. */
module CompleteText {
  import opened Bytes
  import opened CompleteSpec

  predicate Is(c: Byte, ch: char) {
    c == ch as int
  }

  predicate AnyOf(c: Byte, s: string) {
    exists k :: 0 <= k < |s| && Is(c, s[k])
  }

  predicate Between(c: Byte, lo: char, hi: char) {
    lo as int <= c <= hi as int
  }

  /** The bytes of words: letters, digits, `_`, `$` and everything that is not ASCII. */
  predicate WordByte(c: Byte) {
    Between(c, 'a', 'z') || Between(c, 'A', 'Z') || Between(c, '0', '9') || Is(c, '_') || Is(c, '$') || c >= 128
  }

  // ----- the kinds of pieces -----

  predicate Space(w: seq<Byte>) {
    |w| == 1 && AnyOf(w[0], " \t\n\r\U{000C}")
  }

  predicate Closes(w: seq<Byte>, k: nat) {
    k + 1 < |w| && Is(w[k], '*') && Is(w[k+1], '/')
  }

  /** From a slash and an asterisk up to the first asterisk and slash after them. */
  predicate BlockComment(w: seq<Byte>) {
    |w| >= 4 && Is(w[0], '/') && Is(w[1], '*') && Closes(w, |w| - 2) && forall k :: 2 <= k < |w| - 2 ==> !Closes(w, k)
  }

  /** From two hyphens up to the end of the line. */
  predicate LineComment(w: seq<Byte>) {
    |w| >= 3 && Is(w[0], '-') && Is(w[1], '-') && Is(w[|w|-1], '\n') && forall k :: 2 <= k < |w| - 1 ==> !Is(w[k], '\n')
  }

  /** From `open` up to the first `close` after it. */
  predicate Quotation(w: seq<Byte>, open: char, close: char) {
    |w| >= 2 && Is(w[0], open) && Is(w[|w|-1], close) && forall k :: 1 <= k < |w| - 1 ==> !Is(w[k], close)
  }

  predicate Quoted(w: seq<Byte>) {
    Quotation(w, '\'', '\'') || Quotation(w, '"', '"') || Quotation(w, '`', '`') || Quotation(w, '[', ']')
  }

  predicate Word(w: seq<Byte>) {
    w != [] && forall k :: 0 <= k < |w| ==> WordByte(w[k])
  }

  /** Any other byte. */
  predicate Single(w: seq<Byte>) {
    |w| == 1 && !Space(w) && !WordByte(w[0]) && !AnyOf(w[0], ";'\"`[")
  }

  /** The word, in any letter case, is the one of the lower-case letters `s`. */
  predicate Spells(w: seq<Byte>, s: string) {
    |w| == |s| && forall k :: 0 <= k < |w| ==> Is(w[k], s[k]) || w[k] as int + 32 == s[k] as int
  }

  predicate Means(w: seq<Byte>, t: Code) {
    && (t == CREATE <==> Spells(w, "create"))
    && (t == TRIGGER <==> Spells(w, "trigger"))
    && (t == TEMP <==> Spells(w, "temp") || Spells(w, "temporary"))
    && (t == END <==> Spells(w, "end"))
    && (t == EXPLAIN <==> Spells(w, "explain"))
    && t != SEMI && t != WS
  }

  /** `w`, with the byte `after` it or 0 at the end of the text, is one piece, and `t`
      is its token.  A word goes as far as it can, and a slash or a hyphen is a piece
      only where it opens no comment. */
  predicate Piece(w: seq<Byte>, after: Byte, t: Code) {
    || (t == SEMI && |w| == 1 && Is(w[0], ';'))
    || (t == WS && (Space(w) || BlockComment(w) || LineComment(w)))
    || (Word(w) && !WordByte(after) && Means(w, t))
    || (t == OTHER && Quoted(w))
    || (t == OTHER && Single(w) && !(Is(w[0], '/') && Is(after, '*')) && !(Is(w[0], '-') && Is(after, '-')))
  }

  predicate OpenQuotation(w: seq<Byte>, open: char, close: char) {
    w != [] && Is(w[0], open) && forall k :: 1 <= k < |w| ==> !Is(w[k], close)
  }

  predicate OpenBlock(w: seq<Byte>) {
    |w| >= 2 && Is(w[0], '/') && Is(w[1], '*') && forall k :: 2 <= k < |w| ==> !Closes(w, k)
  }

  /** The text opens a block comment, a string or an identifier and never closes it. */
  predicate Unclosed(w: seq<Byte>) {
    || OpenQuotation(w, '\'', '\'') || OpenQuotation(w, '"', '"') || OpenQuotation(w, '`', '`') || OpenQuotation(w, '[', ']')
    || OpenBlock(w)
  }

  /** A line comment that the text ends. */
  predicate LastLine(w: seq<Byte>) {
    |w| >= 2 && Is(w[0], '-') && Is(w[1], '-') && forall k :: 2 <= k < |w| ==> !Is(w[k], '\n')
  }

  // ----- whole texts -----

  /** The text from `cuts[0]` on is cut into pieces, up to its end or a last line comment. */
  ghost predicate Reads(z: seq<Byte>, cuts: seq<nat>, codes: seq<Code>) {
    && |cuts| == |codes| + 1 && cuts[|codes|] <= |z|
    && (forall k :: 0 <= k < |codes| ==> PieceAt(z, cuts[k], cuts[k+1], codes[k]))
    && (cuts[|codes|] == |z| || LastLine(z[cuts[|codes|]..]))
  }

  ghost predicate PieceAt(z: seq<Byte>, i: nat, n: nat, t: Code) {
    i < n <= |z| && Piece(z[i..n], At(z, n), t)
  }

  /** The tokens without white space and comments. */
  function Solid(codes: seq<Code>): seq<Code> {
    if codes == [] then [] else (if codes[0] == WS then [] else [codes[0]]) + Solid(codes[1..])
  }

  /** The text is one or more complete statements. */
  ghost predicate CompleteText(z: seq<Byte>) {
    exists cuts, codes :: Reads(z, cuts, codes) && cuts[0] == 0 && Statements(Solid(codes))
  }
}

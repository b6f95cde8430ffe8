/** Bytes and the case folding of ASCII letters. */
module Bytes {

  type Byte = x: int | 0 <= x < 256

  /** sqlite3UpperToLower[] */
  function Lower(c: Byte): Byte {
    if 65 <= c <= 90 then c + 32 else c
  }

  /** IdChar(): `sqlite3CtypeMap[c] & 0x46`, the letters, digits, `_`, `$` and all
      bytes that are not ASCII. */
  predicate IdChar(c: Byte) {
    48 <= c <= 57 || 65 <= c <= 90 || 97 <= c <= 122 || c == 95 || c == 36 || c >= 128
  }

  /** The text with every upper-case ASCII letter in lower case. */
  function Fold(s: seq<Byte>): (r: seq<Byte>)
    ensures |r| == |s| && forall i :: 0 <= i < |s| ==> r[i] == Lower(s[i])
  {
    seq(|s|, i requires 0 <= i < |s| => Lower(s[i]))
  }

  /** The bytes of a C string; the terminator is not one of them. */
  predicate NoNul(s: seq<Byte>) {
    forall i :: 0 <= i < |s| ==> s[i] != 0
  }

  /** A byte of a C string, or its terminator. */
  function At(s: seq<Byte>, i: nat): Byte {
    if i < |s| then s[i] else 0
  }

  predicate Letter(c: Byte) {
    'a' as int <= c <= 'z' as int || 'A' as int <= c <= 'Z' as int
  }

  /** The same byte, or the two cases of one letter. */
  predicate SameLetter(c: Byte, d: Byte) {
    c == d || (Letter(c) && Letter(d) && (c == d - 32 || d == c - 32))
  }

  /** Folding makes equal exactly the texts that differ in letter case only. */
  lemma FoldMeans(a: seq<Byte>, b: seq<Byte>)
    ensures Fold(a) == Fold(b) <==> |a| == |b| && forall i :: 0 <= i < |a| ==> SameLetter(a[i], b[i])
  {
    forall c: Byte, d: Byte ensures Lower(c) == Lower(d) <==> SameLetter(c, d) {
    }
    if Fold(a) == Fold(b) {
      assert forall i :: 0 <= i < |a| ==> Lower(a[i]) == Fold(a)[i] == Fold(b)[i] == Lower(b[i]);
    }
  }

  /** sqlite3StrICmp(): the difference of the first bytes that differ when folded. */
  method StrICmp(a: seq<Byte>, b: seq<Byte>) returns (c: int)
    requires NoNul(a) && NoNul(b)
    ensures c == 0 <==> Fold(a) == Fold(b)
    ensures c == 0 <==> |a| == |b| && forall i :: 0 <= i < |a| ==> SameLetter(a[i], b[i])
  {
    FoldMeans(a, b);
    hide SameLetter;
    var i := 0;
    c := Lower(At(a, i)) - Lower(At(b, i));
    while c == 0 && At(a, i) != 0
      invariant i <= |a| && i <= |b| && c == Lower(At(a, i)) - Lower(At(b, i))
      invariant forall t :: 0 <= t < i ==> Lower(a[t]) == Lower(b[t])
      decreases |a| - i
    {
      i := i + 1;
      c := Lower(At(a, i)) - Lower(At(b, i));
    }
    if c != 0 {
      assert Fold(a) + [0] != Fold(b) + [0] by {
        assert (Fold(a) + [0])[i] == Lower(At(a, i)) && (Fold(b) + [0])[i] == Lower(At(b, i));
      }
    }
  }
}

/** Count vectors as text: stat_get() prints them and the schema reader decodes them. */
module StatText {
  import opened Bytes

  // ----- numbers -----

  const SPACE: Byte := ' ' as int

  predicate IsDigit(c: Byte) {
    48 <= c <= 57
  }

  /** The format "%llu" */
  function Digits(n: nat): (ds: seq<Byte>)
    ensures ds != [] && forall i :: 0 <= i < |ds| ==> IsDigit(ds[i])
  {
    if n < 10 then [48 + n] else Digits(n / 10) + [48 + n % 10]
  }

  function Pow10(k: nat): (p: nat)
    ensures p > 0
  {
    if k == 0 then 1 else 10 * Pow10(k - 1)
  }

  lemma {:induction false} DigitsFit(n: nat, k: nat)
    requires 0 < k && n < Pow10(k)
    ensures |Digits(n)| <= k
  {
    if n >= 10 {
      DigitsFit(n / 10, k - 1);
    }
  }

  /** A tRowcnt has 32 or 64 bits. */
  predicate IsRange(w: nat) {
    w == 0x1_0000_0000 || w == 0x1_0000_0000_0000_0000
  }

  lemma CountFits(n: nat, w: nat)
    requires IsRange(w) && n < w
    ensures |Digits(n)| <= 20
  {
    var p10 := Pow10(10);
    assert p10 == 100_0000_0000;
    assert Pow10(15) == 10 * (10 * (10 * (10 * (10 * p10))));
    assert Pow10(20) == 10 * (10 * (10 * (10 * (10 * Pow10(15)))));
    DigitsFit(n, 20);
  }

  /** The value of digits in a tRowcnt, which wraps around at `w`. */
  function Value(ds: seq<Byte>, w: nat): (v: nat)
    requires w > 0 && forall i :: 0 <= i < |ds| ==> IsDigit(ds[i])
    ensures v < w
  {
    if ds == [] then 0 else (Value(ds[..|ds|-1], w) * 10 + ds[|ds|-1] - 48) % w
  }

  lemma {:induction false} ValueOfDigits(n: nat, w: nat)
    requires n < w
    ensures Value(Digits(n), w) == n
  {
    assert Value([], w) == 0;
    hide Value;
    if n >= 10 {
      var q, r := n / 10, n % 10;
      assert Digits(n) == Digits(q) + [48 + r];
      ValueOfDigits(q, w);
      LastDigit(Digits(q), r, w);
      assert q * 10 + r == n;
    } else {
      assert Digits(n) == [] + [48 + n];
      LastDigit([], n, w);
    }
    Small(n, w);
  }

  lemma Small(n: nat, w: nat)
    requires n < w
    ensures n % w == n
  {
  }

  lemma LastDigit(ds: seq<Byte>, r: nat, w: nat)
    requires r < 10 && w > 0 && forall i :: 0 <= i < |ds| ==> IsDigit(ds[i])
    ensures Value(ds + [48 + r], w) == (Value(ds, w) * 10 + r) % w
  {
    assert (ds + [48 + r])[..|ds|] == ds;
  }

  // ----- printing -----

  /** Every count with a space after it. */
  function Spaced(counts: seq<nat>): seq<Byte> {
    if counts == [] then [] else Spaced(counts[..|counts|-1]) + Digits(counts[|counts|-1]) + [SPACE]
  }

  /** The counts with spaces between them. */
  function Text(counts: seq<nat>): seq<Byte>
    requires counts != []
  {
    Spaced(counts[..|counts|-1]) + Digits(counts[|counts|-1])
  }

  lemma {:induction false} SpacedFits(counts: seq<nat>, w: nat)
    requires IsRange(w) && forall i :: 0 <= i < |counts| ==> counts[i] < w
    ensures |Spaced(counts)| <= 21 * |counts|
  {
    if counts != [] {
      CountFits(counts[|counts|-1], w);
      SpacedFits(counts[..|counts|-1], w);
    }
  }

  /** sqlite3_snprintf(): at most `n - 1` bytes and a terminator. */
  method Snprintf(n: nat, buf: array<Byte>, at: nat, text: seq<Byte>)
    requires n > 0 && at + (if |text| < n then |text| else n - 1) < buf.Length
    modifies buf
    ensures |text| < n ==> buf[..at+|text|] == old(buf[..at]) + text && buf[at+|text|] == 0
    ensures forall i :: at + |text| < i < buf.Length ==> buf[i] == old(buf[i])
  {
    var k := if |text| < n then |text| else n - 1;
    ghost var was := buf[..at];
    forall i | 0 <= i < k {
      buf[at + i] := text[i];
    }
    buf[at + k] := 0;
    assert |text| < n ==> buf[..at+|text|] == was + text;
  }

  /** The count vectors that stat_get() returns: nothing is cut off, and nothing is
      written outside of 25 bytes for each count. */
  method StatGet(aCnt: seq<nat>, w: nat) returns (text: seq<Byte>)
    requires IsRange(w) && aCnt != [] && forall i :: 0 <= i < |aCnt| ==> aCnt[i] < w
    ensures text == Text(aCnt)
  {
    hide Digits;
    var nCol := |aCnt|;
    var zRet := new Byte[nCol * 25](i => 0);
    var z, i: nat := 0, 0;
    while i < nCol
      invariant 0 <= i <= nCol && z == |Spaced(aCnt[..i])| <= 21 * i
      invariant zRet[..z] == Spaced(aCnt[..i])
    {
      CountFits(aCnt[i], w);
      var item := Digits(aCnt[i]) + [SPACE];
      assert aCnt[..i+1][..i] == aCnt[..i];
      Snprintf(24, zRet, z, item);
      z := z + |item|;
      i := i + 1;
    }
    assert aCnt[..i] == aCnt;
    text := zRet[..z-1];
    assert text == Spaced(aCnt)[..|Spaced(aCnt)|-1] == Text(aCnt);
  }

  // ----- decoding -----

  /** The end of the run of digits from `i` on. */
  function DigitsEnd(z: seq<Byte>, i: nat): (k: nat)
    requires i <= |z|
    ensures i <= k <= |z| && (k < |z| ==> !IsDigit(z[k])) && forall j :: i <= j < k ==> IsDigit(z[j])
    decreases |z| - i
  {
    if i < |z| && IsDigit(z[i]) then DigitsEnd(z, i + 1) else i
  }

  /** The counts that a text stands for from `i` on, at most `n` of them. */
  function Decoded(z: seq<Byte>, i: nat, n: nat, w: nat): (counts: seq<nat>)
    requires i <= |z| && w > 0
    ensures |counts| <= n
    decreases n
  {
    if n == 0 || i == |z| then []
    else
      var k := DigitsEnd(z, i);
      [Value(z[i..k], w)] + Decoded(z, if k < |z| && z[k] == SPACE then k + 1 else k, n - 1, w)
  }

  /** decodeIntArray(), as far as it fills the array. */
  method DecodeIntArray(z: seq<Byte>, nOut: nat, aOut: array<nat>, w: nat) returns (i: nat)
    requires NoNul(z) && nOut <= aOut.Length && w > 0
    modifies aOut
    ensures i <= nOut && aOut[..i] == Decoded(z, 0, nOut, w)
    ensures forall j :: i <= j < aOut.Length ==> aOut[j] == old(aOut[j])
  {
    hide Value, DigitsEnd, Decoded, NoNul;
    var at := 0;
    i := 0;
    assert aOut[..0] == [];
    while At(z, at) != 0 && i < nOut
      invariant 0 <= at <= |z| && i <= nOut && aOut[..i] + Decoded(z, at, nOut - i, w) == Decoded(z, 0, nOut, w)
      invariant forall j :: i <= j < aOut.Length ==> aOut[j] == old(aOut[j])
      decreases nOut - i
    {
      ghost var was := aOut[..i];
      DecodedStep(z, at, nOut - i, w);
      var v;
      v, at := ReadNumber(z, at, w);
      aOut[i] := v;
      assert aOut[..i+1] == was + [v];
      if At(z, at) == SPACE {
        at := at + 1;
      }
      Regroup(was, v, Decoded(z, at, nOut - i - 1, w));
      i := i + 1;
    }
    DecodedEnd(z, at, nOut - i, w);
  }

  lemma Regroup(a: seq<nat>, v: nat, b: seq<nat>)
    ensures a + ([v] + b) == (a + [v]) + b
  {
  }

  lemma DecodedStep(z: seq<Byte>, i: nat, n: nat, w: nat)
    requires i < |z| && n > 0 && w > 0
    ensures var k := DigitsEnd(z, i);
            Decoded(z, i, n, w) == [Value(z[i..k], w)] + Decoded(z, if At(z, k) == SPACE then k + 1 else k, n - 1, w)
  {
  }

  lemma DecodedEnd(z: seq<Byte>, i: nat, n: nat, w: nat)
    requires i <= |z| && w > 0 && (n == 0 || At(z, i) == 0) && NoNul(z)
    ensures Decoded(z, i, n, w) == []
  {
  }

  /** The inner loop of decodeIntArray(). */
  method ReadNumber(z: seq<Byte>, start: nat, w: nat) returns (v: nat, at: nat)
    requires start <= |z| && w > 0
    ensures at == DigitsEnd(z, start) && v == Value(z[start..at], w)
  {
    v, at := 0, start;
    while IsDigit(At(z, at))
      invariant start <= at <= |z| && DigitsEnd(z, start) == DigitsEnd(z, at)
      invariant (forall j :: start <= j < at ==> IsDigit(z[j])) && v == Value(z[start..at], w)
      decreases |z| - at
    {
      assert z[start..at+1] == z[start..at] + [z[at]];
      LastDigit(z[start..at], z[at] - 48, w);
      v := (v * 10 + At(z, at) - 48) % w;
      at := at + 1;
    }
  }

  // ----- the round trip -----

  lemma SpacedFirst(counts: seq<nat>)
    requires |counts| > 1
    ensures Text(counts) == Digits(counts[0]) + [SPACE] + Text(counts[1..])
  {
    SpacedSplit(counts[..|counts|-1]);
    assert counts[..|counts|-1][1..] == counts[1..][..|counts|-2];
  }

  lemma {:induction false} SpacedSplit(counts: seq<nat>)
    requires counts != []
    ensures Spaced(counts) == Digits(counts[0]) + [SPACE] + Spaced(counts[1..])
    decreases |counts|
  {
    hide Digits;
    var n := |counts| - 1;
    if n == 0 {
      assert counts[..0] == [] && counts[1..] == [];
    } else {
      SpacedSplit(counts[..n]);
      assert counts[..n][1..] == counts[1..][..n-1];
      var a, m, l := Digits(counts[0]) + [SPACE], Spaced(counts[1..][..n-1]), Digits(counts[n]);
      assert Spaced(counts) == (a + m) + l + [SPACE];
      assert (a + m) + l + [SPACE] == a + (m + l + [SPACE]);
    }
  }

  /** Decoding does not look at what comes before. */
  lemma {:induction false} DecodedTail(a: seq<Byte>, z: seq<Byte>, i: nat, n: nat, w: nat)
    requires i <= |z| && w > 0
    ensures Decoded(a + z, |a| + i, n, w) == Decoded(z, i, n, w)
    decreases n
  {
    hide Value, DigitsEnd;
    if n > 0 && i < |z| {
      var k, y := DigitsEnd(z, i), a + z;
      EndTail(a, z, i);
      assert y[|a|+i..|a|+k] == z[i..k];
      assert k < |z| ==> y[|a|+k] == z[k];
      DecodedTail(a, z, if k < |z| && z[k] == SPACE then k + 1 else k, n - 1, w);
    }
  }

  lemma {:induction false} EndTail(a: seq<Byte>, z: seq<Byte>, i: nat)
    requires i <= |z|
    ensures DigitsEnd(a + z, |a| + i) == |a| + DigitsEnd(z, i)
    decreases |z| - i
  {
    if i < |z| && IsDigit(z[i]) {
      EndTail(a, z, i + 1);
    }
  }

  /** A run of digits ends where the digits end. */
  lemma {:induction false} EndOfDigits(ds: seq<Byte>, z: seq<Byte>, i: nat)
    requires i <= |ds| && forall j :: 0 <= j < |ds| ==> IsDigit(ds[j])
    requires z == [] || !IsDigit(z[0])
    ensures DigitsEnd(ds + z, i) == |ds|
    decreases |ds| - i
  {
    if i < |ds| {
      EndOfDigits(ds, z, i + 1);
    }
  }

  /** A number alone. */
  lemma DecodeLast(ds: seq<Byte>, n: nat, w: nat)
    requires ds != [] && w > 0 && n > 0 && forall j :: 0 <= j < |ds| ==> IsDigit(ds[j])
    ensures Decoded(ds, 0, n, w) == [Value(ds, w)]
  {
    EndOfDigits(ds, [], 0);
    assert ds + [] == ds && ds[0..|ds|] == ds;
    assert Decoded(ds, |ds|, n - 1, w) == [];
  }

  /** The first number of a text, and what is decoded after it. */
  lemma DecodeFirst(ds: seq<Byte>, rest: seq<Byte>, n: nat, w: nat)
    requires ds != [] && w > 0 && n > 0 && forall j :: 0 <= j < |ds| ==> IsDigit(ds[j])
    ensures Decoded(ds + [SPACE] + rest, 0, n, w) == [Value(ds, w)] + Decoded(rest, 0, n - 1, w)
  {
    hide Value, DigitsEnd, Decoded;
    var front, tail := ds + [SPACE], [SPACE] + rest;
    var z := ds + tail;
    assert front + rest == z;
    EndOfDigits(ds, tail, 0);
    assert z[0..|ds|] == ds && z[|ds|] == SPACE;
    DecodedStep(z, 0, n, w);
    DecodedTail(front, rest, 0, n - 1, w);
  }

  lemma OneCount(n: nat, nOut: nat, w: nat)
    requires n < w && nOut > 0
    ensures Decoded(Text([n]), 0, nOut, w) == [n]
  {
    hide Decoded, Digits, Value;
    ValueOfDigits(n, w);
    assert [n][..0] == [] && Text([n]) == [] + Digits(n) == Digits(n);
    DecodeLast(Digits(n), nOut, w);
  }

  lemma DecodeNone(z: seq<Byte>, w: nat)
    requires w > 0
    ensures Decoded(z, 0, 0, w) == []
  {
  }

  /** Reading what was printed gives back the counts, as many as are asked for. */
  lemma {:induction false} RoundTrip(counts: seq<nat>, nOut: nat, w: nat)
    requires counts != [] && IsRange(w) && forall i :: 0 <= i < |counts| ==> counts[i] < w
    ensures Decoded(Text(counts), 0, nOut, w) == if nOut < |counts| then counts[..nOut] else counts
    decreases |counts|
  {
    hide Value, Digits, Decoded, Text;
    if nOut == 0 {
      assert counts[..0] == [];
      DecodeNone(Text(counts), w);
    } else {
      if |counts| == 1 {
        assert counts == [counts[0]];
        OneCount(counts[0], nOut, w);
      } else {
        ValueOfDigits(counts[0], w);
        SpacedFirst(counts);
        DecodeFirst(Digits(counts[0]), Text(counts[1..]), nOut, w);
        RoundTrip(counts[1..], nOut - 1, w);
        assert counts == [counts[0]] + counts[1..];
      }
    }
  }
}

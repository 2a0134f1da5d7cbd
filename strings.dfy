/** The few operations on Python `str` values that the search code relies on:
    `split` on a one-character separator, `lower`, `isnumeric` and `int`. */
module Strings {

  /** `sep.join(pieces)`: the inverse of `Split`. */
  function Join(pieces: seq<string>, sep: char): string
    requires |pieces| > 0
  {
    if |pieces| == 1 then pieces[0] else pieces[0] + [sep] + Join(pieces[1..], sep)
  }

  /** `s.split(sep)`: the pieces between separators, in order. Like Python it never
      returns an empty list ("" splits into [""]) and keeps empty pieces ("a,,b"). */
  function Split(s: string, sep: char): (pieces: seq<string>)
    ensures |pieces| > 0
    ensures forall i :: 0 <= i < |pieces| ==> sep !in pieces[i]
    ensures Join(pieces, sep) == s
  {
    if s == [] then [[]]
    else
      var rest := Split(s[1..], sep);
      if s[0] == sep then
        [[]] + rest
      else
        var first := [s[0]] + rest[0];
        assert |rest| > 1 ==> Join([first] + rest[1..], sep) == [s[0]] + Join(rest, sep);
        [first] + rest[1..]
  }

  /** A piece with no separator is split into itself. */
  lemma {:induction false} SplitWithoutSeparator(p: string, sep: char)
    requires sep !in p
    ensures Split(p, sep) == [p]
  {
    if p != [] {
      SplitWithoutSeparator(p[1..], sep);
    }
  }

  /** Splitting a string that starts with a separator-free piece and a separator. */
  lemma {:induction false} SplitAfterPiece(p: string, t: string, sep: char)
    requires sep !in p
    ensures Split(p + [sep] + t, sep) == [p] + Split(t, sep)
  {
    var s := p + [sep] + t;
    if p == [] {
      assert s[1..] == t;
    } else {
      assert s[0] == p[0] != sep && s[1..] == p[1..] + [sep] + t;
      SplitAfterPiece(p[1..], t, sep);
      var rest := Split(s[1..], sep);
      assert rest[0] == p[1..] && rest[1..] == Split(t, sep);
      assert [s[0]] + rest[0] == p;
    }
  }

  /** Round trip: separator-free pieces, joined and split again, come back unchanged. */
  lemma {:induction false} SplitJoin(pieces: seq<string>, sep: char)
    requires |pieces| > 0
    requires forall i :: 0 <= i < |pieces| ==> sep !in pieces[i]
    ensures Split(Join(pieces, sep), sep) == pieces
    decreases |pieces|
  {
    if |pieces| == 1 {
      SplitWithoutSeparator(pieces[0], sep);
    } else {
      SplitJoin(pieces[1..], sep);
      SplitAfterPiece(pieces[0], Join(pieces[1..], sep), sep);
    }
  }

  /** `c.lower()` for the ASCII letters; every other character is kept. */
  function LowerChar(c: char): char
  {
    if 'A' <= c <= 'Z' then (c as int - 'A' as int + 'a' as int) as char else c
  }

  /** `s.lower()`: same length, no upper-case ASCII letter left, each upper-case
      letter replaced by its lower-case partner and every other character kept. */
  function Lower(s: string): (r: string)
    ensures |r| == |s|
    ensures forall i :: 0 <= i < |r| ==> !('A' <= r[i] <= 'Z')
    ensures forall i :: 0 <= i < |s| && 'A' <= s[i] <= 'Z' ==> r[i] as int == s[i] as int + 32
    ensures forall i :: 0 <= i < |s| && !('A' <= s[i] <= 'Z') ==> r[i] == s[i]
  {
    seq(|s|, i requires 0 <= i < |s| => LowerChar(s[i]))
  }

  /** Two characters that are equal once ASCII case is ignored. */
  predicate SameLetter(c: char, d: char)
  {
    c == d || ('A' <= c <= 'Z' && d as int == c as int + 32) || ('A' <= d <= 'Z' && c as int == d as int + 32)
  }

  /** Comparing `s.lower()` with a word that has no upper-case letter ("alive",
      "deceased") is comparing `s` with that word ignoring ASCII case. */
  lemma LowerMatchesWord(s: string, w: string)
    requires forall i :: 0 <= i < |w| ==> !('A' <= w[i] <= 'Z')
    ensures Lower(s) == w <==> |s| == |w| && forall i :: 0 <= i < |s| ==> SameLetter(s[i], w[i])
  {
    if |s| == |w| && forall i :: 0 <= i < |s| ==> SameLetter(s[i], w[i]) {
      forall i | 0 <= i < |s|
        ensures Lower(s)[i] == w[i]
      {
        assert SameLetter(s[i], w[i]);
      }
    }
  }

  predicate IsDigit(c: char)
  {
    '0' <= c <= '9'
  }

  /** `k` zero digits. */
  function Zeros(k: nat): (z: string)
    ensures |z| == k
  {
    if k == 0 then [] else Zeros(k - 1) + "0"
  }

  /** `s.isnumeric()` restricted to ASCII: non-empty and all decimal digits, which
      makes it some leading zeros followed by the numeral `str` prints for its value. */
  function IsNumeric(s: string): (r: bool)
    ensures r ==> |s| > 0 && (forall i :: 0 <= i < |s| ==> IsDigit(s[i])) && Padded(s)
  {
    if |s| > 0 && forall i :: 0 <= i < |s| ==> IsDigit(s[i]) then
      PaddedNumeral(s);
      true
    else
      false
  }

  /** `int(s)` for a string of decimal digits (leading zeros allowed): `k` digits
      give a value below `10^k`. */
  function DecimalValue(s: string): (r: nat)
    requires forall i :: 0 <= i < |s| ==> IsDigit(s[i])
    ensures r < Pow10(|s|)
  {
    if s == [] then 0
    else
      assert IsDigit(s[|s| - 1]);
      10 * DecimalValue(s[..|s| - 1]) + (s[|s| - 1] as int - '0' as int)
  }

  function Pow10(k: nat): (p: nat)
    ensures p > 0
  {
    if k == 0 then 1 else 10 * Pow10(k - 1)
  }

  /** A leading zero does not change the value `int` reads. */
  lemma {:induction false} LeadingZeroIgnored(s: string)
    requires |s| > 0 && s[0] == '0' && forall i :: 0 <= i < |s| ==> IsDigit(s[i])
    ensures DecimalValue(s) == DecimalValue(s[1..])
  {
    if |s| > 1 {
      var t := s[..|s| - 1];
      LeadingZeroIgnored(t);
      assert s[1..][..|s| - 2] == t[1..];
    }
  }

  /** `str(n)`: the decimal numeral of `n`, digits only, with no leading zero
      unless it is "0", which `int` reads back as `n`. */
  function DecimalString(n: nat): (s: string)
    ensures |s| > 0 && forall i :: 0 <= i < |s| ==> IsDigit(s[i])
    ensures s[0] == '0' ==> s == "0"
    ensures DecimalValue(s) == n
  {
    var d := ('0' as int + n % 10) as char;
    if n < 10 then
      [d]
    else
      var prefix := DecimalString(n / 10);
      assert (prefix + [d])[..|prefix|] == prefix;
      prefix + [d]
  }

  /** Appending a digit to the numeral of a positive number gives the numeral of ten times it plus that digit. */
  lemma AppendDigit(v: nat, c: char, n: nat)
    requires v > 0 && IsDigit(c) && n == 10 * v + (c as int - '0' as int)
    ensures DecimalString(n) == DecimalString(v) + [c]
  {
    assert n / 10 == v && n % 10 == c as int - '0' as int;
  }

  /** `s` is `n` preceded by zero digits. */
  predicate PaddedBy(s: string, n: string)
  {
    |n| <= |s| && s == Zeros(|s| - |n|) + n
  }

  /** A digit after a run of zeros is that digit padded by the zeros. */
  lemma PadAfterZeros(t: string, c: char)
    requires t == Zeros(|t|)
    ensures PaddedBy(t + [c], [c])
  {
  }

  /** A digit after a padded numeral extends the numeral. */
  lemma PadAfterNumeral(t: string, n: string, c: char)
    requires PaddedBy(t, n)
    ensures PaddedBy(t + [c], n + [c])
  {
    assert t + [c] == Zeros(|t| - |n|) + (n + [c]);
  }

  /** A string of digits is its leading zeros followed by the numeral of its value. */
  predicate Padded(s: string)
    requires forall i :: 0 <= i < |s| ==> IsDigit(s[i])
  {
    PaddedBy(s, DecimalString(DecimalValue(s)))
  }

  lemma {:induction false} PaddedNumeral(s: string)
    requires |s| > 0 && forall i :: 0 <= i < |s| ==> IsDigit(s[i])
    ensures Padded(s)
  {
    var t, c := s[..|s| - 1], s[|s| - 1];
    assert s == t + [c];
    if t != [] {
      PaddedNumeral(t);
    }
    PaddedStep(t, c);
  }

  /** One digit more on the right keeps a digit string padded. */
  lemma PaddedStep(t: string, c: char)
    requires IsDigit(c) && forall i :: 0 <= i < |t| ==> IsDigit(t[i])
    requires t != [] ==> Padded(t)
    ensures Padded(t + [c])
  {
    var s := t + [c];
    assert s[..|s| - 1] == t;
    var v := DecimalValue(t);
    assert DecimalValue(s) == 10 * v + (c as int - '0' as int);
    if t == [] || v == 0 {
      assert DecimalString(DecimalValue(s)) == [c];
      if t != [] {
        assert DecimalString(0) == "0";
        assert t == Zeros(|t| - 1) + "0";
      }
      PadAfterZeros(t, c);
    } else {
      AppendDigit(v, c, DecimalValue(s));
      PadAfterNumeral(t, DecimalString(v), c);
    }
  }
}

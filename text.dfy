/**
 * The string primitives the core relies on: `str.lower`, the substring test `in`,
 * `str.split(':')`, and the numeric parses `float(str)` and `int(str)`.
 */
module Text {
  import opened Wrappers

  /** ASCII lower-casing of one character. */
  function LowerChar(c: char): (r: char)
    ensures 'A' <= c <= 'Z' ==> 'a' <= r <= 'z' && r as int - c as int == 32
    ensures !('A' <= c <= 'Z') ==> r == c
  {
    if 'A' <= c <= 'Z' then (c as int + 32) as char else c
  }

  /**
   * `s.lower()`, character by character: each capital becomes its small letter, every other
   * character stays, so no capital is left.
   */
  function Lower(s: string): (r: string)
    ensures |r| == |s|
    ensures forall i :: 0 <= i < |s| && 'A' <= s[i] <= 'Z' ==> 'a' <= r[i] <= 'z' && r[i] as int - s[i] as int == 32
    ensures forall i :: 0 <= i < |s| && !('A' <= s[i] <= 'Z') ==> r[i] == s[i]
    ensures forall i :: 0 <= i < |r| ==> !('A' <= r[i] <= 'Z')
  {
    seq(|s|, i requires 0 <= i < |s| => LowerChar(s[i]))
  }

  /** Lower-casing leaves a string without capitals unchanged. */
  lemma LowerUnchanged(s: string)
    requires forall i :: 0 <= i < |s| ==> !('A' <= s[i] <= 'Z')
    ensures Lower(s) == s
  {
  }

  predicate StartsWith(s: string, part: string) {
    |part| <= |s| && s[..|part|] == part
  }

  /** `part in s`: `part` occurs in `s` at some offset (the empty string occurs everywhere). */
  predicate Contains(s: string, part: string) {
    StartsWith(s, part) || (|s| > 0 && Contains(s[1..], part))
  }

  /** Every character of a part found in `s` is a character of `s`. */
  lemma {:induction false} ContainsHasChars(s: string, part: string, c: char)
    requires Contains(s, part) && c in part
    ensures c in s
  {
    if !StartsWith(s, part) {
      ContainsHasChars(s[1..], part, c);
    } else {
      assert s[..|part|] == part;
    }
  }

  /** `s.split(sep)`: the pieces between occurrences of `sep`; always at least one piece. */
  function Split(s: string, sep: char): (r: seq<string>)
    ensures |r| >= 1
    ensures forall i :: 0 <= i < |r| ==> sep !in r[i]
  {
    if s == [] then [""]
    else
      var rest := Split(s[1..], sep);
      if s[0] == sep then [""] + rest else [[s[0]] + rest[0]] + rest[1..]
  }

  /** The inverse of `Split`: the pieces glued together with `sep` between them. */
  function Join(pieces: seq<string>, sep: char): string
    requires |pieces| >= 1
  {
    if |pieces| == 1 then pieces[0] else pieces[0] + [sep] + Join(pieces[1..], sep)
  }

  lemma {:induction false} SplitWithoutSeparator(s: string, sep: char)
    requires sep !in s
    ensures Split(s, sep) == [s]
  {
    if s != [] {
      assert s[0] != sep && sep !in s[1..];
      SplitWithoutSeparator(s[1..], sep);
      assert [s[0]] + s[1..] == s;
    }
  }

  lemma {:induction false} SplitFirstPiece(a: string, sep: char, b: string)
    requires sep !in a
    ensures Split(a + [sep] + b, sep) == [a] + Split(b, sep)
  {
    if a == [] {
      assert a + [sep] + b == [sep] + b;
      assert ([sep] + b)[1..] == b;
    } else {
      assert (a + [sep] + b)[1..] == a[1..] + [sep] + b;
      SplitFirstPiece(a[1..], sep, b);
      assert [a[0]] + a[1..] == a;
    }
  }

  /** Splitting a joined list of separator-free pieces gives the pieces back. */
  lemma {:induction false} SplitJoin(pieces: seq<string>, sep: char)
    requires |pieces| >= 1
    requires forall i :: 0 <= i < |pieces| ==> sep !in pieces[i]
    ensures Split(Join(pieces, sep), sep) == pieces
  {
    if |pieces| == 1 {
      SplitWithoutSeparator(pieces[0], sep);
    } else {
      SplitJoin(pieces[1..], sep);
      SplitFirstPiece(pieces[0], sep, Join(pieces[1..], sep));
      assert [pieces[0]] + pieces[1..] == pieces;
    }
  }

  /** Gluing the pieces of a split back together with the separator gives the input again. */
  lemma {:induction false} JoinSplit(s: string, sep: char)
    ensures Join(Split(s, sep), sep) == s
  {
    if s != [] {
      var rest := Split(s[1..], sep);
      JoinSplit(s[1..], sep);
      if s[0] == sep {
        assert ([""] + rest)[1..] == rest;
      } else {
        var pieces := [[s[0]] + rest[0]] + rest[1..];
        assert pieces[1..] == rest[1..];
        if |rest| > 1 {
          assert Join(rest, sep) == rest[0] + [sep] + Join(rest[1..], sep);
        }
      }
      assert [s[0]] + s[1..] == s;
    }
  }

  predicate IsDigit(c: char) { '0' <= c <= '9' }

  predicate AllDigits(s: string) { forall i :: 0 <= i < |s| ==> IsDigit(s[i]) }

  /** The value of a string of decimal digits (0 for the empty string). */
  function DigitsValue(s: string): nat
    requires AllDigits(s)
  {
    if s == [] then 0 else DigitsValue(s[..|s| - 1]) * 10 + (s[|s| - 1] as int - '0' as int)
  }

  /** The value of one decimal digit, as a real. */
  function DigitReal(c: char): real
    requires IsDigit(c)
  {
    match c
    case '0' => 0.0 case '1' => 1.0 case '2' => 2.0 case '3' => 3.0 case '4' => 4.0
    case '5' => 5.0 case '6' => 6.0 case '7' => 7.0 case '8' => 8.0 case _ => 9.0
  }

  /** The value of a string of decimal digits, as a real (0 for the empty string). */
  function DigitsReal(s: string): real
    requires AllDigits(s)
  {
    if s == [] then 0.0 else DigitsReal(s[..|s| - 1]) * 10.0 + DigitReal(s[|s| - 1])
  }

  /** The value of the digits after a decimal point: ".d1d2..." is (d1 + (d2 + ...) / 10) / 10. */
  function FractionValue(s: string): (r: real)
    requires AllDigits(s)
    ensures 0.0 <= r <= 1.0
  {
    if s == [] then 0.0 else (DigitReal(s[0]) + FractionValue(s[1..])) / 10.0
  }

  /** Index of the first `c` in `s`, or `|s|` when there is none. */
  function FirstIndexOf(s: string, c: char): (r: nat)
    ensures r <= |s|
    ensures r < |s| ==> s[r] == c
    ensures forall j :: 0 <= j < r ==> s[j] != c
  {
    if s == [] then 0 else if s[0] == c then 0 else 1 + FirstIndexOf(s[1..], c)
  }

  /** The two readings of a digit string agree. */
  lemma {:induction false} DigitsAgree(s: string)
    requires AllDigits(s)
    ensures DigitsReal(s) == DigitsValue(s) as real
  {
    if s != [] {
      var n := |s| - 1;
      DigitsAgree(s[..n]);
      var c := s[n];
      assert DigitReal(c) == (c as int - '0' as int) as real;
    }
  }

  /** Every integer literal is also a decimal literal, of the same value. */
  lemma IntegerIsDecimal(s: string)
    requires ParseInteger(s).Some?
    ensures ParseDecimal(s) == Some(ParseInteger(s).value as real)
  {
    var digits := if s[0] == '-' || s[0] == '+' then s[1..] else s;
    assert AllDigits(digits);
    assert forall j :: 0 <= j < |digits| ==> digits[j] != '.';
    assert digits[..|digits|] == digits;
    DigitsAgree(digits);
  }

  /** An unsigned decimal literal: digits, optionally a '.', optionally more digits, at least one digit. */
  function ParseUnsignedDecimal(s: string): Option<real> {
    var dot := FirstIndexOf(s, '.');
    var whole := s[..dot];
    var frac := if dot < |s| then s[dot + 1..] else "";
    if AllDigits(whole) && AllDigits(frac) && |whole| + |frac| > 0 then
      Some(DigitsReal(whole) + FractionValue(frac))
    else
      None
  }

  /** `float(s)` on a string, restricted to signed decimal literals. */
  function ParseDecimal(s: string): Option<real> {
    if |s| > 0 && s[0] == '-' then
      match ParseUnsignedDecimal(s[1..])
      case Some(x) => Some(-x)
      case None => None
    else if |s| > 0 && s[0] == '+' then ParseUnsignedDecimal(s[1..])
    else ParseUnsignedDecimal(s)
  }

  /** `int(s)` on a string: an optional sign followed by at least one digit. */
  function ParseInteger(s: string): Option<int> {
    if |s| > 0 && s[0] == '-' then
      (if |s| > 1 && AllDigits(s[1..]) then Some(-(DigitsValue(s[1..]) as int)) else None)
    else if |s| > 0 && s[0] == '+' then
      (if |s| > 1 && AllDigits(s[1..]) then Some(DigitsValue(s[1..]) as int) else None)
    else if |s| > 0 && AllDigits(s) then Some(DigitsValue(s) as int)
    else None
  }

  lemma UnsignedDecimalRejectsColon(s: string)
    requires ':' in s
    ensures ParseUnsignedDecimal(s) == None
  {
    var dot := FirstIndexOf(s, '.');
    var k :| 0 <= k < |s| && s[k] == ':';
    if k < dot {
      assert s[..dot][k] == ':';
    } else {
      assert k > dot;
      assert s[dot + 1..][k - dot - 1] == ':';
    }
  }

  /** A string holding a colon is never a decimal literal, so `float()` rejects it. */
  lemma DecimalRejectsColon(s: string)
    requires ':' in s
    ensures ParseDecimal(s) == None
  {
    if |s| > 0 && (s[0] == '-' || s[0] == '+') {
      assert s[0] != ':';
      var k :| 0 <= k < |s| && s[k] == ':';
      assert s[1..][k - 1] == ':';
      UnsignedDecimalRejectsColon(s[1..]);
    } else {
      UnsignedDecimalRejectsColon(s);
    }
  }
}

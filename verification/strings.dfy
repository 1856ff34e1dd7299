/**
 * The few text operations of JavaScript that the charge computation goes
 * through: `String.prototype.includes`, `Number.prototype.toString` on a
 * non-negative integer, `String.prototype.padStart`, and the part of
 * `parseFloat` that reads unsigned fixed-point text.
 */
module Strings {
  import opened Optional

  // ---------------------------------------------------------------------
  // Substring search (`includes`)
  // ---------------------------------------------------------------------

  /** `pat` occurs in `s` starting at index `i`. */
  ghost predicate OccursAt(s: string, pat: string, i: int) {
    0 <= i && i + |pat| <= |s| && s[i..i + |pat|] == pat
  }

  /** `pat` occurs somewhere in `s`: the reference meaning of `includes`. */
  ghost predicate Occurs(s: string, pat: string) {
    exists i :: OccursAt(s, pat, i)
  }

  /** When `pat` is not a prefix of `s`, any occurrence lies in the tail. */
  lemma OccursInTail(s: string, pat: string)
    requires |s| > 0 && !(pat <= s)
    ensures Occurs(s, pat) <==> Occurs(s[1..], pat)
  {
    if Occurs(s, pat) {
      var i :| OccursAt(s, pat, i);
      assert i != 0;
      assert s[1..][i - 1..i - 1 + |pat|] == s[i..i + |pat|];
      assert OccursAt(s[1..], pat, i - 1);
    }
    if Occurs(s[1..], pat) {
      var j :| OccursAt(s[1..], pat, j);
      assert s[j + 1..j + 1 + |pat|] == s[1..][j..j + |pat|];
      assert OccursAt(s, pat, j + 1);
    }
  }

  /** A text without the pattern's first character cannot contain the pattern. */
  lemma AbsentFirstChar(s: string, pat: string)
    requires |pat| > 0 && pat[0] !in s
    ensures !Occurs(s, pat)
  {
  }

  /** `s.includes(pat)`: scan the start positions left to right. */
  function Includes(s: string, pat: string): (b: bool)
    ensures b <==> Occurs(s, pat)
    decreases |s|
  {
    if pat <= s then
      assert OccursAt(s, pat, 0);
      true
    else if |s| == 0 then
      false
    else
      OccursInTail(s, pat);
      Includes(s[1..], pat)
  }

  // ---------------------------------------------------------------------
  // Decimal digits
  // ---------------------------------------------------------------------

  predicate IsDigit(c: char) {
    '0' <= c <= '9'
  }

  predicate AllDigits(s: string) {
    forall i :: 0 <= i < |s| ==> IsDigit(s[i])
  }

  function DigitValue(c: char): nat
    requires IsDigit(c)
  {
    c as int - '0' as int
  }

  function DigitChar(d: nat): (c: char)
    requires d < 10
    ensures IsDigit(c) && DigitValue(c) == d
  {
    ('0' as int + d) as char
  }

  function Pow10(k: nat): (p: nat)
    ensures p >= 1
  {
    if k == 0 then 1 else 10 * Pow10(k - 1)
  }

  /** The number a digit string denotes, most significant digit first. */
  function DigitsValue(s: string): nat
    requires AllDigits(s)
  {
    if |s| == 0 then 0 else DigitsValue(s[..|s| - 1]) * 10 + DigitValue(s[|s| - 1])
  }

  /** Zeros in front of a digit string do not change its value. */
  lemma {:induction false} LeadingZeros(z: string, s: string)
    requires forall i :: 0 <= i < |z| ==> z[i] == '0'
    requires AllDigits(s)
    ensures AllDigits(z + s)
    ensures DigitsValue(z + s) == DigitsValue(s)
    decreases |s|
  {
    if |s| == 0 {
      assert z + s == z;
      AllZeros(z);
    } else {
      var t := s[..|s| - 1];
      LeadingZeros(z, t);
      assert (z + s)[..|z + s| - 1] == z + t;
    }
  }

  lemma {:induction false} AllZeros(z: string)
    requires forall i :: 0 <= i < |z| ==> z[i] == '0'
    ensures AllDigits(z) && DigitsValue(z) == 0
  {
    if |z| > 0 {
      AllZeros(z[..|z| - 1]);
    }
  }

  /**
   * `n.toString()` for a non-negative integer: the shortest decimal
   * numeral, so the only numeral with a leading zero is "0" itself.
   */
  function NatToString(n: nat): (s: string)
    ensures 1 <= |s| && AllDigits(s)
    ensures DigitsValue(s) == n
    ensures n < Pow10(|s|)
    ensures |s| > 1 ==> s[0] != '0'
    ensures |s| == 1 <==> n < 10
    ensures n < 100 ==> |s| <= 2
  {
    if n < 10 then
      [DigitChar(n)]
    else
      var prefix := NatToString(n / 10);
      var s := prefix + [DigitChar(n % 10)];
      assert s[..|s| - 1] == prefix;
      s
  }

  /** `n` copies of `c`. */
  function Repeat(c: char, n: nat): (r: string)
    ensures |r| == n && forall i :: 0 <= i < n ==> r[i] == c
  {
    seq(n, _ => c)
  }

  /** `s.padStart(width, fill)` with a one-character fill. */
  function PadStart(s: string, width: nat, fill: char): (r: string)
    ensures |r| == if |s| >= width then |s| else width
    ensures r[|r| - |s|..] == s
    ensures forall i :: 0 <= i < |r| - |s| ==> r[i] == fill
  {
    if |s| >= width then s else Repeat(fill, width - |s|) + s
  }

  // ---------------------------------------------------------------------
  // Reading fixed-point text (`parseFloat`)
  // ---------------------------------------------------------------------

  /** The index of the first `c` in `s`, if any. */
  function FirstIndexOf(s: string, c: char): (r: Option<nat>)
    ensures r.Some? ==> r.value < |s| && s[r.value] == c && c !in s[..r.value]
    ensures r.None? ==> c !in s
  {
    if |s| == 0 then None
    else if s[0] == c then Some(0)
    else
      match FirstIndexOf(s[1..], c)
      case None => None
      case Some(k) =>
        assert s[..k + 1] == [s[0]] + s[1..][..k];
        Some(k + 1)
  }

  /** The value of digits written after a decimal point. */
  function Fraction(digits: string): real
    requires AllDigits(digits)
  {
    DigitsValue(digits) as real / Pow10(|digits|) as real
  }

  /**
   * `parseFloat` on unsigned text of the form `digits` or `digits.digits`.
   * Any other text yields None; JavaScript would read a prefix or give NaN,
   * but nothing in the ledger ever hands it such text.
   */
  function ParseFixedPoint(t: string): Option<real> {
    match FirstIndexOf(t, '.')
    case None =>
      if 0 < |t| && AllDigits(t) then Some(DigitsValue(t) as real) else None
    case Some(p) => ParseParts(t[..p], t[p + 1..])
  }

  /** The text before and after the first point, read as a whole part and a fraction. */
  function ParseParts(whole: string, frac: string): Option<real> {
    if 0 < |whole| && AllDigits(whole) && AllDigits(frac) then
      Some(DigitsValue(whole) as real + Fraction(frac))
    else
      None
  }

  /** In `whole.frac` with a digit-only `whole`, the first point is the one after `whole`. */
  lemma PointAfterDigits(whole: string, frac: string)
    requires AllDigits(whole)
    ensures FirstIndexOf(whole + "." + frac, '.') == Some(|whole|)
  {
    var t := whole + "." + frac;
    assert t[|whole|] == '.';
    assert forall i :: 0 <= i < |whole| ==> t[i] == whole[i];
  }

  lemma ParseAtPoint(t: string, p: nat)
    requires FirstIndexOf(t, '.') == Some(p)
    ensures p < |t| && ParseFixedPoint(t) == ParseParts(t[..p], t[p + 1..])
  {
  }

  lemma SplitAtPoint(whole: string, frac: string)
    ensures (whole + "." + frac)[..|whole|] == whole
    ensures (whole + "." + frac)[|whole| + 1..] == frac
  {
  }

  /** Reading back `whole.frac` gives the whole part plus the fraction the digits spell. */
  lemma ParseFixedPointOfJoin(whole: string, frac: string)
    requires 0 < |whole| && AllDigits(whole) && AllDigits(frac)
    ensures ParseFixedPoint(whole + "." + frac)
         == Some(DigitsValue(whole) as real + Fraction(frac))
  {
    var t := whole + "." + frac;
    PointAfterDigits(whole, frac);
    ParseAtPoint(t, |whole|);
    SplitAtPoint(whole, frac);
  }
}

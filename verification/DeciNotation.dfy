/** How decis are written (f-deci.c): what a text of given parts says, and which text a given deci has. */
module DeciNotation {
  import opened DeciSpec

  predicate IsDigit(c: char) {
    '0' <= c <= '9'
  }

  function DigitValue(c: char): (d: nat)
    requires IsDigit(c)
    ensures d <= 9
  {
    c as int - '0' as int
  }

  predicate IsPoint(c: char) {
    c == '.' || c == ','
  }

  /** The number formed by all the digits of a text. */
  ghost function DigitsNumber(t: string): nat {
    if |t| == 0 then 0
    else if IsDigit(t[|t| - 1]) then 10 * DigitsNumber(t[..|t| - 1]) + DigitValue(t[|t| - 1])
    else DigitsNumber(t[..|t| - 1])
  }

  ghost function DigitCount(t: string): nat {
    if |t| == 0 then 0 else DigitCount(t[..|t| - 1]) + if IsDigit(t[|t| - 1]) then 1 else 0
  }

  ghost predicate AllDigits(t: string) {
    forall k :: 0 <= k < |t| ==> IsDigit(t[k])
  }

  /** Digits with ticks between, before or after them. */
  ghost predicate Ticked(t: string) {
    forall k :: 0 <= k < |t| ==> IsDigit(t[k]) || t[k] == '\''
  }

  /** Nothing, or one of two characters. */
  predicate Optional(t: string, c: char, d: char) {
    |t| == 0 || (|t| == 1 && (t[0] == c || t[0] == d))
  }

  predicate Minus(t: string) {
    |t| > 0 && t[0] == '-'
  }

  // ---- Reading ----

  /** The largest exponent a literal may give; a negative one counts no further than this. */
  const MAX_EXPONENT: nat := 200_000_000

  /** A literal in its parts, each a text that may be empty: as in -$1'234.50e+6. */
  datatype Parts = Parts(sign: string, dollar: string, whole: string, point: string, fraction: string, mark: string,
                         turn: string, power: string)
  {
    ghost predicate Valid() {
      && Optional(sign, '+', '-') && Optional(dollar, '$', '$') && Ticked(whole)
      && Optional(point, '.', ',') && Ticked(fraction) && (|point| == 0 ==> |fraction| == 0)
      && Optional(mark, 'e', 'E') && Optional(turn, '+', '-') && AllDigits(power)
      && (|mark| == 0 ==> |turn| == 0 && |power| == 0)
    }

    function Front(): string {
      sign + dollar
    }

    function Mantissa(): string {
      whole + point + fraction
    }

    function Exponent(): string {
      mark + turn + power
    }

    function Text(): string {
      Front() + Mantissa() + Exponent()
    }

    /** The character cannot be one more of this literal: the literal ends before it. */
    ghost predicate Stops(c: char) {
      && !IsDigit(c)
      && (|mark| > 0 && |turn + power| == 0 ==> c != '+' && c != '-')
      && (|mark| == 0 ==> !IsPoint(c) && c != '\'' && c != 'e' && c != 'E')
      && (|dollar + Mantissa() + Exponent()| == 0 ==> c != '$')
      && (|Text()| == 0 ==> c != '+' && c != '-')
    }

    ghost predicate TooLarge() {
      !Minus(turn) && DigitsNumber(power) > MAX_EXPONENT
    }

    /** The decimal exponent of the last digit. */
    ghost function Scale(): int {
      var n: int := DigitsNumber(power);
      (if !Minus(turn) then n else if n > MAX_EXPONENT then 0 - MAX_EXPONENT else -n) - DigitCount(fraction)
    }

    /** What reading it delivers: all its digits as one number, scaled, signed and rounded once. */
    ghost predicate Reads(r: Outcome, end: nat) {
      if TooLarge() then r == Overflow
      else end == |Text()| && Delivered(DigitsNumber(whole + fraction), Scale(), Minus(sign), r)
    }
  }

  /** The text starts with these parts, and they end there. */
  ghost predicate IsText(s: string, p: Parts) {
    && p.Valid() && |p.Text()| <= |s| && s[..|p.Text()|] == p.Text()
    && (|p.Text()| < |s| ==> p.Stops(s[|p.Text()|]))
  }

  /** A mantissa with a second point after it. */
  ghost predicate HasSecondPoint(s: string, p: Parts) {
    && p.Valid() && |p.point| > 0 && |p.mark| == 0 && |p.Text()| < |s| && s[..|p.Text()|] == p.Text()
    && IsPoint(s[|p.Text()|])
  }

  // ---- Writing ----

  /** The decimal numeral of n. */
  ghost predicate IsNumeral(t: string, n: nat) {
    t != "" && AllDigits(t) && DigitsNumber(t) == n && (|t| > 1 ==> t[0] != '0')
  }

  ghost predicate IsInteger(t: string, n: int) {
    if n < 0 then t != "" && t[0] == '-' && IsNumeral(t[1..], -n) else IsNumeral(t, n)
  }

  function ZeroText(n: nat): string {
    seq(n, _ => '0')
  }

  /**
   * The mantissa m of digits d scaled by exp. A point stands in it if and only if digits come after it: there are
   * fraction digits, and either at most six zeros would come directly after the point or there is a second digit.
   * It stands as far into the digits as the scale says, or after the first character. Zeros are filled in up to
   * the first digit if and only if the value is below one and no exponent is written.
   */
  ghost predicate IsMantissa(m: string, d: string, exp: int, point: char) {
    var e := |d| + exp;
    if exp < 0 && (e >= -6 || |d| > 1) then
      var place := if e > 0 then e else 1;
      && place < |m| && m[place] == point
      && m[..place] + m[place + 1..] == ZeroText(if -6 <= e <= 0 then 1 - e else 0) + d
    else m == d
  }

  /** The exponent part: there is one if and only if zeros would follow the digits, or more than six precede them. */
  ghost predicate IsExponent(x: string, digits: nat, exp: int) {
    if exp > 0 then x != "" && x[0] == 'e' && IsInteger(x[1..], exp)
    else if digits + exp < -6 then x != "" && x[0] == 'e' && IsInteger(x[1..], digits + exp - 1)
    else x == ""
  }

  ghost predicate IsLayout(t: string, sign: bool, symbol: char, num: nat, exp: int, point: char, d: string, m: string,
      x: string) {
    && t == (if sign then "-" else "") + (if symbol != '\0' then [symbol] else "") + m + x
    && IsNumeral(d, num)
    && if num == 0 then m == "0" && x == "" else IsMantissa(m, d, exp, point) && IsExponent(x, |d|, exp)
  }

  /** t is the text of a deci. */
  ghost predicate Written(t: string, a: Deci, symbol: char, point: char) {
    exists d, m, x :: IsLayout(t, a.s, symbol, a.Sig(), a.e, point, d, m, x)
  }

  lemma {:induction false} NumeralSplits(t: string, n: nat)
    requires IsNumeral(t, n) && |t| > 1
    ensures n == 10 * DigitsNumber(t[..|t| - 1]) + DigitValue(t[|t| - 1])
    ensures IsNumeral(t[..|t| - 1], DigitsNumber(t[..|t| - 1])) && DigitsNumber(t[..|t| - 1]) > 0
    decreases |t|
  {
    var u := t[..|t| - 1];
    assert u[0] == t[0];
    if |u| > 1 {
      NumeralSplits(u, DigitsNumber(u));
    } else {
      assert u[..0] == "";
    }
  }

  lemma {:induction false} LastDigit(t: string, n: nat)
    requires IsNumeral(t, n)
    ensures n % 10 == DigitValue(t[|t| - 1]) && (|t| > 1 <==> n >= 10)
  {
    if |t| > 1 {
      NumeralSplits(t, n);
    } else {
      assert t[..|t| - 1] == "" && DigitsNumber("") == 0;
      assert n == 10 * DigitsNumber(t[..|t| - 1]) + DigitValue(t[|t| - 1]);
    }
  }

  /** A number has one numeral. */
  lemma {:induction false} NumeralUnique(t: string, u: string, n: nat)
    requires IsNumeral(t, n) && IsNumeral(u, n)
    ensures t == u
    decreases |t|
  {
    LastDigit(t, n);
    LastDigit(u, n);
    if |t| > 1 && |u| > 1 {
      NumeralSplits(t, n);
      NumeralSplits(u, n);
      NumeralUnique(t[..|t| - 1], u[..|u| - 1], n / 10);
    }
    assert t == t[..|t| - 1] + [t[|t| - 1]] && u == u[..|u| - 1] + [u[|u| - 1]];
  }

  lemma {:induction false} IntegerUnique(t: string, u: string, n: int)
    requires IsInteger(t, n) && IsInteger(u, n)
    ensures t == u
  {
    hide IsNumeral;
    if n < 0 {
      NumeralUnique(t[1..], u[1..], -n);
      assert t == [t[0]] + t[1..] && u == [u[0]] + u[1..];
    } else {
      NumeralUnique(t, u, n);
    }
  }

  lemma {:induction false} MantissaUnique(m: string, n: string, d: string, exp: int, point: char)
    requires IsMantissa(m, d, exp, point) && IsMantissa(n, d, exp, point)
    ensures m == n
  {
    var e := |d| + exp;
    if exp < 0 && (e >= -6 || |d| > 1) {
      var place := if e > 0 then e else 1;
      var k, l := m[..place] + m[place + 1..], n[..place] + n[place + 1..];
      assert m == m[..place] + [point] + m[place + 1..] && n == n[..place] + [point] + n[place + 1..];
      assert k[..place] == m[..place] && l[..place] == n[..place] && k[place..] == m[place + 1..] &&
        l[place..] == n[place + 1..];
    }
  }

  lemma {:induction false} ExponentUnique(x: string, y: string, digits: nat, exp: int)
    requires IsExponent(x, digits, exp) && IsExponent(y, digits, exp)
    ensures x == y
  {
    hide IsInteger;
    if exp > 0 || digits + exp < -6 {
      IntegerUnique(x[1..], y[1..], if exp > 0 then exp else digits + exp - 1);
      assert x == [x[0]] + x[1..] && y == [y[0]] + y[1..];
    }
  }

  /** A deci has one text. */
  lemma {:induction false} WrittenOnce(t: string, u: string, a: Deci, symbol: char, point: char)
    requires Written(t, a, symbol, point) && Written(u, a, symbol, point)
    ensures t == u
  {
    hide IsNumeral, IsMantissa, IsExponent, Deci.Sig;
    var d, m, x :| IsLayout(t, a.s, symbol, a.Sig(), a.e, point, d, m, x);
    var d', m', x' :| IsLayout(u, a.s, symbol, a.Sig(), a.e, point, d', m', x');
    NumeralUnique(d, d', a.Sig());
    if a.Sig() > 0 {
      MantissaUnique(m, m', d, a.e, point);
      ExponentUnique(x, x', |d|, a.e);
    }
  }
}

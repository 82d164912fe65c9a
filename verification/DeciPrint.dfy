/** Writing decis as text (f-deci.c, `m_to_string` and `deci_to_string`), and the round trip through
`string_to_deci`. */
module DeciPrint {
  import opened Limbs
  import opened Rounding
  import opened DeciShift
  import opened DeciSpec
  import opened DeciArith
  import opened DeciNotation
  import opened DeciText

  // ---- Decimal digits ----

  function DigitChar(d: nat): (c: char)
    requires d <= 9
    ensures IsDigit(c) && DigitValue(c) == d
  {
    ('0' as int + d) as char
  }

  /** The decimal digits of a number, without leading zeros. */
  ghost function Decimal(v: nat): (t: string)
    ensures |t| > 0 && forall k :: 0 <= k < |t| ==> IsDigit(t[k])
  {
    if v < 10 then [DigitChar(v)] else Decimal(v / 10) + [DigitChar(v % 10)]
  }

  /** The text of a signed exponent, as `INT_TO_STR` writes it. */
  ghost function IntText(n: int): string {
    if n < 0 then "-" + Decimal(-n) else Decimal(n)
  }

  lemma {:induction false} DecimalNumber(v: nat)
    ensures DigitsNumber(Decimal(v)) == v
  {
    if v >= 10 {
      DecimalNumber(v / 10);
      DropLast(Decimal(v / 10), DigitChar(v % 10));
    } else {
      DropLast("", DigitChar(v));
      assert "" + [DigitChar(v)] == [DigitChar(v)];
    }
  }

  lemma {:induction false} DecimalLength(v: nat, n: nat)
    requires n > 0 && v < Pow10(n)
    ensures |Decimal(v)| <= n
  {
    if n > 1 && v >= 10 {
      DecimalLength(v / 10, n - 1);
    } else if n == 1 {
      assert Pow10(1) == 10 * Pow10(0);
    }
  }

  /** The conversion loop keeps the digits found so far behind those of the rest. */
  ghost predicate Converted(v: nat, rest: nat, text: string) {
    Decimal(v) == if rest == 0 then text else Decimal(rest) + text
  }

  lemma {:induction false} ConvertStep(v: nat, rest: nat, text: string)
    requires rest > 0 && Converted(v, rest, text)
    ensures Converted(v, rest / 10, [DigitChar(rest % 10)] + text)
  {
    if rest >= 10 {
      assert Decimal(rest / 10) + [DigitChar(rest % 10)] + text == Decimal(rest / 10) + ([DigitChar(rest % 10)] + text);
    }
  }

  /** Dividing by ten empties at most the top limb. */
  lemma {:induction false} TopLimbGone(before: seq<Limb>, after: seq<Limb>, n: nat, r: nat)
    requires 0 < n <= |before| == |after| && before[n - 1] != 0
    requires Val(before[..n]) == Val(after[..n]) * 10 + r && r < 10
    ensures after[n - 1] == 0 ==> Val(after[..n - 1]) == Val(after[..n]) && (n > 1 ==> after[n - 2] != 0)
  {
    if after[n - 1] == 0 {
      assert after[..n] == after[..n - 1] + [0];
      ValPush(after[..n - 1], 0);
      if n > 1 && after[n - 2] == 0 {
        assert after[..n - 1] == after[..n - 2] + [0];
        ValPush(after[..n - 2], 0);
        ValBound(after[..n - 2]);
        assert before[..n][n - 1] != 0;
        NonzeroAt(before[..n], n - 1);
      }
    }
  }

  lemma {:induction false} NonzeroVal(s: seq<Limb>, n: nat)
    requires 0 < n == |s| && s[n - 1] != 0
    ensures Val(s) > 0
  {
    NonzeroAt(s, n - 1);
  }

  lemma {:induction false} EmptyVal(s: seq<Limb>)
    requires |s| == 0
    ensures Val(s) == 0
  {
  }

  lemma QuotientOfTen(v: nat, q: nat, r: nat)
    requires v == q * 10 + r && r < 10
    ensures v / 10 == q && v % 10 == r
  {
  }

  /** The conversion loop of `m_to_string` on its copy b. */
  method Convert(b: array<Limb>, count: nat, ghost v: nat) returns (text: string)
    requires 0 < count <= b.Length && b[count - 1] != 0 && Val(b[..count]) == v
    modifies b
    ensures text == Decimal(v)
  {
    var n := count;
    text := "";
    NonzeroVal(b[..count], count);
    assert Decimal(v) + "" == Decimal(v);
    hide Val, PowB, Decimal;
    while n > 0
      invariant 0 <= n <= b.Length
      invariant n > 0 ==> b[n - 1] != 0
      invariant Converted(v, if n == 0 then 0 else Val(b[..n]), text)
      decreases if n == 0 then 0 else Val(b[..n])
    {
      ghost var before, rest := b[..], Val(b[..n]);
      NonzeroVal(b[..n], n);
      assert before[..n] == b[..n];
      var r := MDivide1(n, b, b, 10);
      assert b[..][..n] == b[..n] && b[..][..n - 1] == b[..n - 1];
      TopLimbGone(before, b[..], n, r);
      QuotientOfTen(rest, Val(b[..n]), r);
      ConvertStep(v, rest, text);
      if b[n - 1] == 0 {
        n := n - 1;
        EmptyVal(b[..0]);
      }
      text := [DigitChar(r)] + text;
    }
  }

  /** `m_to_string`: the decimal digits of a significand. */
  method MToString(n: nat, a: seq<Limb>) returns (text: string)
    requires n <= |a|
    ensures text == Decimal(Val(a[..n]))
  {
    var n := n;
    ghost var v := Val(a[..n]);
    while n > 0 && a[n - 1] == 0
      invariant 0 <= n <= |a|
      invariant Val(a[..n]) == v
    {
      assert a[..n] == a[..n - 1] + [a[n - 1]];
      ValPush(a[..n - 1], a[n - 1]);
      n := n - 1;
    }
    if n == 0 {
      return "0";
    }
    var b := new Limb[n](i requires 0 <= i < n => a[i]);
    assert b[..n] == a[..n];
    text := Convert(b, n, v);
  }

  // ---- deci_to_string ----

  ghost function Zeros(n: nat): (t: string)
    ensures |t| == n && forall k :: 0 <= k < n ==> t[k] == '0'
  {
    if n == 0 then "" else Zeros(n - 1) + ['0']
  }

  /** Digits with a point put between them. */
  ghost function Pointed(x: string, point: char, y: string): string {
    x + [point] + y
  }

  /** The significand part of the text of a nonzero deci, with its point. */
  ghost function MantissaText(d: string, exp: int, point: char): string
    requires |d| > 0
  {
    var e := |d| + exp;
    if exp >= 0 then d
    else if e > 0 then Pointed(d[..e], point, d[e..])
    else if e >= -6 then Pointed("0", point, Zeros(-e) + d)
    else if |d| > 1 then Pointed(d[..1], point, d[1..])
    else d
  }

  /** The exponent part of the text of a nonzero deci with |d| digits. */
  ghost function ExponentPart(j: nat, exp: int): string {
    if exp > 0 then "e" + IntText(exp)
    else if j + exp < -6 then "e" + IntText(j + exp - 1)
    else ""
  }

  ghost function Prefix(sign: bool, symbol: char): string {
    (if sign then "-" else "") + (if symbol != '\0' then [symbol] else "")
  }

  /** The text of a deci: sign, symbol, and one of five layouts of its digits. */
  ghost function Rendering(a: Deci, symbol: char, point: char): string {
    Prefix(a.s, symbol) +
    if a.Sig() == 0 then "0"
    else MantissaText(Decimal(a.Sig()), a.e, point) + ExponentPart(|Decimal(a.Sig())|, a.e)
  }

  /** `INT_TO_STR`, as the text of an integer. */
  method IntToStr(n: int) returns (t: string)
    requires -0x1_0000_0000 < n < 0x1_0000_0000
    ensures t == IntText(n)
  {
    var m: Limb := if n < 0 then 0 - n else n;
    ValOne(m);
    assert [m][..1] == [m];
    t := MToString(1, [m]);
    if n < 0 {
      t := "-" + t;
    }
  }

  /** `memset (s, '0', n)` */
  method ZeroRun(n: nat) returns (t: string)
    ensures t == Zeros(n)
  {
    t := "";
    for i := 0 to n
      invariant t == Zeros(i)
    {
      t := t + ['0'];
    }
  }

  /** The five layouts of a digit string. */
  method Layout(digits: string, exp: int, point: char) returns (t: string)
    requires |digits| > 0 && -128 <= exp <= 127 && |digits| < 0x1000_0000
    ensures t == MantissaText(digits, exp, point) + ExponentPart(|digits|, exp)
  {
    hide IntText, Zeros;
    var j := |digits|;
    var e := j + exp;
    t := digits;
    if e < j {
      if e <= 0 {
        if e < -6 {
          if j > 1 {
            t := t[..1] + [point] + t[1..];
          }
          var n := IntToStr(e - 1);
          t := t + ("e" + n);
        } else {
          var zeros := ZeroRun(-e);
          t := "0" + [point] + (zeros + t);
        }
      } else {
        t := t[..e] + [point] + t[e..];
      }
    } else if e == j {
      // the digits stand as they are
    } else {
      var n := IntToStr(e - j);
      t := t + ("e" + n);
    }
  }

  // ---- The text is the one a deci has ----

  lemma {:induction false} DecimalHead(v: nat)
    ensures Decimal(v)[0] == '0' ==> v == 0
  {
    if v >= 10 {
      DecimalHead(v / 10);
    }
  }

  lemma {:induction false} DecimalNumeral(v: nat)
    ensures IsNumeral(Decimal(v), v) && (Decimal(v)[0] == '0' ==> v == 0)
  {
    DecimalNumber(v);
    DecimalHead(v);
  }

  lemma {:induction false} IntTextInteger(n: int)
    ensures IsInteger(IntText(n), n)
  {
    DecimalNumeral(if n < 0 then -n else n);
    hide Decimal, IsNumeral;
    if n < 0 {
      assert ("-" + Decimal(-n))[1..] == Decimal(-n);
    }
  }

  lemma {:induction false} ExponentPartWritten(j: nat, exp: int)
    ensures IsExponent(ExponentPart(j, exp), j, exp)
  {
    hide IsInteger, IntText;
    var n := if exp > 0 then exp else j + exp - 1;
    IntTextInteger(n);
    assert ("e" + IntText(n))[1..] == IntText(n);
  }

  lemma {:induction false} ZeroRunText(n: nat)
    ensures Zeros(n) == ZeroText(n)
  {
  }

  lemma {:induction false} PointAt(x: string, point: char, y: string)
    ensures var m := Pointed(x, point, y); |x| < |m| && m[|x|] == point && m[..|x|] + m[|x| + 1..] == x + y
  {
  }

  lemma ZeroFirst(n: nat)
    ensures "0" + ZeroText(n) == ZeroText(n + 1)
  {
  }

  lemma {:induction false} Rejoined(d: string, e: nat)
    requires e <= |d|
    ensures ZeroText(0) + d == d[..e] + d[e..] && |d[..e]| == e
  {
  }

  lemma {:induction false} InsideWritten(d: string, exp: int, point: char)
    requires exp < 0 < |d| + exp
    ensures IsMantissa(MantissaText(d, exp, point), d, exp, point)
  {
    hide Pointed, ZeroText;
    var e := |d| + exp;
    PointAt(d[..e], point, d[e..]);
    Rejoined(d, e);
  }

  lemma {:induction false} ZerosWritten(d: string, exp: int, point: char)
    requires |d| > 0 && -6 <= |d| + exp <= 0
    ensures IsMantissa(MantissaText(d, exp, point), d, exp, point)
  {
    hide Pointed, Zeros, ZeroText;
    var n := -(|d| + exp);
    PointAt("0", point, Zeros(n) + d);
    ZeroRunText(n);
    ZeroFirst(n);
    assert "0" + (ZeroText(n) + d) == ("0" + ZeroText(n)) + d;
  }

  lemma {:induction false} ScientificWritten(d: string, exp: int, point: char)
    requires |d| > 0 && |d| + exp < -6
    ensures IsMantissa(MantissaText(d, exp, point), d, exp, point)
  {
    hide Pointed, ZeroText;
    if |d| > 1 {
      PointAt(d[..1], point, d[1..]);
      Rejoined(d, 1);
    }
  }

  /** The layout puts the point and the zeros where they belong. */
  lemma {:induction false} MantissaTextWritten(d: string, exp: int, point: char)
    requires |d| > 0
    ensures IsMantissa(MantissaText(d, exp, point), d, exp, point)
  {
    if exp < 0 {
      hide IsMantissa, MantissaText;
      if |d| + exp > 0 {
        InsideWritten(d, exp, point);
      } else if |d| + exp >= -6 {
        ZerosWritten(d, exp, point);
      } else {
        ScientificWritten(d, exp, point);
      }
    }
  }

  /** What is written is the one text the deci has. */
  lemma {:induction false} RenderingWritten(a: Deci, symbol: char, point: char)
    ensures Written(Rendering(a, symbol, point), a, symbol, point)
  {
    hide Decimal, IsNumeral, IsMantissa, IsExponent, MantissaText, ExponentPart, Deci.Sig;
    var d := Decimal(a.Sig());
    DecimalNumeral(a.Sig());
    var m := if a.Sig() == 0 then "0" else MantissaText(d, a.e, point);
    var x := if a.Sig() == 0 then "" else ExponentPart(|d|, a.e);
    MantissaTextWritten(d, a.e, point);
    ExponentPartWritten(|d|, a.e);
    var t := Rendering(a, symbol, point);
    assert t == Prefix(a.s, symbol) + m + x;
    assert IsLayout(t, a.s, symbol, a.Sig(), a.e, point, d, m, x);
  }

  /** `deci_to_string`.  The buffer moves of the source insert text at the position `s`. */
  method DeciToString(a: Deci, symbol: char, point: char) returns (t: string)
    requires a.Valid()
    ensures t == Rendering(a, symbol, point) && Written(t, a, symbol, point)
  {
    hide Val, Pow10, Decimal, Written;
    RenderingWritten(a, symbol, point);
    t := "";
    if a.s {
      t := t + "-";
    }
    if symbol != '\0' {
      t := t + [symbol];
    }
    assert [a.m0, a.m1, a.m2][..3] == [a.m0, a.m1, a.m2];
    var zero := MIsZero(3, [a.m0, a.m1, a.m2]);
    if zero {
      return t + "0";
    }
    DecimalLength(a.Sig(), 26);
    var digits := MToString(3, [a.m0, a.m1, a.m2]);
    var layout := Layout(digits, a.e, point);
    t := t + layout;
  }

  // ---- The round trip ----

  lemma {:induction false} DigitsOnly(t: string)
    requires AllDigits(t)
    ensures PointCount(t) == 0 && FractionDigits(t) == 0
  {
    if |t| > 0 {
      DigitsOnly(t[..|t| - 1]);
    }
  }

  lemma {:induction false} AllCounted(t: string)
    requires AllDigits(t)
    ensures Ticked(t) && DigitCount(t) == |t|
  {
    if |t| > 0 {
      AllCounted(t[..|t| - 1]);
    }
  }

  /** Leading zeros do not change the number. */
  lemma {:induction false} LeadingZeros(x: string, y: string)
    requires DigitsNumber(x) == 0
    ensures DigitsNumber(x + y) == DigitsNumber(y)
  {
    if |y| == 0 {
      assert x + y == x;
    } else {
      LeadingZeros(x, y[..|y| - 1]);
      assert x + y == (x + y[..|y| - 1]) + [y[|y| - 1]];
      DropLast(x + y[..|y| - 1], y[|y| - 1]);
    }
  }

  lemma {:induction false} ZerosNumber(n: nat)
    ensures AllDigits(Zeros(n)) && DigitsNumber(Zeros(n)) == 0
  {
    if n > 0 {
      ZerosNumber(n - 1);
      DropLast(Zeros(n - 1), '0');
    }
  }

  /** m is a mantissa text that reads as the number num with `frac` digits after its point. */
  ghost predicate ReadsAs(m: string, num: nat, frac: nat) {
    && |m| > 0 && IsDigit(m[0]) && (forall k :: 0 <= k < |m| ==> IsMantissaChar(m[k]))
    && PointCount(m) <= 1 && DigitsNumber(m) == num && FractionDigits(m) == frac
  }

  lemma {:induction false} PointedChars(x: string, point: char, y: string, m: string)
    requires |x| > 0 && AllDigits(x) && AllDigits(y) && IsPoint(point) && m == x + [point] + y
    ensures |m| > 0 && IsDigit(m[0]) && forall k :: 0 <= k < |m| ==> IsMantissaChar(m[k])
  {
    forall k | 0 <= k < |m|
      ensures IsMantissaChar(m[k])
    {
      assert m[k] == if k < |x| then x[k] else if k == |x| then point else y[k - |x| - 1];
    }
  }

  lemma {:induction false} PointedReads(x: string, point: char, y: string)
    requires |x| > 0 && AllDigits(x) && AllDigits(y) && IsPoint(point)
    ensures ReadsAs(Pointed(x, point, y), DigitsNumber(x + y), |y|)
  {
    AllCounted(x);
    AllCounted(y);
    PointInside(x, point, y);
    PointedChars(x, point, y, Pointed(x, point, y));
    hide DigitsNumber, FractionDigits, PointCount, Pointed, IsDigit, IsPoint;
  }

  lemma {:induction false} PlainReads(d: string)
    requires |d| > 0 && AllDigits(d)
    ensures ReadsAs(d, DigitsNumber(d), 0)
  {
    DigitsOnly(d);
  }

  /** Zeros before and after the point do not count. */
  lemma {:induction false} ZerosRead(x: string, point: char, z: string, d: string)
    requires |x| > 0 && AllDigits(x) && AllDigits(z) && AllDigits(d) && IsPoint(point)
    requires DigitsNumber(x) == 0 && DigitsNumber(z) == 0
    ensures ReadsAs(Pointed(x, point, z + d), DigitsNumber(d), |z| + |d|)
  {
    hide DigitsNumber, ReadsAs, Pointed;
    PointedReads(x, point, z + d);
    assert x + (z + d) == (x + z) + d;
    LeadingZeros(x, z);
    LeadingZeros(x + z, d);
  }

  lemma {:induction false} OneZero(x: string)
    requires x == "0"
    ensures AllDigits(x) && DigitsNumber(x) == 0
  {
    assert x[..0] == "";
  }

  ghost function FractionOf(j: nat, exp: int): nat
    requires j > 0
  {
    if exp >= 0 then 0 else if j + exp < -6 then j - 1 else -exp
  }

  lemma {:induction false} PointLayoutReads(d: string, exp: int, point: char)
    requires |d| > 0 && AllDigits(d) && IsPoint(point) && exp < 0 < |d| + exp
    ensures ReadsAs(MantissaText(d, exp, point), DigitsNumber(d), -exp)
  {
    hide DigitsNumber, ReadsAs, Pointed;
    var e := |d| + exp;
    PointedReads(d[..e], point, d[e..]);
    assert d[..e] + d[e..] == d;
  }

  lemma {:induction false} ZerosLayoutReads(d: string, exp: int, point: char)
    requires |d| > 0 && AllDigits(d) && IsPoint(point) && -6 <= |d| + exp <= 0
    ensures ReadsAs(MantissaText(d, exp, point), DigitsNumber(d), -exp)
  {
    var z := Zeros(-(|d| + exp));
    OneZero("0");
    ZerosNumber(-(|d| + exp));
    hide DigitsNumber, ReadsAs, Zeros, Pointed;
    ZerosRead("0", point, z, d);
  }

  lemma {:induction false} ScientificLayoutReads(d: string, exp: int, point: char)
    requires |d| > 0 && AllDigits(d) && IsPoint(point) && |d| + exp < -6
    ensures ReadsAs(MantissaText(d, exp, point), DigitsNumber(d), |d| - 1)
  {
    hide DigitsNumber, ReadsAs, Pointed;
    if |d| > 1 {
      PointedReads(d[..1], point, d[1..]);
      assert d[..1] + d[1..] == d;
    } else {
      PlainReads(d);
    }
  }

  /** Every layout reads as the digits, with the exponent split between the point and the exponent part. */
  lemma {:induction false} MantissaReads(d: string, exp: int, point: char)
    requires |d| > 0 && AllDigits(d) && IsPoint(point)
    ensures ReadsAs(MantissaText(d, exp, point), DigitsNumber(d), FractionOf(|d|, exp))
  {
    if exp >= 0 {
      PlainReads(d);
    } else {
      hide ReadsAs, DigitsNumber, MantissaText;
      if |d| + exp > 0 {
        PointLayoutReads(d, exp, point);
      } else if |d| + exp >= -6 {
        ZerosLayoutReads(d, exp, point);
      } else {
        ScientificLayoutReads(d, exp, point);
      }
    }
  }

  lemma {:induction false} CharsOf(t: string, p: string, m: string, x: string)
    requires t == p + (m + x) && |m| > 0
    ensures |t| == |p| + |m| + |x| && t[|p|..|p| + |m|] == m && t[|p|] == m[0]
    ensures forall k :: 0 <= k < |p| ==> t[k] == p[k]
    ensures forall k :: |p| <= k < |p| + |m| ==> t[k] == m[k - |p|]
    ensures x != "" ==> t[|p| + |m|] == x[0]
  {
  }

  /** A text made of prefix, mantissa and exponent part is taken apart where it was put together. */
  lemma {:induction false} TextSplits(t: string, sign: bool, symbol: char, m: string, x: string)
    requires symbol == '\0' || symbol == '$'
    requires t == Prefix(sign, symbol) + (m + x)
    requires |m| > 0 && IsDigit(m[0]) && forall k :: 0 <= k < |m| ==> IsMantissaChar(m[k])
    requires x == "" || x[0] == 'e'
    ensures LiteralStart(t) == |Prefix(sign, symbol)| && (At(t, 0) == '-' <==> sign)
    ensures MantissaEnd(t, LiteralStart(t)) == LiteralStart(t) + |m| && LiteralMantissa(t) == m
  {
    var p := |Prefix(sign, symbol)|;
    CharsOf(t, Prefix(sign, symbol), m, x);
    MantissaReaches(t, p, p + |m|);
  }

  ghost predicate ExponentIs(t: string, q: nat, n: int)
    requires q <= |t|
  {
    && LiteralEnd(t, q) == |t|
    && ExponentSign(t, q) * Clamped(DigitsNumber(ExponentText(t, q))) == n
    && !(ExponentSign(t, q) == 1 && DigitsNumber(ExponentText(t, q)) > MAX_EXPONENT)
  }

  /** Where a suffix of digits starts at p, the digit run ends with the text. */
  lemma {:induction false} DigitSuffix(t: string, p: nat, d: string)
    requires p <= |t| && t[p..] == d && AllDigits(d)
    ensures DigitsEnd(t, p) == |t| && t[p..DigitsEnd(t, p)] == d
  {
    assert t[p..|t|] == d;
    DigitsSpan(t, p, d);
  }

  lemma {:induction false} NegativeExponentReads(t: string, q: nat, n: nat)
    requires q <= |t| && t[q..] == "e" + ("-" + Decimal(n)) && 0 < n <= 1000
    ensures ExponentIs(t, q, 0 - n)
  {
    var x := "e" + ("-" + Decimal(n));
    assert t[q] == x[0] && t[q + 1] == x[1];
    assert t[q + 2..] == x[2..] == Decimal(n);
    DecimalNumber(n);
    hide Decimal, DigitsNumber;
    DigitSuffix(t, q + 2, Decimal(n));
  }

  lemma {:induction false} PositiveExponentReads(t: string, q: nat, n: nat)
    requires q <= |t| && t[q..] == "e" + Decimal(n) && 0 < n <= 1000
    ensures ExponentIs(t, q, n)
  {
    var x := "e" + Decimal(n);
    assert t[q] == x[0] && t[q + 1] == x[1] == Decimal(n)[0];
    assert t[q + 1..] == x[1..] == Decimal(n);
    DecimalNumber(n);
    hide Decimal, DigitsNumber;
    DigitSuffix(t, q + 1, Decimal(n));
  }

  lemma {:induction false} NoExponentReads(t: string, q: nat)
    requires q == |t|
    ensures ExponentIs(t, q, 0)
  {
  }

  /** The exponent part reads back as the exponent. */
  lemma {:induction false} ExponentReads(t: string, q: nat, x: string, n: int)
    requires q <= |t| && t[q..] == x
    requires x == if n == 0 then "" else "e" + IntText(n)
    requires -1000 <= n <= 1000
    ensures ExponentIs(t, q, n)
  {
    hide ExponentIs, Decimal;
    if n < 0 {
      NegativeExponentReads(t, q, -n);
    } else if n > 0 {
      PositiveExponentReads(t, q, n);
    } else {
      NoExponentReads(t, q);
    }
  }

  /** t is one whole literal: its number, its exponent and its sign. */
  ghost predicate IsLiteral(t: string, num: nat, exp: int, sign: bool) {
    && LiteralStart(t) <= |t| && PointCount(LiteralMantissa(t)) <= 1 && !ExponentTooLarge(t)
    && LiteralNumber(t) == num && LiteralExponent(t) == exp && (At(t, 0) == '-' <==> sign)
    && LiteralEnd(t, MantissaEnd(t, LiteralStart(t))) == |t|
  }

  lemma {:induction false} SuffixIs(t: string, p: string, m: string, x: string)
    requires t == p + (m + x)
    ensures |p| + |m| <= |t| && t[|p| + |m|..] == x
  {
  }

  /** A mantissa and an exponent part that read well make a literal. */
  lemma {:induction false} PartsRead(t: string, sign: bool, symbol: char, m: string, x: string, num: nat, frac: nat,
      n: int)
    requires (symbol == '\0' || symbol == '$') && t == Prefix(sign, symbol) + (m + x)
    requires ReadsAs(m, num, frac)
    requires x == (if n == 0 then "" else "e" + IntText(n)) && -1000 <= n <= 1000
    ensures IsLiteral(t, num, n - frac, sign)
  {
    hide DigitsNumber, FractionDigits, PointCount, IntText, MantissaEnd;
    TextSplits(t, sign, symbol, m, x);
    var q := MantissaEnd(t, LiteralStart(t));
    SuffixIs(t, Prefix(sign, symbol), m, x);
    ExponentReads(t, q, x, n);
  }

  ghost function PrintedExponent(j: nat, exp: int): int {
    if exp > 0 then exp else if j + exp < -6 then j + exp - 1 else 0
  }

  /** The text of a nonzero deci is a literal with exactly its significand, exponent and sign. */
  lemma RenderingReads(a: Deci, symbol: char, point: char)
    requires a.Valid() && a.Sig() > 0 && (symbol == '\0' || symbol == '$') && IsPoint(point)
    ensures IsLiteral(Rendering(a, symbol, point), a.Sig(), a.e, a.s)
  {
    hide Decimal, DigitsNumber, ReadsAs, IsLiteral, MantissaText, IntText, Pow10, Deci.Sig, Prefix;
    var d := Decimal(a.Sig());
    DecimalNumber(a.Sig());
    DecimalLength(a.Sig(), 26);
    MantissaReads(d, a.e, point);
    PartsRead(Rendering(a, symbol, point), a.s, symbol, MantissaText(d, a.e, point), ExponentPart(|d|, a.e),
      a.Sig(), FractionOf(|d|, a.e), PrintedExponent(|d|, a.e));
  }

  lemma ZeroReads(a: Deci, symbol: char, point: char)
    requires a.Sig() == 0 && (symbol == '\0' || symbol == '$')
    ensures IsLiteral(Rendering(a, symbol, point), 0, 0, a.s)
  {
    OneZero("0");
    PlainReads("0");
    hide DigitsNumber, ReadsAs, IsLiteral, Prefix;
    assert "0" + "" == "0";
    PartsRead(Rendering(a, symbol, point), a.s, symbol, "0", "", 0, 0, 0);
  }

  /** `deci_is_same` */
  predicate DeciIsSame(a: Deci, b: Deci) {
    if a.m0 == 0 && a.m1 == 0 && a.m2 == 0 then b.m0 == 0 && b.m1 == 0 && b.m2 == 0
    else a.m0 == b.m0 && a.m1 == b.m1 && a.m2 == b.m2 && a.s == b.s && a.e == b.e
  }

  lemma SigZero(a: Deci)
    ensures a.Sig() == 0 <==> a.m0 == 0 && a.m1 == 0 && a.m2 == 0
  {
    ValThree([a.m0, a.m1, a.m2]);
  }

  lemma ZeroRounds(exp: int, m: nat, e: int)
    requires RoundsTo(0, exp, m, e)
    ensures m == 0
  {
    RoundedUnique(0, Pow10(e - exp), m, 0);
  }

  lemma ExactlyItself(v: nat, e: int)
    requires v < Pow10(26) && e >= -128
    ensures RoundsTo(v, e, v, e)
  {
    assert Pow10(0) == 1;
  }

  /** An exact deci value is delivered as itself. */
  lemma DeliveredSame(a: Deci, sign: bool, exp: int, r: Outcome)
    requires a.Valid() && Delivered(a.Sig(), exp, sign, r)
    requires a.Sig() > 0 ==> exp == a.e && sign == a.s
    ensures r.Ok? && DeciIsSame(a, r.d)
  {
    var m: nat, e: int :| RoundsTo(a.Sig(), exp, m, e) && Delivers(m, e, sign, r);
    SigZero(a);
    if a.Sig() == 0 {
      ZeroRounds(exp, m, e);
      SigZero(r.d);
    } else {
      ExactlyItself(a.Sig(), a.e);
      RoundsToUnique(a.Sig(), a.e, m, e, a.Sig(), a.e);
      ValInjective([a.m0, a.m1, a.m2], [r.d.m0, r.d.m1, r.d.m2]);
      assert [a.m0, a.m1, a.m2][0] == [r.d.m0, r.d.m1, r.d.m2][0] &&
        [a.m0, a.m1, a.m2][1] == [r.d.m0, r.d.m1, r.d.m2][1]
        && [a.m0, a.m1, a.m2][2] == [r.d.m0, r.d.m1, r.d.m2][2];
    }
  }

  /** `string_to_deci` after `deci_to_string`: the whole rendering is consumed and the same deci comes back. */
  method RoundTrip(a: Deci, symbol: char, point: char) returns (r: Outcome, end: nat, text: string)
    requires a.Valid() && (symbol == '\0' || symbol == '$') && IsPoint(point)
    ensures text == Rendering(a, symbol, point)
    ensures end == |text| && r.Ok? && DeciIsSame(a, r.d)
  {
    hide Delivered, Rendering, Deci.Sig, LiteralNumber, LiteralExponent, LiteralMantissa, PointCount;
    text := DeciToString(a, symbol, point);
    if a.Sig() == 0 {
      ZeroReads(a, symbol, point);
    } else {
      RenderingReads(a, symbol, point);
    }
    r, end := StringToDeci(text);
    DeliveredSame(a, At(text, 0) == '-', LiteralExponent(text), r);
  }
}

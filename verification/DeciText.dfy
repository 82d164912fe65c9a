/** Reading decis from text (f-deci.c, `string_to_deci`).

The text is a NUL-terminated byte string in the source; here it is a string, and reading past its
end gives the NUL.  `Literal...` functions follow the scanner by positions; `DeciNotation` says what a text
means by its parts, and `StringToDeci` is proved to give that.
*/
module DeciText {
  import opened Arithmetic
  import opened Limbs
  import opened Rounding
  import opened DeciShift
  import opened DeciSpec
  import opened DeciArith
  import opened DeciAdd
  import opened DeciNotation

  function At(s: string, i: nat): char {
    if i < |s| then s[i] else '\0'
  }

  // ---- What a literal means ----

  ghost predicate IsMantissaChar(c: char) {
    IsDigit(c) || IsPoint(c) || c == '\''
  }

  /** The end of the run of digits, points and ticks that starts at p. */
  ghost function MantissaEnd(s: string, p: nat): (q: nat)
    ensures p <= |s| ==> p <= q <= |s|
    decreases if p < |s| then |s| - p else 0
  {
    if p < |s| && IsMantissaChar(s[p]) then MantissaEnd(s, p + 1) else p
  }

  ghost function DigitsEnd(s: string, p: nat): (q: nat)
    ensures p <= |s| ==> p <= q <= |s|
    decreases if p < |s| then |s| - p else 0
  {
    if p < |s| && IsDigit(s[p]) then DigitsEnd(s, p + 1) else p
  }

  ghost function PointCount(t: string): nat {
    if |t| == 0 then 0 else PointCount(t[..|t| - 1]) + if IsPoint(t[|t| - 1]) then 1 else 0
  }

  /** How many digits follow the first point. */
  ghost function FractionDigits(t: string): nat {
    if |t| == 0 then 0
    else FractionDigits(t[..|t| - 1]) + if IsDigit(t[|t| - 1]) && PointCount(t[..|t| - 1]) > 0 then 1 else 0
  }

  // ---- Scanning the significand ----

  /** The state of the scanner after the mantissa text t: its number N, cut off k digits below sb. */
  ghost predicate Scanned(t: string, v: nat, f: int, fp: bool, dp: bool, tb: int, k: nat) {
    && PointCount(t) == (if dp then 1 else 0)
    && f == k - FractionDigits(t)
    && (fp <==> k > 0)
    && v < Pow10(26) && (fp ==> v >= Pow10(25))
    && Truncates(DigitsNumber(t), Pow10(k), v, tb)
  }

  lemma TenfoldEven(p: nat)
    ensures (10 * p) % 2 == 0
  {
  }

  lemma PowerEven(k: nat)
    ensures Pow10(k + 1) == 10 * Pow10(k) && (k == 0 ==> Pow10(k) == 1) &&
      (k > 0 ==> Pow10(k) % 2 == 0 && Pow10(k) >= 10)
  {
    if k > 0 {
      TenfoldEven(Pow10(k - 1));
    }
  }

  lemma {:induction false} ScannedStart(t: string, v: nat, f: int, tb: int, k: nat)
    requires |t| == 0 && v == 0 && f == 0 && tb == 0 && k == 0
    ensures Scanned(t, v, f, false, false, tb, k)
  {
    PowerEven(k);
    TruncatesExact(v);
  }

  lemma {:induction false} ScannedExact(t: string, v: nat, f: int, dp: bool, tb: int)
    requires Scanned(t, v, f, false, dp, tb, 0)
    ensures v == DigitsNumber(t) && tb == 0
  {
    assert Pow10(0) == 1;
    var r: nat :| IsTail(DigitsNumber(t), Pow10(0), v, tb, r);
  }

  lemma {:induction false} DropLast(t: string, c: char)
    ensures (t + [c])[..|t|] == t && |t + [c]| == |t| + 1
  {
  }

  /** A digit that still fits is appended to the significand. */
  lemma {:induction false} ScannedDigit(t: string, c: char, v: nat, f: int, fp: bool, dp: bool, tb: int, k: nat)
    requires IsDigit(c) && v < Pow10(25) && Scanned(t, v, f, fp, dp, tb, k)
    ensures k == 0 && !fp && 10 * v + DigitValue(c) < Pow10(26)
    ensures Scanned(t + [c], 10 * v + DigitValue(c), if dp then f - 1 else f, fp, dp, tb, k)
  {
    DropLast(t, c);
    ScannedExact(t, v, f, dp, tb);
    assert Pow10(26) == 10 * Pow10(25);
    TruncatesExact(10 * v + DigitValue(c));
    assert Pow10(0) == 1;
  }

  /** The flag update for a digit that no longer fits. */
  function NextFlag(fp: bool, tb: int, d: nat): int {
    if fp then (if tb == 0 && d != 0 then 1 else if tb == 2 && d != 0 then 3 else tb)
    else if d > 0 then (if d < 5 then 1 else if d == 5 then 2 else 3)
    else tb
  }

  lemma ExtraTail(n: nat, p: nat, v: nat, tb: int, r: nat, d: nat, fp: bool)
    requires IsTail(n, p, v, tb, r) && d <= 9 && p > 0
    requires if fp then p % 2 == 0 && p >= 10 else p == 1
    ensures IsTail(10 * n + d, 10 * p, v, NextFlag(fp, tb, d), 10 * r + d)
  {
    assert 10 * (p * v) == (10 * p) * v;
  }

  /** A digit that no longer fits refines the classification of what is cut off. */
  lemma {:induction false} ScannedExtra(t: string, c: char, v: nat, f: int, fp: bool, dp: bool, tb: int, k: nat)
    requires IsDigit(c) && v >= Pow10(25) && Scanned(t, v, f, fp, dp, tb, k)
    ensures Scanned(t + [c], v, if dp then f else f + 1, true, dp, NextFlag(fp, tb, DigitValue(c)), k + 1)
  {
    DropLast(t, c);
    var r: nat :| IsTail(DigitsNumber(t), Pow10(k), v, tb, r);
    PowerEven(k);
    hide Pow10;
    ExtraTail(DigitsNumber(t), Pow10(k), v, tb, r, DigitValue(c), fp);
    assert IsTail(DigitsNumber(t + [c]), Pow10(k + 1), v, NextFlag(fp, tb, DigitValue(c)), 10 * r + DigitValue(c));
  }

  lemma {:induction false} ScannedPoint(t: string, c: char, v: nat, f: int, fp: bool, tb: int, k: nat)
    requires IsPoint(c) && Scanned(t, v, f, fp, false, tb, k)
    ensures Scanned(t + [c], v, f, fp, true, tb, k)
  {
    DropLast(t, c);
  }

  lemma {:induction false} ScannedTick(t: string, v: nat, f: int, fp: bool, dp: bool, tb: int, k: nat)
    requires Scanned(t, v, f, fp, dp, tb, k)
    ensures Scanned(t + ['\''], v, f, fp, dp, tb, k)
  {
    DropLast(t, '\'');
  }

  lemma {:induction false} PointsPrefix(t: string, n: nat)
    requires n <= |t|
    ensures PointCount(t[..n]) <= PointCount(t)
  {
    if n < |t| {
      PointsPrefix(t[..|t| - 1], n);
      assert t[..|t| - 1][..n] == t[..n];
    } else {
      assert t[..n] == t;
    }
  }

  lemma {:induction false} MantissaReaches(s: string, p: nat, q: nat)
    requires p <= q <= |s|
    requires forall k :: p <= k < q ==> IsMantissaChar(s[k])
    ensures MantissaEnd(s, p) == MantissaEnd(s, q)
    decreases q - p
  {
    if p < q {
      MantissaReaches(s, p + 1, q);
    }
  }

  lemma {:induction false} AddLow(s: seq<Limb>, n: nat, d: nat)
    requires |s| == 4 && n == 3 && s[3] == 0 && Val(s) == Val(s[..3]) && Val(s) + d < PowB(3)
    ensures Val(s) + d < PowB(4)
  {
  }

  /** Appends a digit to a significand below 10^25: `m_multiply_1` by ten and `m_add_1`. */
  method AppendDigit(sb: array<Limb>, d: nat)
    requires sb.Length == 4 && sb[3] == 0 && Val(sb[..3]) < Pow10(25) && d <= 9
    modifies sb
    ensures sb[3] == 0 && Val(sb[..3]) == 10 * old(Val(sb[..3])) + d
  {
    PowersFit();
    assert Pow10(26) == 10 * Pow10(25);
    hide Val, PowB, Pow10;
    MMultiply1(3, sb, sb, 10);
    LowThree(sb[..4]);
    ghost var before := sb[..];
    assert before[..4] == before && before[..3] == sb[..3] && before[..4][..3] == before[..3];
    AddLow(before, 3, d);
    assert sb[0..] == sb[..];
    MAdd1(sb, 0, d);
    assert sb[0..] == sb[..];
    LowThree(sb[..]);
    assert sb[..][..3] == sb[..3];
  }

  /** `m_cmp (3, sb, P[25]) < 0` */
  method BelowTen25(sb: array<Limb>) returns (r: bool)
    requires sb.Length >= 3
    ensures r <==> Val(sb[..3]) < Pow10(25)
  {
    hide Val, Pow10, P;
    PowerRow(25);
    var c := MCmp(3, sb[..], P(25));
    assert sb[..][..3] == sb[..3] && P(25)[..3] == P(25);
    r := c < 0;
  }

  /** The branch of the significand loop that takes a digit. */
  method TakeDigit(ghost t: string, c: char, sb: array<Limb>, f: int, fp: bool, dp: bool, tb: int, ghost k: nat)
    returns (f': int, fp': bool, tb': int, ghost k': nat)
    requires IsDigit(c) && sb.Length == 4 && sb[3] == 0
    requires Scanned(t, Val(sb[..3]), f, fp, dp, tb, k)
    modifies sb
    ensures sb[3] == 0 && Scanned(t + [c], Val(sb[..3]), f', fp', dp, tb', k')
  {
    hide Val, Pow10, Scanned;
    f', fp', tb', k' := f, fp, tb, k;
    var d := DigitValue(c);
    var room := BelowTen25(sb);
    if room {
      ScannedDigit(t, c, Val(sb[..3]), f, fp, dp, tb, k);
      AppendDigit(sb, d);
      if dp {
        f' := f - 1;
      }
    } else {
      ScannedExtra(t, c, Val(sb[..3]), f, fp, dp, tb, k);
      if fp {
        if tb == 0 && d != 0 {
          tb' := 1;
        } else if tb == 2 && d != 0 {
          tb' := 3;
        }
      } else {
        fp' := true;
        if d > 0 {
          tb' := if d < 5 then 1 else if d == 5 then 2 else 3;
        }
      }
      k' := k + 1;
      if !dp {
        f' := f + 1;
      }
    }
  }

  lemma {:induction false} OnePoint(t: string, v: nat, f: int, fp: bool, dp: bool, tb: int, k: nat)
    requires Scanned(t, v, f, fp, dp, tb, k)
    ensures PointCount(t) <= 1
  {
  }

  lemma {:induction false} SecondPoint(s: string, p: nat, a: nat, v: nat, f: int, fp: bool, tb: int, k: nat)
    requires p <= a < |s| && IsPoint(s[a]) && a < MantissaEnd(s, p) <= |s|
    requires Scanned(s[p..a], v, f, fp, true, tb, k)
    ensures PointCount(s[p..MantissaEnd(s, p)]) >= 2
  {
    var t := s[p..MantissaEnd(s, p)];
    assert t[..a + 1 - p] == s[p..a] + [s[a]];
    DropLast(s[p..a], s[a]);
    PointsPrefix(t, a + 1 - p);
  }

  /** The significand loop of `string_to_deci` from position p; `ok` is false at a second point. */
  method ScanMantissa(s: string, p: nat, sb: array<Limb>)
    returns (a: nat, f: int, tb: int, ok: bool, ghost k: nat)
    requires p <= |s| && sb.Length == 4 && sb[3] == 0 && Val(sb[..3]) == 0
    modifies sb
    ensures sb[3] == 0
    ensures ok <==> PointCount(s[p..MantissaEnd(s, p)]) <= 1
    ensures ok ==> a == MantissaEnd(s, p)
    ensures ok ==> exists fp, dp :: Scanned(s[p..a], Val(sb[..3]), f, fp, dp, tb, k)
  {
    hide Val, PowB, Pow10, Scanned, PointCount;
    var fp, dp := false, false;
    a, f, tb, k := p, 0, 0, 0;
    ScannedStart(s[p..a], Val(sb[..3]), f, tb, k);
    while true
      invariant p <= a <= MantissaEnd(s, p) <= |s|
      invariant MantissaEnd(s, a) == MantissaEnd(s, p)
      invariant sb[3] == 0
      invariant Scanned(s[p..a], Val(sb[..3]), f, fp, dp, tb, k)
      decreases |s| - a
    {
      var c := At(s, a);
      if a < |s| {
        assert s[p..a + 1] == s[p..a] + [c];
      }
      if IsDigit(c) {
        f, fp, tb, k := TakeDigit(s[p..a], c, sb, f, fp, dp, tb, k);
      } else if IsPoint(c) {
        if dp {
          SecondPoint(s, p, a, Val(sb[..3]), f, fp, tb, k);
          return a, f, tb, false, k;
        }
        ScannedPoint(s[p..a], c, Val(sb[..3]), f, fp, tb, k);
        dp := true;
      } else if '\'' != c {
        break;
      } else {
        ScannedTick(s[p..a], Val(sb[..3]), f, fp, dp, tb, k);
      }
      a := a + 1;
    }
    OnePoint(s[p..a], Val(sb[..3]), f, fp, dp, tb, k);
    return a, f, tb, true, k;
  }

  // ---- Rounding the significand ----

  ghost predicate Mantissa(num: nat, v: nat, tb: int, k: nat) {
    Truncates(num, Pow10(k), v, tb) && v < Pow10(26) && (k > 0 ==> v >= Pow10(25))
  }

  /** What `Finish` needs of a scanned and rounded significand. */
  ghost predicate Ready(num: nat, exp: int, v: nat, e: int, t: int) {
    && v < Pow10(26) && e >= exp
    && (e >= -128 ==> RoundsTo(num, exp, v, e))
    && (e < -128 ==> Truncates(num, Pow10(e - exp), v, t) && (v == 0 ==> num == 0))
  }

  lemma LimitBelow(k: nat)
    requires k > 0
    ensures Limit(k - 1) <= Pow10(k) * Pow10(25)
  {
    Pow10Add(k, 25);
  }

  /** A number with more than 26 digits does not fit with fewer cut off. */
  lemma MantissaMinimal(num: nat, v: nat, tb: int, k: nat)
    requires k > 0 && Mantissa(num, v, tb, k)
    ensures !Fits(num, k - 1)
  {
    var r: nat :| IsTail(num, Pow10(k), v, tb, r);
    LimitBelow(k);
    hide Pow10, Limit;
    FitsIff(num, k - 1);
    MulMono(Pow10(k), Pow10(25), v);
  }

  /** Rounded where it stands. */
  lemma MantissaRounds(num: nat, exp: int, v: nat, tb: int, k: nat, m: nat)
    requires Mantissa(num, v, tb, k) && exp + k >= -128
    requires m == (if RoundsUp(v, tb) then v + 1 else v) && m < Pow10(26)
    ensures Ready(num, exp, m, exp + k, tb)
  {
    RoundByFlag(num, Pow10(k), v, tb);
    if k > 0 {
      MantissaMinimal(num, v, tb, k);
    }
  }

  /** The carry out of 26 nines: one more digit is cut off, and the rounding yields 10^25. */
  lemma MantissaCarries(num: nat, exp: int, v: nat, tb: int, k: nat, v': nat, tb': int, m: nat)
    requires Mantissa(num, v, tb, k) && exp + k >= -128
    requires v == Pow10(26) - 1 && RoundsUp(v, tb)
    requires Truncates(num, Scaled(Pow10(k), 1), v', tb')
    requires m == if RoundsUp(v', tb') then v' + 1 else v'
    ensures Ready(num, exp, m, exp + k + 1, tb')
  {
    ScaledPower(k, 1);
    RoundByFlag(num, Pow10(k), v, tb);
    FitsBelowLimit(num, k, v + 1);
    FitsIff(num, k);
    RoundByFlag(num, Pow10(k + 1), v', tb');
    ShiftedSmaller(num, Pow10(k), v, tb, 1, v', tb');
  }

  lemma MantissaSmall(num: nat, exp: int, v: nat, tb: int, k: nat)
    requires Mantissa(num, v, tb, k) && exp + k < -128
    ensures Ready(num, exp, v, exp + k, tb)
  {
    if v == 0 {
      assert Pow10(0) == 1;
    }
  }

  lemma MantissaBelow(num: nat, v: nat, tb: int, k: nat)
    requires Mantissa(num, v, tb, k)
    ensures v < Pow10(26)
  {
  }

  /** `m_cmp (3, sb, P26_1) < 0` */
  method BelowNines(sb: array<Limb>) returns (r: bool)
    requires sb.Length >= 3
    ensures r <==> Val(sb[..3]) < Pow10(26) - 1
  {
    LargestSignificand();
    hide Val, Pow10;
    var c := MCmp(3, sb[..], P26_1);
    assert sb[..][..3] == sb[..3] && P26_1[..3] == P26_1;
    r := c < 0;
  }

  lemma MantissaTruncates(num: nat, v: nat, tb: int, k: nat)
    requires Mantissa(num, v, tb, k)
    ensures Truncates(num, Pow10(k), v, tb)
  {
  }

  lemma ParityOfThree(a: array<Limb>)
    requires a.Length >= 3
    ensures Val(a[..3]) % 2 == a[0] % 2
  {
    ValParity(a[..3]);
  }

  /** The branch that rounds 26 nines up. */
  method CarryMantissa(sb: array<Limb>, e: int, tb: int, ghost num: nat, ghost exp: int, ghost k: nat)
    returns (e': int, t: int)
    requires sb.Length == 4 && sb[3] == 0 && e == exp + k && e >= -128
    requires Mantissa(num, Val(sb[..3]), tb, k) && Val(sb[..3]) == Pow10(26) - 1 && RoundsUp(Val(sb[..3]), tb)
    modifies sb
    ensures sb[3] == 0 && Ready(num, exp, Val(sb[..3]), e', t)
  {
    hide Val, PowB, Pow10, Mantissa, Ready, Truncates;
    ghost var v := Val(sb[..3]);
    MantissaTruncates(num, v, tb, k);
    ThreeLimbs();
    t := Dsr(3, sb, 1, tb, num, Pow10(k));
    e' := e + 1;
    ghost var w := Val(sb[..3]);
    ShiftedSmaller(num, Pow10(k), v, tb, 1, w, t);
    MantissaCarries(num, exp, v, tb, k, w, t, if RoundsUp(w, t) then w + 1 else w);
    ParityOfThree(sb);
    assert sb[3] == sb[3..][0];
    if t == 3 || (t == 2 && sb[0] % 2 == 1) {
      AddOne(sb, 3);
      assert sb[3] == sb[3..][0];
    }
  }

  /** The rounding step of `string_to_deci`. */
  method RoundMantissa(sb: array<Limb>, e: int, tb: int, ghost num: nat, ghost exp: int, ghost k: nat)
    returns (e': int, t: int)
    requires sb.Length == 4 && sb[3] == 0 && e == exp + k
    requires Mantissa(num, Val(sb[..3]), tb, k)
    modifies sb
    ensures sb[3] == 0 && Ready(num, exp, Val(sb[..3]), e', t)
  {
    hide Val, PowB, Pow10, Mantissa, Ready, Truncates;
    ghost var v := Val(sb[..3]);
    MantissaBelow(num, v, tb, k);
    ThreeLimbs();
    ValParity(sb[..3]);
    e', t := e, tb;
    if e < -128 {
      MantissaSmall(num, exp, v, tb, k);
      return;
    }
    if tb == 3 || (tb == 2 && sb[0] % 2 == 1) {
      var room := BelowNines(sb);
      if room {
        MantissaRounds(num, exp, v, tb, k, v + 1);
        AddOne(sb, 3);
        assert sb[3] == sb[3..][0];
      } else {
        e', t := CarryMantissa(sb, e, tb, num, exp, k);
      }
    } else {
      MantissaRounds(num, exp, v, tb, k, v);
    }
  }

  // ---- The whole literal ----

  ghost function SignEnd(s: string, p: nat): nat {
    if At(s, p) == '+' || At(s, p) == '-' then p + 1 else p
  }

  /** Where the significand starts: after an optional sign and an optional `$`. */
  ghost function LiteralStart(s: string): nat {
    var p := SignEnd(s, 0);
    if At(s, p) == '$' then p + 1 else p
  }

  ghost function LiteralMantissa(s: string): string
    requires LiteralStart(s) <= |s|
  {
    s[LiteralStart(s)..MantissaEnd(s, LiteralStart(s))]
  }

  ghost predicate HasExponent(s: string, q: nat) {
    At(s, q) == 'e' || At(s, q) == 'E'
  }

  ghost function ExponentText(s: string, q: nat): string
    requires q <= |s|
  {
    if HasExponent(s, q) && SignEnd(s, q + 1) <= |s| then s[SignEnd(s, q + 1)..DigitsEnd(s, SignEnd(s, q + 1))] else ""
  }

  ghost function ExponentSign(s: string, q: nat): int {
    if HasExponent(s, q) && At(s, q + 1) == '-' then -1 else 1
  }

  ghost function LiteralEnd(s: string, q: nat): nat {
    if HasExponent(s, q) then DigitsEnd(s, SignEnd(s, q + 1)) else q
  }

  ghost function Clamped(n: nat): nat {
    if n > MAX_EXPONENT then MAX_EXPONENT else n
  }

  lemma {:induction false} PrefixOfSlice(s: string, p: nat, q: nat)
    requires p < q <= |s|
    ensures |s[p..q]| == q - p && s[p..q][..q - 1 - p] == s[p..q - 1]
  {
  }

  lemma {:induction false} NumberGrows(s: string, p: nat, a: nat, q: nat)
    requires p <= a <= q <= |s|
    ensures DigitsNumber(s[p..a]) <= DigitsNumber(s[p..q])
  {
    if a < q {
      NumberGrows(s, p, a, q - 1);
      PrefixOfSlice(s, p, q);
    }
  }

  lemma NoDigits(s: string, p: nat)
    requires p <= |s|
    ensures DigitsNumber(s[p..p]) == 0
  {
  }

  lemma {:induction false} OneMoreDigit(s: string, p: nat, a: nat)
    requires p <= a < |s| && IsDigit(s[a])
    ensures DigitsNumber(s[p..a + 1]) == 10 * DigitsNumber(s[p..a]) + DigitValue(s[a])
  {
    assert s[p..a + 1] == s[p..a] + [s[a]];
    DropLast(s[p..a], s[a]);
  }

  /** The exponent loop: digits are read to the end, and the magnitude is capped or overflows. */
  method ScanDigits(s: string, p: nat, es: int) returns (a: nat, e: nat, overflow: bool)
    requires p <= |s| && (es == 1 || es == -1)
    ensures overflow <==> es == 1 && DigitsNumber(s[p..DigitsEnd(s, p)]) > MAX_EXPONENT
    ensures !overflow ==> a == DigitsEnd(s, p) && e == Clamped(DigitsNumber(s[p..a]))
  {
    hide DigitsNumber;
    a, e := p, 0;
    NoDigits(s, p);
    while true
      invariant p <= a <= DigitsEnd(s, p) == DigitsEnd(s, a) <= |s|
      invariant forall i :: p <= i < a ==> IsDigit(s[i])
      invariant e == Clamped(DigitsNumber(s[p..a])) && e <= MAX_EXPONENT
      invariant es == 1 ==> DigitsNumber(s[p..a]) <= MAX_EXPONENT
      decreases |s| - a
    {
      var c := At(s, a);
      if IsDigit(c) {
        OneMoreDigit(s, p, a);
        var d := DigitValue(c);
        e := e * 10 + d;
        if e > MAX_EXPONENT {
          if es == 1 {
            NumberGrows(s, p, a + 1, DigitsEnd(s, p));
            return a, e, true;
          } else {
            e := MAX_EXPONENT;
          }
        }
      } else {
        return a, e, false;
      }
      a := a + 1;
    }
  }

  /** The exponent part of `string_to_deci`, signed. */
  method ScanExponent(s: string, q: nat) returns (a: nat, e: int, overflow: bool)
    requires q <= |s|
    ensures overflow <==> ExponentSign(s, q) == 1 && DigitsNumber(ExponentText(s, q)) > MAX_EXPONENT
    ensures !overflow ==>
      a == LiteralEnd(s, q) && a <= |s| && e == ExponentSign(s, q) * Clamped(DigitsNumber(ExponentText(s, q)))
  {
    a, e, overflow := q, 0, false;
    if At(s, a) == 'e' || At(s, a) == 'E' {
      a := a + 1;
      var es := 1;
      if At(s, a) == '+' {
        a := a + 1;
      } else if At(s, a) == '-' {
        a := a + 1;
        es := -1;
      }
      a, e, overflow := ScanDigits(s, a, es);
      e := e * es;
    }
  }

  /** The value of a literal: its digits as a number, and the decimal exponent of its last digit. */
  ghost function LiteralNumber(s: string): nat
    requires LiteralStart(s) <= |s|
  {
    DigitsNumber(LiteralMantissa(s))
  }

  ghost function LiteralExponent(s: string): int
    requires LiteralStart(s) <= |s|
  {
    var q := MantissaEnd(s, LiteralStart(s));
    ExponentSign(s, q) * Clamped(DigitsNumber(ExponentText(s, q))) - FractionDigits(LiteralMantissa(s))
  }

  /** An explicit positive exponent beyond the cap, which the source rejects whatever the digits are. */
  ghost predicate ExponentTooLarge(s: string)
    requires LiteralStart(s) <= |s|
  {
    var q := MantissaEnd(s, LiteralStart(s));
    ExponentSign(s, q) == 1 && DigitsNumber(ExponentText(s, q)) > MAX_EXPONENT
  }

  /** The optional sign and `$`. */
  method ScanSign(s: string) returns (a: nat, sign: bool)
    ensures a == LiteralStart(s) <= |s| && (sign <==> At(s, 0) == '-')
  {
    a, sign := 0, false;
    if '+' == At(s, a) {
      a := a + 1;
    } else if '-' == At(s, a) {
      sign := true;
      a := a + 1;
    }
    if '$' == At(s, a) {
      a := a + 1;
    }
  }

  lemma {:induction false} ScannedMantissa(t: string, v: nat, f: int, tb: int, k: nat)
    requires exists fp, dp :: Scanned(t, v, f, fp, dp, tb, k)
    ensures Mantissa(DigitsNumber(t), v, tb, k) && f == k - FractionDigits(t)
  {
  }

  method DeliverLiteral(sb: array<Limb>, e: int, tb: int, sign: bool, ghost num: nat, ghost exp: int, ghost k: nat)
    returns (r: Outcome)
    requires sb.Length == 4 && sb[3] == 0 && e == exp + k && Mantissa(num, Val(sb[..3]), tb, k)
    modifies sb
    ensures Delivered(num, exp, sign, r)
  {
    hide Val, Pow10, Delivered, Mantissa, RoundsTo, Truncates;
    var e', t := RoundMantissa(sb, e, tb, num, exp, k);
    r := Finish(sb, e', t, sign, num, exp);
  }

  lemma {:induction false} ZeroThree(s: seq<Limb>)
    requires |s| == 4 && forall i :: 0 <= i < 4 ==> s[i] == 0
    ensures Val(s[..3]) == 0
  {
    ValZero(s[..3]);
  }

  /** Everything after the significand: exponent and rounding. */
  method ReadExponent(s: string, a: nat, sb: array<Limb>, f: int, tb: int, sign: bool, ghost k: nat)
    returns (r: Outcome, end: nat)
    requires LiteralStart(s) <= |s| && a == MantissaEnd(s, LiteralStart(s)) <= |s| && sb.Length == 4 && sb[3] == 0
    requires Mantissa(LiteralNumber(s), Val(sb[..3]), tb, k) && f == k - FractionDigits(LiteralMantissa(s))
    modifies sb
    ensures ExponentTooLarge(s) ==> r == Overflow
    ensures !ExponentTooLarge(s) ==>
      end == LiteralEnd(s, MantissaEnd(s, LiteralStart(s))) && Delivered(LiteralNumber(s), LiteralExponent(s), sign, r)
  {
    hide Val, Pow10, Delivered, Mantissa, DigitsNumber, FractionDigits, MantissaEnd, Clamped, LiteralStart,
      LiteralMantissa, LiteralNumber;
    hide ExponentSign, ExponentText, LiteralEnd;
    var e, overflow;
    end, e, overflow := ScanExponent(s, a);
    if overflow {
      return Overflow, end;
    }
    r := DeliverLiteral(sb, e + f, tb, sign, LiteralNumber(s), e - FractionDigits(LiteralMantissa(s)), k);
  }

  /** Everything after the sign: significand, exponent, rounding. */
  method ReadUnsigned(s: string, p: nat, sign: bool) returns (r: Outcome, end: nat)
    requires p == LiteralStart(s) <= |s|
    ensures PointCount(LiteralMantissa(s)) > 1 ==> r == Ok(Deci(0, 0, 0, false, 0)) && end == 0
    ensures PointCount(LiteralMantissa(s)) <= 1 && ExponentTooLarge(s) ==> r == Overflow
    ensures PointCount(LiteralMantissa(s)) <= 1 && !ExponentTooLarge(s) ==>
      && end == LiteralEnd(s, MantissaEnd(s, p)) && Delivered(LiteralNumber(s), LiteralExponent(s), sign, r)
  {
    hide Val, Pow10, Scanned, Delivered, Mantissa, DigitsNumber, PointCount, FractionDigits, MantissaEnd;
    hide LiteralStart, LiteralExponent, LiteralEnd, ExponentTooLarge;
    var sb := new Limb[4](i => 0);
    ZeroThree(sb[..]);
    assert sb[..][..3] == sb[..3];
    var a, f, tb, ok;
    ghost var k;
    a, f, tb, ok, k := ScanMantissa(s, p, sb);
    if !ok {
      return Ok(Deci(0, 0, 0, false, 0)), 0;
    }
    ScannedMantissa(LiteralMantissa(s), Val(sb[..3]), f, tb, k);
    r, end := ReadExponent(s, a, sb, f, tb, sign, k);
  }

  // ---- Literals in their parts ----

  lemma {:induction false} CountEmpty(t: string)
    requires t == ""
    ensures DigitCount(t) == 0 && DigitsNumber(t) == 0 && PointCount(t) == 0 && FractionDigits(t) == 0
  {
  }

  lemma {:induction false} NoPoint(t: string)
    requires Ticked(t)
    ensures PointCount(t) == 0 && FractionDigits(t) == 0
  {
    if |t| > 0 {
      NoPoint(t[..|t| - 1]);
    }
  }

  /** The digits after a point are the fraction, and the point does not change the number. */
  lemma {:induction false} PointInside(x: string, c: char, y: string)
    requires Ticked(x) && Ticked(y) && IsPoint(c)
    ensures DigitsNumber(x + [c] + y) == DigitsNumber(x + y)
    ensures PointCount(x + [c] + y) == 1 && FractionDigits(x + [c] + y) == DigitCount(y)
  {
    if |y| == 0 {
      assert x + [c] + y == x + [c] && x + y == x;
      DropLast(x, c);
      NoPoint(x);
    } else {
      var y', d := y[..|y| - 1], y[|y| - 1];
      PointInside(x, c, y');
      assert x + [c] + y == (x + [c] + y') + [d];
      assert x + y == (x + y') + [d];
      DropLast(x + [c] + y', d);
      DropLast(x + y', d);
    }
  }

  /** The whole mantissa of the parts: its number, its points and its fraction. */
  lemma {:induction false} MantissaParts(p: Parts)
    requires p.Valid()
    ensures DigitsNumber(p.Mantissa()) == DigitsNumber(p.whole + p.fraction)
    ensures PointCount(p.Mantissa()) == |p.point| && FractionDigits(p.Mantissa()) == DigitCount(p.fraction)
    ensures forall k :: 0 <= k < |p.Mantissa()| ==> IsMantissaChar(p.Mantissa()[k])
  {
    hide DigitsNumber, FractionDigits, PointCount, DigitCount;
    CountEmpty("");
    if p.point == "" {
      assert p.Mantissa() == p.whole && p.whole + p.fraction == p.whole;
      NoPoint(p.whole);
    } else {
      PointInside(p.whole, p.point[0], p.fraction);
      assert p.Mantissa() == p.whole + [p.point[0]] + p.fraction;
    }
  }

  lemma {:induction false} Joined(s: string, x: string, y: string)
    requires |x + y| <= |s| && s[..|x + y|] == x + y
    ensures s[..|x|] == x && s[|x|..|x + y|] == y
  {
    assert (x + y)[..|x|] == x && (x + y)[|x|..] == y;
    assert s[..|x + y|][..|x|] == s[..|x|];
  }

  /** A text of these parts, cut where they were joined. */
  lemma {:induction false} Pieces(s: string, p: Parts)
    requires |p.Text()| <= |s| && s[..|p.Text()|] == p.Text()
    ensures var a, b, c := |p.Front()|, |p.Front() + p.Mantissa()|, |p.Text()|;
      && a <= b <= c && s[..a] == p.Front() && s[a..b] == p.Mantissa() && s[b..c] == p.Exponent()
  {
    hide Parts.Front, Parts.Mantissa, Parts.Exponent;
    Joined(s, p.Front() + p.Mantissa(), p.Exponent());
    Joined(s, p.Front(), p.Mantissa());
  }

  /** What comes after the sign and the `$` is neither. */
  lemma {:induction false} FrontEnds(s: string, sign: string, dollar: string)
    requires Optional(sign, '+', '-') && Optional(dollar, '$', '$')
    requires |sign + dollar| <= |s| && s[..|sign + dollar|] == sign + dollar
    requires |dollar| == 0 ==> At(s, |sign + dollar|) != '$'
    requires |sign + dollar| == 0 ==> At(s, 0) != '+' && At(s, 0) != '-'
    ensures LiteralStart(s) == |sign + dollar| && (At(s, 0) == '-' <==> Minus(sign))
  {
    Joined(s, sign, dollar);
    if |sign| > 0 {
      assert s[0] == s[..|sign|][0] == sign[0];
    }
    if |dollar| > 0 {
      assert s[|sign|] == s[|sign|..|sign + dollar|][0] == dollar[0];
    }
  }

  lemma {:induction false} NextChar(s: string, a: nat, b: nat, t: string)
    requires a < b <= |s| && s[a..b] == t
    ensures |t| > 0 && s[a] == t[0]
  {
  }

  /** The sign and the `$` are taken for what they are. */
  lemma {:induction false} FrontScans(s: string, p: Parts)
    requires p.Valid() && |p.Text()| <= |s| && s[..|p.Text()|] == p.Text()
    requires |p.Text()| < |s| ==> p.Stops(s[|p.Text()|]) || IsPoint(s[|p.Text()|])
    ensures LiteralStart(s) == |p.Front()| && (At(s, 0) == '-' <==> Minus(p.sign))
  {
    Pieces(s, p);
    MantissaParts(p);
    hide DigitsNumber, FractionDigits, PointCount, DigitCount, Ticked, AllDigits, LiteralStart, Parts.Mantissa;
    var a, b, c := |p.Front()|, |p.Front() + p.Mantissa()|, |p.Text()|;
    if a < b {
      NextChar(s, a, b, p.Mantissa());
      assert IsMantissaChar(p.Mantissa()[0]);
    } else if b < c {
      NextChar(s, b, c, p.Exponent());
      assert p.Exponent()[0] == p.mark[0];
    }
    FrontEnds(s, p.sign, p.dollar);
  }

  lemma {:induction false} MantissaAt(s: string, a: nat, b: nat, m: string)
    requires a <= b <= |s| && s[a..b] == m && forall k :: 0 <= k < |m| ==> IsMantissaChar(m[k])
    ensures MantissaEnd(s, a) == MantissaEnd(s, b) >= b
    ensures !IsMantissaChar(At(s, b)) ==> MantissaEnd(s, a) == b
  {
    hide IsMantissaChar;
    forall k | a <= k < b
      ensures IsMantissaChar(s[k])
    {
      assert s[k] == m[k - a];
    }
    MantissaReaches(s, a, b);
  }

  lemma {:induction false} MantissaScans(s: string, p: Parts)
    requires IsText(s, p)
    ensures LiteralStart(s) == |p.Front()| && (At(s, 0) == '-' <==> Minus(p.sign))
    ensures MantissaEnd(s, LiteralStart(s)) == |p.Front() + p.Mantissa()| <= |s| && LiteralMantissa(s) == p.Mantissa()
  {
    FrontScans(s, p);
    Pieces(s, p);
    MantissaParts(p);
    hide DigitsNumber, FractionDigits, PointCount, DigitCount, LiteralStart, Parts.Front, Parts.Mantissa, Ticked,
      AllDigits;
    var a, b, c := |p.Front()|, |p.Front() + p.Mantissa()|, |p.Text()|;
    if b < c {
      NextChar(s, b, c, p.Exponent());
      assert p.Exponent()[0] == p.mark[0];
    }
    MantissaAt(s, a, b, p.Mantissa());
  }

  lemma {:induction false} DigitsReach(s: string, p: nat, q: nat)
    requires p <= q <= |s| && (forall k :: p <= k < q ==> IsDigit(s[k])) && (q < |s| ==> !IsDigit(s[q]))
    ensures DigitsEnd(s, p) == q
    decreases q - p
  {
    if p < q {
      DigitsReach(s, p + 1, q);
    }
  }

  lemma FirstDigit(t: string)
    requires AllDigits(t) && |t| > 0
    ensures IsDigit(t[0])
  {
  }

  lemma {:induction false} DigitsSpan(s: string, p: nat, t: string)
    requires AllDigits(t) && p + |t| <= |s| && s[p..p + |t|] == t && !IsDigit(At(s, p + |t|))
    ensures DigitsEnd(s, p) == p + |t|
  {
    forall k | p <= k < p + |t|
      ensures IsDigit(s[k])
    {
      assert s[k] == t[k - p];
    }
    DigitsReach(s, p, p + |t|);
  }

  /** An exponent part that starts at q. */
  lemma {:induction false} ExponentAt(s: string, q: nat, mark: string, turn: string, power: string)
    requires Optional(mark, 'e', 'E') && |mark| > 0 && Optional(turn, '+', '-') && AllDigits(power)
    requires q + |mark + turn + power| <= |s| && s[q..q + |mark + turn + power|] == mark + turn + power
    requires |turn + power| == 0 ==> At(s, q + 1) != '+' && At(s, q + 1) != '-'
    requires !IsDigit(At(s, q + |mark + turn + power|))
    ensures LiteralEnd(s, q) == q + |mark + turn + power| && ExponentText(s, q) == power
    ensures ExponentSign(s, q) == if Minus(turn) then -1 else 1
  {
    hide AllDigits, DigitsEnd;
    var u := s[q..];
    assert u[..|mark + turn + power|] == mark + turn + power;
    Joined(u, mark + turn, power);
    Joined(u, mark, turn);
    NextChar(u, 0, 1, mark);
    var h := |mark + turn|;
    if |turn| > 0 {
      NextChar(u, 1, h, turn);
      assert u[1] == s[q + 1];
    } else if |power| > 0 {
      NextChar(u, h, h + |power|, power);
      assert u[1] == s[q + 1];
      FirstDigit(power);
    }
    assert SignEnd(s, q + 1) == q + h;
    assert s[q + h..q + h + |power|] == u[h..h + |power|];
    DigitsSpan(s, q + h, power);
  }

  lemma NoExponentAt(s: string, q: nat)
    requires q <= |s| && !HasExponent(s, q)
    ensures LiteralEnd(s, q) == q && ExponentText(s, q) == "" && ExponentSign(s, q) == 1
  {
  }

  lemma {:induction false} ExponentScans(s: string, p: Parts)
    requires IsText(s, p)
    ensures var q := |p.Front() + p.Mantissa()|;
      && q <= |s| && LiteralEnd(s, q) == |p.Text()| && ExponentText(s, q) == p.power
      && (ExponentSign(s, q) == if Minus(p.turn) then -1 else 1)
  {
    Pieces(s, p);
    hide DigitsNumber, DigitCount, Ticked, AllDigits, Parts.Front, Parts.Mantissa, DigitsEnd;
    var q := |p.Front() + p.Mantissa()|;
    if |p.mark| > 0 {
      hide LiteralEnd, ExponentText, ExponentSign;
      ExponentAt(s, q, p.mark, p.turn, p.power);
    } else {
      NoExponentAt(s, q);
    }
  }

  /** What the scanner makes of a text in parts is what the parts say. */
  lemma {:induction false} PartsScan(s: string, p: Parts)
    requires IsText(s, p)
    ensures LiteralStart(s) <= |s| && PointCount(LiteralMantissa(s)) <= 1 && (At(s, 0) == '-' <==> Minus(p.sign))
    ensures ExponentTooLarge(s) <==> p.TooLarge()
    ensures LiteralEnd(s, MantissaEnd(s, LiteralStart(s))) == |p.Text()|
    ensures LiteralNumber(s) == DigitsNumber(p.whole + p.fraction)
    ensures !p.TooLarge() ==> LiteralExponent(s) == p.Scale()
  {
    MantissaScans(s, p);
    MantissaParts(p);
    ExponentScans(s, p);
    hide DigitsNumber, FractionDigits, PointCount, DigitCount, LiteralStart, MantissaEnd, LiteralEnd, ExponentText,
      ExponentSign, Parts.Text, Parts.Mantissa, IsText, Ticked, AllDigits;
  }

  lemma {:induction false} PointMore(m: string, c: char)
    requires IsPoint(c)
    ensures PointCount(m + [c]) == PointCount(m) + 1
  {
    DropLast(m, c);
  }

  lemma {:induction false} SecondPointAt(s: string, a: nat, b: nat, m: string)
    requires a <= b < |s| && s[a..b] == m && (forall k :: 0 <= k < |m| ==> IsMantissaChar(m[k])) && IsPoint(s[b])
    requires PointCount(m) == 1
    ensures PointCount(s[a..MantissaEnd(s, a)]) > 1
  {
    hide PointCount;
    MantissaAt(s, a, b, m);
    var t := s[a..MantissaEnd(s, a)];
    assert t[..b + 1 - a] == m + [s[b]];
    PointMore(m, s[b]);
    PointsPrefix(t, b + 1 - a);
  }

  /** A second point ends the mantissa after the first: no literal at all. */
  lemma {:induction false} SecondPointScans(s: string, p: Parts)
    requires HasSecondPoint(s, p)
    ensures LiteralStart(s) <= |s| && PointCount(LiteralMantissa(s)) > 1
  {
    FrontScans(s, p);
    Pieces(s, p);
    MantissaParts(p);
    hide DigitsNumber, FractionDigits, DigitCount, LiteralStart, Ticked, AllDigits;
    var a, b := |p.Front()|, |p.Front() + p.Mantissa()|;
    assert p.Exponent() == "";
    SecondPointAt(s, a, b, p.Mantissa());
  }

  /** What the literal of a text is, by parts instead of positions. */
  lemma {:induction false} ReadsParts(s: string, r: Outcome, end: nat)
    requires LiteralStart(s) <= |s|
    requires PointCount(LiteralMantissa(s)) > 1 ==> r == Ok(Deci(0, 0, 0, false, 0)) && end == 0
    requires PointCount(LiteralMantissa(s)) <= 1 && ExponentTooLarge(s) ==> r == Overflow
    requires PointCount(LiteralMantissa(s)) <= 1 && !ExponentTooLarge(s) ==>
      && end == LiteralEnd(s, MantissaEnd(s, LiteralStart(s)))
      && Delivered(LiteralNumber(s), LiteralExponent(s), At(s, 0) == '-', r)
    ensures forall p :: IsText(s, p) ==> p.Reads(r, end)
    ensures forall p :: HasSecondPoint(s, p) ==> r == Ok(Deci(0, 0, 0, false, 0)) && end == 0
  {
    hide Delivered, PointCount, LiteralStart, LiteralMantissa, LiteralNumber, LiteralExponent, ExponentTooLarge,
      LiteralEnd, MantissaEnd, IsText, HasSecondPoint, DigitsNumber, Parts.TooLarge, Parts.Scale, Parts.Text;
    forall p | IsText(s, p)
      ensures p.Reads(r, end)
    {
      PartsScan(s, p);
    }
    forall p | HasSecondPoint(s, p)
      ensures r == Ok(Deci(0, 0, 0, false, 0)) && end == 0
    {
      SecondPointScans(s, p);
    }
  }

  // ---- Every text has parts ----

  lemma {:induction false} TickedMore(s: string, p: nat, q: nat)
    requires p < q <= |s| && Ticked(s[p + 1..q]) && (IsDigit(s[p]) || s[p] == '\'')
    ensures Ticked(s[p..q])
  {
    assert s[p..q] == [s[p]] + s[p + 1..q];
  }

  /** The end of the run of digits and ticks that starts at p. */
  ghost function TickedEnd(s: string, p: nat): (q: nat)
    requires p <= |s|
    ensures p <= q <= |s| && Ticked(s[p..q]) && (q < |s| ==> !IsDigit(s[q]) && s[q] != '\'')
    decreases |s| - p
  {
    if p < |s| && (IsDigit(s[p]) || s[p] == '\'') then
      var q := TickedEnd(s, p + 1);
      TickedMore(s, p, q);
      q
    else p
  }

  /** The end of the run of digits is where they stop. */
  lemma {:induction false} DigitsStop(s: string, p: nat)
    requires p <= |s|
    ensures var q := DigitsEnd(s, p); AllDigits(s[p..q]) && (q < |s| ==> !IsDigit(s[q]))
    decreases |s| - p
  {
    if p < |s| && IsDigit(s[p]) {
      DigitsStop(s, p + 1);
      assert s[p..DigitsEnd(s, p)] == [s[p]] + s[p + 1..DigitsEnd(s, p)];
    }
  }

  /** Nothing, or one character of the text. */
  lemma {:induction false} OneChar(s: string, a: nat, b: nat, c: char, d: char)
    requires a <= |s| && b == (if At(s, a) == c || At(s, a) == d then a + 1 else a) && c != '\0' && d != '\0'
    ensures a <= b <= |s| && Optional(s[a..b], c, d)
    ensures a == b ==> At(s, b) != c && At(s, b) != d
  {
  }

  lemma {:induction false} Slices(s: string, a: nat, b: nat)
    requires a <= b <= |s|
    ensures s[..a] + s[a..b] == s[..b]
  {
  }

  /** The parts of a text up to the end e of its mantissa. */
  ghost function FrontParts(s: string, a: nat, b: nat, c: nat, d: nat, e: nat): (p: Parts)
    requires a <= b <= c <= d <= e <= |s|
    ensures p == Parts(s[..a], s[a..b], s[b..c], s[c..d], s[d..e], "", "", "")
    ensures p.Front() == s[..b] && p.Mantissa() == s[b..e] && p.Text() == p.Front() + p.Mantissa() == s[..e]
  {
    Slices(s, a, b);
    Slices(s[b..], c - b, d - b);
    Slices(s[b..], d - b, e - b);
    Slices(s, b, e);
    Parts(s[..a], s[a..b], s[b..c], s[c..d], s[d..e], "", "", "")
  }

  ghost function WithExponent(s: string, p: Parts, e: nat, f: nat, g: nat, h: nat): (q: Parts)
    requires e <= f <= g <= h <= |s| && p.Text() == p.Front() + p.Mantissa() == s[..e]
    ensures q == p.(mark := s[e..f], turn := s[f..g], power := s[g..h])
    ensures q.Front() == p.Front() && q.Mantissa() == p.Mantissa() && q.Exponent() == s[e..h] && q.Text() == s[..h]
  {
    Slices(s[e..], f - e, g - e);
    Slices(s[e..], g - e, h - e);
    Slices(s, e, h);
    p.(mark := s[e..f], turn := s[f..g], power := s[g..h])
  }

  lemma NothingAt(s: string, a: nat)
    requires a <= |s|
    ensures |s[a..a]| == 0 && Ticked(s[a..a]) && AllDigits(s[a..a]) && Ticked("") && AllDigits("")
  {
  }

  /** A mantissa that ends at e, with the exponent part after it. */
  lemma {:induction false} PartsAfter(s: string, m: Parts, e: nat) returns (p: Parts)
    requires m.Valid() && |m.mark| == 0 && e <= |s| && m.Text() == m.Front() + m.Mantissa() == s[..e]
    requires !IsDigit(At(s, e)) && At(s, e) != '\'' && !IsPoint(At(s, e))
    requires |m.dollar + m.Mantissa()| == 0 ==> At(s, e) != '$'
    requires e == 0 ==> At(s, e) != '+' && At(s, e) != '-'
    ensures IsText(s, p)
  {
    var f := if At(s, e) == 'e' || At(s, e) == 'E' then e + 1 else e;
    OneChar(s, e, f, 'e', 'E');
    var g := if f > e && (At(s, f) == '+' || At(s, f) == '-') then f + 1 else f;
    if f > e {
      OneChar(s, f, g, '+', '-');
    }
    var h := if f > e then DigitsEnd(s, g) else g;
    DigitsStop(s, g);
    NothingAt(s, g);
    p := WithExponent(s, m, e, f, g, h);
    hide Parts.Text, Parts.Front, Parts.Mantissa, Parts.Exponent, Ticked, AllDigits, DigitsEnd, WithExponent;
    assert p.Valid();
    hide Optional;
  }

  lemma {:induction false} FrontCut(s: string) returns (a: nat, b: nat)
    ensures a <= b <= |s| && Optional(s[..a], '+', '-') && Optional(s[a..b], '$', '$')
    ensures a == b ==> At(s, b) != '$'
    ensures a == 0 ==> At(s, 0) != '+' && At(s, 0) != '-'
  {
    a := if At(s, 0) == '+' || At(s, 0) == '-' then 1 else 0;
    OneChar(s, 0, a, '+', '-');
    b := if At(s, a) == '$' then a + 1 else a;
    OneChar(s, a, b, '$', '$');
  }

  lemma {:induction false} MantissaCut(s: string, b: nat) returns (c: nat, d: nat, e: nat)
    requires b <= |s|
    ensures b <= c <= d <= e <= |s| && Ticked(s[b..c]) && Optional(s[c..d], '.', ',') && Ticked(s[d..e])
    ensures AllDigits("") && !IsDigit(At(s, e)) && At(s, e) != '\'' && (c == d ==> d == e && !IsPoint(At(s, e)))
  {
    c := TickedEnd(s, b);
    d := if IsPoint(At(s, c)) then c + 1 else c;
    OneChar(s, c, d, '.', ',');
    e := if d > c then TickedEnd(s, d) else c;
    NothingAt(s, e);
    hide TickedEnd, Ticked, Optional;
  }

  /** Sign, `$`, digits and a point, as far as they go. */
  lemma {:induction false} PartsBefore(s: string) returns (p: Parts, e: nat)
    ensures p.Valid() && |p.mark| == 0 && e <= |s| && p.Text() == p.Front() + p.Mantissa() == s[..e]
    ensures !IsDigit(At(s, e)) && At(s, e) != '\'' && (|p.point| == 0 ==> !IsPoint(At(s, e)))
    ensures |p.dollar + p.Mantissa()| == 0 ==> At(s, e) != '$'
    ensures e == 0 ==> At(s, e) != '+' && At(s, e) != '-'
  {
    var a, b := FrontCut(s);
    var c, d;
    c, d, e := MantissaCut(s, b);
    p := FrontParts(s, a, b, c, d, e);
    hide Parts.Text, Parts.Front, Parts.Mantissa, Parts.Exponent, Ticked, AllDigits, FrontParts, IsDigit, IsPoint;
    assert p.Valid();
    hide Optional;
  }

  /** Every text starts with a literal that stops somewhere, or with a mantissa that has a second point. */
  lemma {:induction false} EveryText(s: string) returns (p: Parts)
    ensures IsText(s, p) || HasSecondPoint(s, p)
  {
    hide Parts.Text, Parts.Front, Parts.Mantissa, Parts.Exponent, Parts.Valid;
    var e;
    p, e := PartsBefore(s);
    if |p.point| == 0 || !IsPoint(At(s, e)) {
      p := PartsAfter(s, p, e);
    }
  }

  /** `string_to_deci`: the literal's exact value rounded once, and the end of the literal, whatever parts the text
      has; every text starts with a literal (`EveryText`) or with a mantissa of two points, which is no literal. */
  method StringToDeci(s: string) returns (r: Outcome, end: nat)
    ensures LiteralStart(s) <= |s|
    ensures PointCount(LiteralMantissa(s)) > 1 ==> r == Ok(Deci(0, 0, 0, false, 0)) && end == 0
    ensures PointCount(LiteralMantissa(s)) <= 1 && ExponentTooLarge(s) ==> r == Overflow
    ensures PointCount(LiteralMantissa(s)) <= 1 && !ExponentTooLarge(s) ==>
      && end == LiteralEnd(s, MantissaEnd(s, LiteralStart(s)))
      && Delivered(LiteralNumber(s), LiteralExponent(s), At(s, 0) == '-', r)
    ensures forall p :: IsText(s, p) ==> p.Reads(r, end)
    ensures forall p :: HasSecondPoint(s, p) ==> r == Ok(Deci(0, 0, 0, false, 0)) && end == 0
  {
    hide Val, Pow10, Delivered, DigitsNumber, PointCount, FractionDigits, MantissaEnd;
    var a, sign := ScanSign(s);
    r, end := ReadUnsigned(s, a, sign);
    ReadsParts(s, r, end);
  }
}

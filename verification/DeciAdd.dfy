/** `deci_add` for operands of equal sign (f-deci.c): the exact sum, rounded once. */
module DeciAdd {
  import opened Arithmetic
  import opened Limbs
  import opened Rounding
  import opened DeciShift
  import opened DeciSpec
  import opened DeciArith
  import opened DeciCompare

  /** The exact sum of two magnitudes, in units of the lower exponent. */
  ghost function ExactSum(a: Deci, b: Deci): nat {
    if a.e >= b.e then Scaled(a.Sig(), a.e - b.e) + b.Sig() else a.Sig() + Scaled(b.Sig(), b.e - a.e)
  }

  /** The table P26_1: 10^26 - 1. */
  const P26_1: seq<Limb> := [3825205247, 3704098002, 5421010]

  lemma LargestSignificand()
    ensures Val(P26_1) == Pow10(26) - 1
  {
    PowersFit();
    ValThree(P26_1);
  }

  lemma SumTail(x: nat, y: nat, p: nat, r: nat, w: nat)
    requires w == p * y + r
    ensures x * p + w == p * (x + y) + r
  {
  }

  lemma SumTruncates(x: nat, y: nat, p: nat, w: nat, t: int)
    requires Truncates(w, p, y, t)
    ensures x * p >= 0 && Truncates(x * p + w, p, x + y, t)
  {
    var r: nat :| IsTail(w, p, y, t, r);
    SumTail(x, y, p, r, w);
    assert IsTail(x * p + w, p, x + y, t, r);
  }

  lemma ScaledIs(v: nat, n: nat)
    ensures Scaled(v, n) == v * Pow10(n)
  {
  }

  /** After alignment the sum of the significands is the exact sum, cut off where the lower operand was. */
  lemma AlignedSum(va: nat, ea: int, vb: nat, eb: int, va': nat, vb': nat, e: int, t: int)
    requires vb < Pow10(26) && Aligned(va, ea, vb, eb, va', vb', e, t)
    ensures Truncates(Scaled(va, ea - eb) + vb, Pow10(e - eb), va' + vb', t)
    ensures va' + vb' < 2 * Pow10(27)
    ensures e > eb ==> va' + vb' >= Pow10(26)
  {
    hide Pow10, Truncates;
    ScaledAdd(va, ea - e, e - eb);
    TruncatedLess(vb, Pow10(e - eb), vb', t);
    TenTimes(vb);
    hide Scaled;
    SumTruncates(va', vb', Pow10(e - eb), vb, t);
    ScaledIs(va', e - eb);
  }

  ghost predicate SumState(num: nat, low: int, v: nat, e: int, t: int) {
    low <= e && Truncates(num, Pow10(e - low), v, t)
  }

  /** The test of the normalisation: a further digit has to go exactly when the rounding does not fit. */
  lemma NeedsDigit(num: nat, low: int, v: nat, e: int, t: int)
    requires SumState(num, low, v, e, t)
    ensures v > Pow10(26) - 1 || (v == Pow10(26) - 1 && RoundsUp(v, t)) <==> !Fits(num, e - low)
  {
    RoundByFlag(num, Pow10(e - low), v, t);
    FitsBelowLimit(num, e - low, if RoundsUp(v, t) then v + 1 else v);
    FitsIff(num, e - low);
  }

  lemma ScaledPower(m: nat, n: nat)
    ensures Scaled(Pow10(m), n) == Pow10(m + n)
  {
    Pow10Add(m, n);
  }

  /** The significand is below ten times the bound after each digit cut off. */
  lemma DigitLess(num: nat, low: int, v: nat, e: int, t: int, v': nat, t': int)
    requires SumState(num, low, v, e, t) && Truncates(num, Scaled(Pow10(e - low), 1), v', t')
    ensures SumState(num, low, v', e + 1, t') && 10 * v' <= v
  {
    ScaledPower(e - low, 1);
    ShiftedSmaller(num, Pow10(e - low), v, t, 1, v', t');
  }

  /** `test > 0 || (test == 0 && rounds up)`, evaluated twice in the source. */
  method Overflows26(sc: array<Limb>, t: int, ghost num: nat, ghost low: int, ghost e: int) returns (r: bool)
    requires sc.Length >= 4 && SumState(num, low, Val(sc[..3]), e, t)
    ensures r <==> !Fits(num, e - low)
  {
    NeedsDigit(num, low, Val(sc[..3]), e, t);
    LargestSignificand();
    ValParity(sc[..3]);
    hide Val, Pow10, Fits, SumState;
    var test := MCmp(3, sc[..], P26_1);
    assert P26_1[..3] == P26_1 && sc[..][..3] == sc[..3];
    r := test > 0 || (test == 0 && (t == 3 || (t == 2 && sc[0] % 2 == 1)));
  }

  /** Cuts one digit off the sum. */
  method CutDigit(sc: array<Limb>, t: int, ghost num: nat, ghost low: int, ghost e: int) returns (t': int)
    requires sc.Length >= 4 && SumState(num, low, Val(sc[..3]), e, t)
    modifies sc
    ensures SumState(num, low, Val(sc[..3]), e + 1, t') && 10 * Val(sc[..3]) <= old(Val(sc[..3]))
  {
    ghost var v := Val(sc[..3]);
    hide Val, Pow10, Scaled, Truncates;
    t' := Dsr(3, sc, 1, t, num, Pow10(e - low));
    DigitLess(num, low, v, e, t, Val(sc[..3]), t');
  }

  lemma LaterFits(num: nat, s: nat, s': nat, m: nat)
    requires s <= s' && IsRounded(num, Pow10(s), m) && m < Pow10(26)
    ensures Fits(num, s')
  {
    FitsBelowLimit(num, s, m);
    LimitMono(s, s');
    FitsIff(num, s');
  }

  lemma ScaledTen(m: nat, n: nat)
    requires n > 0 && 10 * m >= Pow10(26)
    ensures Scaled(m, n) >= Pow10(26)
  {
    Pow10Mono(1, n);
    assert Pow10(1) == 10 * Pow10(0) == 10;
    hide Pow10;
    MulMono(m, 10, Pow10(n));
  }

  lemma LimitQuotient(s: nat)
    requires s > 0
    ensures Pow10(26) == 10 * Pow10(25) && Pow10(s) == 10 * Pow10(s - 1)
    ensures Limit(s - 1) >= Pow10(25) * Pow10(s) - Pow10(s - 1)
  {
    Pow10Add(25, s);
    assert 26 + (s - 1) == 25 + s;
    if s > 1 {
      assert Pow10(s - 1) == 10 * Pow10(s - 2);
    }
  }

  lemma LeadingAlgebra(num: nat, p: nat, m: nat, top: nat, q: nat)
    requires p == 10 * q && q > 0 && num >= top * p - q && IsRounded(num, p, m)
    ensures m >= top
  {
    assert p * (m + 1) == p * m + p;
    if m < top {
      MulMono(p, m + 1, top);
    }
  }

  /** A value rounded at more than the least exponent keeps 26 digits. */
  lemma LeadingDigits(num: nat, low: int, m: nat, e: int)
    requires RoundsTo(num, low, m, e) && e > low && e > -128
    ensures 10 * m >= Pow10(26)
  {
    var s := e - low;
    FitsIff(num, s - 1);
    LimitQuotient(s);
    hide Pow10, Limit;
    LeadingAlgebra(num, Pow10(s), m, Pow10(25), Pow10(s - 1));
  }

  /** Where the sum needs a digit more than exponent 127 leaves it, the outcome is an overflow. */
  lemma SumOverflows(num: nat, low: int, sign: bool)
    requires -128 <= low <= 127 && !Fits(num, 127 - low)
    ensures Delivered(num, low, sign, Overflow)
  {
    var m, e := RoundsToExists(num, low);
    if e <= 127 {
      LaterFits(num, e - low, 127 - low, m);
    }
    LeadingDigits(num, low, m, e);
    hide Pow10, Scaled, RoundsTo;
    ScaledTen(m, e - 127);
    assert Delivers(m, e, sign, Overflow);
  }

  /** The last step: the sum that fits is rounded. */
  lemma SumRounds(num: nat, low: int, v: nat, t: int, e: int, m: nat)
    requires -128 <= low <= e <= 127 && SumState(num, low, v, e, t) && Fits(num, e - low)
    requires m == if RoundsUp(v, t) then v + 1 else v
    requires e > low ==> !Fits(num, e - 1 - low)
    ensures RoundsTo(num, low, m, e) && m < Pow10(26)
  {
    RoundByFlag(num, Pow10(e - low), v, t);
    FitsBelowLimit(num, e - low, m);
    FitsIff(num, e - low);
  }

  method RoundSum(sc: array<Limb>, e: int, t: int, sign: bool, ghost num: nat, ghost low: int) returns (r: Outcome)
    requires sc.Length >= 4 && -128 <= low <= e <= 127
    requires SumState(num, low, Val(sc[..3]), e, t) && Fits(num, e - low)
    requires e > low ==> !Fits(num, e - 1 - low)
    modifies sc
    ensures Delivered(num, low, sign, r)
  {
    hide Val, Pow10, PowB, Fits, SumState, RoundsTo, Deci.Sig;
    ghost var v := Val(sc[..3]);
    SumRounds(num, low, v, t, e, if RoundsUp(v, t) then v + 1 else v);
    ThreeLimbs();
    ValParity(sc[..3]);
    if t == 3 || (t == 2 && sc[0] % 2 == 1) {
      AddOne(sc, 3);
    }
    var d := FromLimbs(sc, sign, e);
    assert Delivers(Val(sc[..3]), e, sign, Ok(d));
    r := Ok(d);
  }

  /** Normalisation and rounding of the sum; at most two digits have to go. */
  method DeliverSum(sc: array<Limb>, e: int, t: int, sign: bool, ghost num: nat, ghost low: int) returns (r: Outcome)
    requires sc.Length >= 4 && -128 <= low <= e <= 127
    requires SumState(num, low, Val(sc[..3]), e, t) && Val(sc[..3]) < 2 * Pow10(27)
    requires e > low ==> Val(sc[..3]) >= Pow10(26)
    modifies sc
    ensures Delivered(num, low, sign, r)
  {
    hide Val, Pow10, PowB, Fits, SumState, Delivered;
    var ea, tc := e, t;
    ghost var start := Val(sc[..3]);
    NeedsDigit(num, low, start, e, t);
    PowersFit();
    var over := Overflows26(sc, tc, num, low, ea);
    if over {
      if ea == 127 {
        SumOverflows(num, low, sign);
        return Overflow;
      }
      tc := CutDigit(sc, tc, num, low, ea);
      ea := ea + 1;
      over := Overflows26(sc, tc, num, low, ea);
      if over {
        if ea == 127 {
          SumOverflows(num, low, sign);
          return Overflow;
        }
        tc := CutDigit(sc, tc, num, low, ea);
        ea := ea + 1;
        NeedsDigit(num, low, Val(sc[..3]), ea, tc);
      }
    }
    r := RoundSum(sc, ea, tc, sign, num, low);
  }

  lemma SumAligned(a: Deci, b: Deci, va: nat, vb: nat, e: int, ta: int, tb: int)
    requires a.Valid() && b.Valid() && Compared(a, b, va, vb, e, ta, tb)
    ensures -128 <= LowerExponent(a, b) <= e <= 127
    ensures SumState(ExactSum(a, b), LowerExponent(a, b), va + vb, e, ta + tb)
    ensures va + vb < 2 * Pow10(27) && (e > LowerExponent(a, b) ==> va + vb >= Pow10(26))
  {
    hide Scaled, Pow10, Truncates;
    if a.e >= b.e {
      AlignedSum(a.Sig(), a.e, b.Sig(), b.e, va, vb, e, tb);
    } else {
      AlignedSum(b.Sig(), b.e, a.Sig(), a.e, vb, va, e, ta);
    }
  }

  /** `m_add` on three limbs, where the sum still fits them. */
  method AddThree(sc: array<Limb>, sa: array<Limb>, sb: array<Limb>)
    requires sc.Length == 4 && sa.Length >= 4 && sb.Length >= 4 && sc != sa && sc != sb
    requires Val(sa[..3]) + Val(sb[..3]) < 2 * Pow10(27)
    modifies sc
    ensures Val(sc[..3]) == Val(sa[..3]) + Val(sb[..3])
  {
    PowersFit();
    hide Val, Pow10, PowB;
    MAdd(3, sc, 0, sa, 0, sb);
    assert sa[0..3] == sa[..3] && sc[0..4] == sc[..4];
    LowThree(sc[..4]);
    assert sc[..4][..3] == sc[..3];
  }

  /** `deci_add` of two decis with the same sign: the exact sum, rounded once. */
  method DeciAdd(a: Deci, b: Deci) returns (r: Outcome)
    requires a.Valid() && b.Valid() && a.s == b.s
    ensures Delivered(ExactSum(a, b), LowerExponent(a, b), a.s, r)
  {
    hide Val, Pow10, PowB, Scaled, Aligned, Deci.Sig, SumState, ExactSum, LowerExponent, Delivered;
    var sc := new Limb[4];
    var sa := ToLimbs(a, 4);
    var sb := ToLimbs(b, 4);
    var e, ta, tb := MakeComparable(sa, a.e, sb, b.e);
    SumAligned(a, b, Val(sa[..3]), Val(sb[..3]), e, ta, tb);
    AddThree(sc, sa, sb);
    r := DeliverSum(sc, e, ta + tb, a.s, ExactSum(a, b), LowerExponent(a, b));
  }
}

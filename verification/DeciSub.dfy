/** `deci_add` for operands of opposite sign (f-deci.c).

This branch rounds the difference at the exponent of the alignment and does not renormalise, so it
returns the exact difference rounded once exactly when that has at most 26 digits there.
*/
module DeciSub {
  import opened Arithmetic
  import opened Limbs
  import opened Rounding
  import opened DeciShift
  import opened DeciSpec
  import opened DeciArith
  import opened DeciCompare
  import opened DeciAdd

  /** The two magnitudes in units of the lower exponent. */
  ghost function Units(d: Deci, low: int): nat
    requires d.e >= low
  {
    Scaled(d.Sig(), d.e - low)
  }

  ghost function ExactDifference(a: Deci, b: Deci): nat {
    var x, y := Units(a, LowerExponent(a, b)), Units(b, LowerExponent(a, b));
    if x >= y then x - y else y - x
  }

  /** The sign of the sum: that of the operand of larger magnitude. */
  ghost function DifferenceSign(a: Deci, b: Deci): bool {
    if Units(a, LowerExponent(a, b)) >= Units(b, LowerExponent(a, b)) then a.s else b.s
  }

  /** The exponent `make_comparable` aligns at: a significand v comes down from `high` digit by digit
      until it reaches the other exponent or has 27 digits. */
  ghost function AlignExponent(v: nat, high: int, low: int): int
    requires low <= high
    decreases high - low
  {
    if high == low || v >= Pow10(26) then high else AlignExponent(10 * v, high - 1, low)
  }

  ghost function CommonExponent(a: Deci, b: Deci): int {
    if a.e >= b.e then AlignExponent(a.Sig(), a.e, b.e) else AlignExponent(b.Sig(), b.e, a.e)
  }

  lemma ScaledMonoLeft(v: nat, k: nat)
    ensures Scaled(v, k) >= v
  {
    hide Pow10;
    MulMono(v, 1, Pow10(k));
  }

  lemma HundredTimes(v: nat)
    ensures Scaled(v, 2) == 100 * v && Pow10(27) == 10 * Pow10(26)
  {
    assert Pow10(1) == 10 * Pow10(0);
    assert Pow10(2) == 10 * Pow10(1);
  }

  /** One more digit after 27 would be too many. */
  lemma AlignStops(v: nat, k: nat)
    requires k > 0 && 10 * v >= Pow10(26) && Scaled(v, k) < Pow10(27)
    ensures k == 1
  {
    HundredTimes(v);
    if k >= 2 {
      ScaledMono(v, 2, k);
    }
  }

  lemma ScaledNone(v: nat)
    ensures Scaled(v, 0) == v
  {
    assert Pow10(0) == 1;
  }

  lemma ScaledTenfold(v: nat)
    ensures Scaled(v, 1) == 10 * v
  {
    assert Pow10(1) == 10 * Pow10(0) == 10;
  }

  lemma {:induction false} AlignExponentIs(v: nat, high: int, low: int, e: int)
    requires low <= e <= high && v < Pow10(26)
    requires Scaled(v, high - e) < Pow10(27)
    requires e > low ==> Scaled(v, high - e) >= Pow10(26)
    ensures AlignExponent(v, high, low) == e
    decreases high - low
  {
    hide Pow10, Scaled;
    var k := high - e;
    if k > 0 {
      ScaledAdd(v, 1, k - 1);
      ScaledTenfold(v);
      if 10 * v >= Pow10(26) {
        ScaledMonoLeft(10 * v, k - 1);
        AlignStops(v, k);
      } else {
        AlignExponentIs(10 * v, high - 1, low, e);
      }
    } else {
      ScaledNone(v);
    }
  }

  // ---- Rounding a difference ----

  ghost predicate IsShort(num: nat, p: nat, v: nat, t: int, r: nat) {
    num + r == p * v && 0 < r < p && t == -Tail(r, p)
  }

  /** The sign of the flag says on which side of the integer difference the exact one lies. */
  ghost predicate DifferenceState(num: nat, p: nat, v: nat, t: int) {
    && p > 0
    && (t >= 0 ==> Truncates(num, p, v, t))
    && (t < 0 ==> exists r: nat :: IsShort(num, p, v, t, r))
  }

  lemma PositiveFactor(p: nat, v: nat)
    requires p * v > 0
    ensures v > 0
  {
  }

  /** Rounding down from above, as the second rounding line does. */
  lemma RoundShort(num: nat, p: nat, v: nat, t: int)
    requires t > 0 && DifferenceState(num, p, v, -t)
    ensures v > 0 && IsRounded(num, p, if RoundsUp(v, t) then v - 1 else v)
  {
    var r: nat :| IsShort(num, p, v, -t, r);
    PositiveFactor(p, v);
    assert p * (v - 1) == p * v - p;
  }

  lemma RoundDifference(num: nat, p: nat, v: nat, t: int)
    requires DifferenceState(num, p, v, t)
    ensures RoundsUp(v, t) ==> IsRounded(num, p, v + 1)
    ensures RoundsUp(v, -t) ==> v > 0 && IsRounded(num, p, v - 1)
    ensures !RoundsUp(v, t) && !RoundsUp(v, -t) ==> IsRounded(num, p, v)
  {
    if t >= 0 {
      RoundByFlag(num, p, v, t);
    } else {
      RoundShort(num, p, v, -t);
    }
  }

  /** Subtracting the truncated significand of the lower operand from the aligned one. */
  lemma AlignedDifference(x: nat, y: nat, x': nat, y': nat, p: nat, t: int)
    requires p > 0 && x == p * x' && Truncates(y, p, y', t)
    ensures x' >= y' ==> (x >= y ==> DifferenceState(x - y, p, x' - y', -t))
    ensures x' < y' ==> x < y && DifferenceState(y - x, p, y' - x', t)
  {
    var r: nat :| IsTail(y, p, y', t, r);
    assert p * (x' - y') == p * x' - p * y' && p * (y' - x') == p * y' - p * x';
    if x' >= y' && x >= y {
      if r == 0 {
        assert IsTail(x - y, p, x' - y', 0, 0);
      } else {
        assert IsShort(x - y, p, x' - y', -t, r);
      }
    }
    if x' < y' {
      MulMono(p, 1, y' - x');
      assert IsTail(y - x, p, y' - x', t, r);
    }
  }

  /** Where something may have been cut off, the aligned operand is far larger. */
  lemma AlignedLarger(x: nat, y: nat, x': nat, y': nat, p: nat, t: int)
    requires p > 0 && x == p * x' && Truncates(y, p, y', t)
    requires p == 1 || x' > y'
    ensures x' >= y' ==> x >= y
    ensures x' > y' ==> x > y
    ensures x' == y' ==> x == y && t == 0
  {
    var r: nat :| IsTail(y, p, y', t, r);
    assert p * (y' + 1) == p * y' + p;
    if x' > y' {
      MulMono(p, y' + 1, x');
    }
  }

  /** The exact difference x - y of two magnitudes against the one of their aligned significands. */
  ghost predicate HighLow(x: nat, y: nat, x': nat, y': nat, p: nat, t: int) {
    && p > 0
    && (x' >= y' ==> x >= y && DifferenceState(x - y, p, x' - y', -t))
    && (x' > y' ==> x > y)
    && (x' < y' ==> x < y && DifferenceState(y - x, p, y' - x', t))
    && (x' == y' ==> x == y && t == 0)
  }

  lemma UnitsOwn(d: Deci)
    ensures Units(d, d.e) == d.Sig()
  {
    assert Pow10(0) == 1;
  }

  lemma UnitsAligned(d: Deci, low: int, e: int)
    requires low <= e <= d.e
    ensures Units(d, low) == Pow10(e - low) * Scaled(d.Sig(), d.e - e)
  {
    ScaledAdd(d.Sig(), d.e - e, e - low);
  }

  lemma SubtractHigh(hi: Deci, lo: Deci, vh: nat, vl: nat, e: int, t: int)
    requires hi.Valid() && lo.Valid() && hi.e >= lo.e
    requires Aligned(hi.Sig(), hi.e, lo.Sig(), lo.e, vh, vl, e, t)
    ensures HighLow(Units(hi, lo.e), Units(lo, lo.e), vh, vl, Pow10(e - lo.e), t)
  {
    UnitsOwn(lo);
    UnitsAligned(hi, lo.e, e);
    if e == lo.e {
      NotCut(lo.Sig(), vl, t);
      assert Pow10(0) == 1;
    } else {
      CutSmall(lo.Sig(), e - lo.e, vl, t);
    }
    hide Pow10, Scaled, Units;
    AlignedLarger(Units(hi, lo.e), lo.Sig(), vh, vl, Pow10(e - lo.e), t);
    AlignedDifference(Units(hi, lo.e), lo.Sig(), vh, vl, Pow10(e - lo.e), t);
  }

  ghost predicate Subtracted(a: Deci, b: Deci, v: nat, e: int, t: int, sign: bool) {
    && LowerExponent(a, b) <= e
    && DifferenceState(ExactDifference(a, b), Pow10(e - LowerExponent(a, b)), v, t)
    && sign == DifferenceSign(a, b)
  }

  /** The aligned significands and flags of `make_comparable` give the exact difference. */
  lemma SubtractAligned(a: Deci, b: Deci, va: nat, vb: nat, e: int, ta: int, tb: int)
    requires a.Valid() && b.Valid() && Compared(a, b, va, vb, e, ta, tb)
    ensures e == CommonExponent(a, b) && -128 <= e <= 127
    ensures va >= vb ==> Subtracted(a, b, va - vb, e, ta - tb, a.s)
    ensures va < vb ==> Subtracted(a, b, vb - va, e, -(ta - tb), b.s)
  {
    hide Pow10, Scaled, Units, DifferenceState, AlignExponent, Truncates, Deci.Sig;
    if a.e >= b.e {
      AlignExponentIs(a.Sig(), a.e, b.e, e);
      SubtractHigh(a, b, va, vb, e, tb);
    } else {
      AlignExponentIs(b.Sig(), b.e, a.e, e);
      SubtractHigh(b, a, vb, va, e, ta);
    }
  }

  // ---- The branch itself ----

  /** The 23-bit field that holds the highest significand limb. */
  const FIELD: nat := 0x80_0000

  /** A significand of at most 26 digits fits the fields of a deci; a longer one cannot be stored. */
  lemma {:induction false} FieldHolds(s: seq<Limb>)
    requires |s| == 3 && Val(s) < Pow10(26)
    ensures s[2] % FIELD == s[2]
  {
    ValThree(s);
    PowersFit();
  }

  lemma NotFitting(num: nat, low: int, m: nat, e: int, e0: int)
    requires RoundsTo(num, low, m, e) && e0 >= low && e0 >= -128 && !Fits(num, e0 - low)
    ensures e > e0 && 10 * m >= Pow10(26)
  {
    if e <= e0 {
      LaterFits(num, e - low, e0 - low, m);
    }
    LeadingDigits(num, low, m, e);
  }

  lemma DeliversElsewhere(m: nat, e: int, d: Deci, e0: int)
    requires e > e0 && e0 <= 127 && 10 * m >= Pow10(26) && d.e == e0
    ensures !Delivers(m, e, d.s, Ok(d))
  {
    ThreeLimbs();
    hide Pow10, Scaled;
    if e > 127 {
      ScaledTen(m, e - 127);
    }
  }

  lemma DeliveredHere(num: nat, low: int, m: nat, e: int, d: Deci)
    requires -128 <= low <= e <= 127 && IsRounded(num, Pow10(e - low), m)
    requires m < Pow10(26) && d.e == e && d.Sig() == m && (e > low ==> !Fits(num, e - 1 - low))
    ensures Delivered(num, low, d.s, Ok(d))
  {
    hide Pow10, IsRounded, Fits, Deci.Sig;
    assert RoundsTo(num, low, m, e);
    assert Delivers(m, e, d.s, Ok(d));
  }

  lemma NotDelivered(num: nat, low: int, e: int, d: Deci)
    requires -128 <= low <= e <= 127 && d.e == e && !Fits(num, e - low)
    ensures !Delivered(num, low, d.s, Ok(d))
  {
    hide Pow10, RoundsTo, Delivers, Fits;
    if Delivered(num, low, d.s, Ok(d)) {
      var m: nat, e': int :| RoundsTo(num, low, m, e') && Delivers(m, e', d.s, Ok(d));
      NotFitting(num, low, m, e', e);
      DeliversElsewhere(m, e', d, e);
    }
  }

  /** What the branch stores is the exact difference rounded once exactly when that fits. */
  lemma DifferenceDelivered(num: nat, low: int, m: nat, e: int, d: Deci)
    requires -128 <= low <= e <= 127 && IsRounded(num, Pow10(e - low), m)
    requires d.e == e && (m < Pow10(26) ==> d.Sig() == m)
    requires e > low ==> !Fits(num, e - 1 - low)
    ensures Delivered(num, low, d.s, Ok(d)) <==> Fits(num, e - low)
  {
    hide Pow10, IsRounded, Limit, Delivered, Fits, RoundsTo, Deci.Sig;
    FitsBelowLimit(num, e - low, m);
    FitsIff(num, e - low);
    if m < Pow10(26) {
      DeliveredHere(num, low, m, e, d);
    } else {
      NotDelivered(num, low, e, d);
    }
  }

  lemma FarArithmetic(p: nat, t: nat, vh: nat, y: nat)
    requires p > 0 && vh >= t && y < t
    ensures (10 * p) * vh - y >= p * t
  {
    assert (10 * p) * vh == 10 * (p * vh);
    MulMono(p, t, vh);
    MulMono(t, 1, p);
  }

  lemma FarApart(x: nat, y: nat, vh: nat, s: nat)
    requires s > 0 && x == Pow10(s) * vh && vh >= Pow10(26) && y < Pow10(26)
    ensures x - y >= Pow10(s - 1) * Pow10(26)
  {
    assert Pow10(s) == 10 * Pow10(s - 1);
    hide Pow10;
    FarArithmetic(Pow10(s - 1), Pow10(26), vh, y);
  }

  lemma LongHigh(hi: Deci, lo: Deci, vh: nat, vl: nat, e: int, t: int)
    requires hi.Valid() && lo.Valid() && hi.e >= lo.e
    requires Aligned(hi.Sig(), hi.e, lo.Sig(), lo.e, vh, vl, e, t)
    ensures e > lo.e ==> Units(hi, lo.e) >= Units(lo, lo.e) && !Fits(Units(hi, lo.e) - Units(lo, lo.e), e - 1 - lo.e)
  {
    hide Pow10, Val, Fits, Limit, Units;
    if e > lo.e {
      UnitsOwn(lo);
      UnitsAligned(hi, lo.e, e);
      LimitUpper(e - 1 - lo.e);
      FarApart(Units(hi, lo.e), lo.Sig(), vh, e - lo.e);
      FitsIff(Units(hi, lo.e) - lo.Sig(), e - 1 - lo.e);
    }
  }

  /** Where digits were cut off, one digit fewer would not have done. */
  lemma DifferenceLong(a: Deci, b: Deci, va: nat, vb: nat, e: int, ta: int, tb: int)
    requires a.Valid() && b.Valid() && Compared(a, b, va, vb, e, ta, tb)
    ensures e > LowerExponent(a, b) ==> !Fits(ExactDifference(a, b), e - 1 - LowerExponent(a, b))
  {
    hide Scaled, Pow10, Fits, Truncates, Deci.Sig;
    if a.e >= b.e {
      LongHigh(a, b, va, vb, e, tb);
    } else {
      LongHigh(b, a, vb, va, e, ta);
    }
  }

  /** The subtraction: |sa - sb| with the sign of the larger, and the flag turned accordingly. */
  method SubtractThree(sc: array<Limb>, sa: array<Limb>, sb: array<Limb>) returns (swapped: bool)
    requires sc.Length == 4 && sa.Length >= 4 && sb.Length >= 4 && sc != sa && sc != sb
    modifies sc
    ensures swapped <==> Val(sa[..3]) < Val(sb[..3])
    ensures Val(sc[..3]) == if swapped then Val(sb[..3]) - Val(sa[..3]) else Val(sa[..3]) - Val(sb[..3])
  {
    assert sc[0..3] == sc[..3] && sa[0..3] == sa[..3];
    ValBound(sb[..3]);
    hide Val, PowB;
    swapped := MSubtract(3, sc, 0, sa, 0, sb);
    assert sc[0..3] == sc[..3];
    if swapped {
      MNegate(3, sc);
    }
  }

  lemma {:induction false} ValAtLeast(s: seq<Limb>, n: nat)
    requires n <= |s|
    ensures Val(s) >= Val(s[..n])
  {
    ValSplit(s, 0, n, |s|);
    assert s[0..|s|] == s && s[0..n] == s[..n];
  }

  lemma {:induction false} AddOneBack(after: seq<Limb>, before: seq<Limb>, n: nat)
    requires |before| == |after| && n <= |before| && Val(before) == Val(after) + 1 && Val(before[..n]) > 0
    ensures Val(after[..n]) == Val(before[..n]) - 1
  {
    hide Val, PowB;
    ValSplit(before, 0, n, |before|);
    ValSplit(after, 0, n, |after|);
    assert before[0..|before|] == before && after[0..|after|] == after;
    assert before[0..n] == before[..n] && after[0..n] == after[..n];
    ValBound(before[..n]);
    ValBound(after[..n]);
    SplitUnique(PowB(n), Val(before[n..|before|]), Val(before[..n]) - 1, Val(after[n..|after|]), Val(after[..n]));
  }

  /** `m_subtract_1(a, 1)` on a positive three-limb significand. */
  method SubtractOne(a: array<Limb>)
    requires a.Length == 4 && Val(a[..3]) > 0
    modifies a
    ensures Val(a[..3]) == old(Val(a[..3])) - 1
  {
    ghost var before := a[..];
    assert before[..3] == a[..3];
    ValAtLeast(before, 3);
    hide Val, PowB;
    MSubtract1(a, 1);
    AddOneBack(a[..], before, 3);
    assert a[..][..3] == a[..3];
  }

  /** The two rounding lines of the branch. */
  method RoundThree(sc: array<Limb>, t: int, ghost num: nat, ghost p: nat)
    requires sc.Length == 4 && Val(sc[..3]) < 2 * Pow10(27) && DifferenceState(num, p, Val(sc[..3]), t)
    modifies sc
    ensures IsRounded(num, p, Val(sc[..3]))
  {
    RoundDifference(num, p, Val(sc[..3]), t);
    ThreeLimbs();
    PowersFit();
    ValParity(sc[..3]);
    hide Val, PowB, Pow10, IsRounded, DifferenceState;
    if t == 3 || (t == 2 && sc[0] % 2 == 1) {
      AddOne(sc, 3);
    } else if t == -3 || (t == -2 && sc[0] % 2 == 1) {
      SubtractOne(sc);
    }
  }

  lemma LowBound(a: Deci, b: Deci)
    requires a.Valid() && b.Valid()
    ensures -128 <= LowerExponent(a, b)
  {
  }

  /** Stores a significand in the fields of a deci, the highest limb in 23 bits. */
  method StoreFields(sc: array<Limb>, s: bool, e: int) returns (d: Deci)
    requires sc.Length == 4
    ensures d.s == s && d.e == e && (Val(sc[..3]) < Pow10(26) ==> d.Sig() == Val(sc[..3]))
  {
    d := Deci(sc[0], sc[1], sc[2] % FIELD, s, e);
    if Val(sc[..3]) < Pow10(26) {
      FieldHolds(sc[..3]);
      assert sc[..3] == [d.m0, d.m1, d.m2];
    }
  }

  /** `deci_add` of two decis with opposite signs: the exact difference rounded once if and only if,
      at the exponent of the alignment, it has at most 26 digits. */
  method DeciAddOpposite(a: Deci, b: Deci) returns (r: Outcome)
    requires a.Valid() && b.Valid() && a.s != b.s
    ensures LowerExponent(a, b) <= CommonExponent(a, b)
    ensures Delivered(ExactDifference(a, b), LowerExponent(a, b), DifferenceSign(a, b), r) <==>
      Fits(ExactDifference(a, b), CommonExponent(a, b) - LowerExponent(a, b))
  {
    hide Val, Pow10, PowB, Aligned, Fits, Deci.Sig, DifferenceState, ExactDifference, DifferenceSign, LowerExponent,
      CommonExponent, Delivered;
    var sc := new Limb[4];
    var sa := ToLimbs(a, 4);
    var sb := ToLimbs(b, 4);
    var e, ta, tb := MakeComparable(sa, a.e, sb, b.e);
    ghost var va, vb, low := Val(sa[..3]), Val(sb[..3]), LowerExponent(a, b);
    SubtractAligned(a, b, va, vb, e, ta, tb);
    DifferenceLong(a, b, va, vb, e, ta, tb);
    BelowTop27(a, b, va, vb, e, ta, tb);
    LowBound(a, b);
    var swapped := SubtractThree(sc, sa, sb);
    var t := if swapped then -(ta - tb) else ta - tb;
    RoundThree(sc, t, ExactDifference(a, b), Pow10(e - low));
    var d := StoreFields(sc, if swapped then b.s else a.s, e);
    DifferenceDelivered(ExactDifference(a, b), low, Val(sc[..3]), e, d);
    r := Ok(d);
  }

  lemma TooLongSigs(a: Deci, b: Deci)
    requires a == Deci(2583691264, 3333688202, 4878909, false, 1) && b == Deci(1, 0, 0, true, 0)
    ensures a.Sig() == 9 * Pow10(25) && b.Sig() == 1
  {
    ValThree([a.m0, a.m1, a.m2]);
    ValThree([b.m0, b.m1, b.m2]);
    hide Val;
    PowersFit();
    assert Pow10(26) == 10 * Pow10(25);
  }

  lemma TooLongUnits()
    ensures Pow10(26) == 10 * Pow10(25) && Limit(0) == Pow10(26)
    ensures Scaled(9 * Pow10(25), 1) == 9 * Pow10(26) && Scaled(1, 0) == 1
    ensures AlignExponent(9 * Pow10(25), 1, 0) == 0
  {
    assert Pow10(1) == 10 * Pow10(0) == 10;
    assert AlignExponent(10 * (9 * Pow10(25)), 0, 0) == 0;
  }

  /**
   * 9 * 10^26 - 1: the larger operand, 9 * 10^25 at exponent 1, is aligned with 27 digits, and the difference keeps
   * them.
   */
  lemma DifferenceTooLong(a: Deci, b: Deci)
    requires a == Deci(2583691264, 3333688202, 4878909, false, 1) && b == Deci(1, 0, 0, true, 0)
    ensures a.Valid() && b.Valid() && a.s != b.s
    ensures !Fits(ExactDifference(a, b), CommonExponent(a, b) - LowerExponent(a, b))
  {
    hide Deci.Sig, Pow10, Fits, Limit, Scaled, AlignExponent;
    TooLongSigs(a, b);
    TooLongUnits();
    assert ExactDifference(a, b) == 9 * Pow10(26) - 1;
    FitsIff(9 * Pow10(26) - 1, 0);
  }
}

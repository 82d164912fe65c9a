/** Scaling and multiplication of deci values (f-deci.c): `m_ldexp` and `deci_multiply`. */
module DeciArith {
  import opened Arithmetic
  import opened Limbs
  import opened Rounding
  import opened DeciShift
  import opened DeciSpec

  lemma {:induction false} ValInjective(s: seq<Limb>, t: seq<Limb>)
    requires |s| == |t| && Val(s) == Val(t)
    ensures s == t
  {
    if |s| > 0 {
      assert s[0] == t[0];
      ValInjective(s[1..], t[1..]);
      assert s == [s[0]] + s[1..] && t == [t[0]] + t[1..];
    }
  }

  lemma {:induction false} ValParity(s: seq<Limb>)
    requires |s| > 0
    ensures Val(s) % 2 == s[0] % 2
  {
    assert BASE * Val(s[1..]) == 2 * (0x8000_0000 * Val(s[1..]));
  }

  /** Adding below the n-th limb leaves the limbs above alone. */
  lemma {:induction false} AddOneLow(before: seq<Limb>, after: seq<Limb>, n: nat)
    requires |before| == |after| && n <= |before|
    requires Val(before[..n]) + 1 < PowB(n)
    requires Val(after) == Val(before) + 1
    ensures Val(after[..n]) == Val(before[..n]) + 1
    ensures after[n..] == before[n..]
  {
    hide Val, PowB;
    ValSplit(before, 0, n, |before|);
    ValSplit(after, 0, n, |after|);
    assert before[0..|before|] == before && after[0..|after|] == after;
    assert before[0..n] == before[..n] && after[0..n] == after[..n];
    assert before[n..|before|] == before[n..] && after[n..|after|] == after[n..];
    ValBound(after[..n]);
    SplitUnique(PowB(n), Val(before[n..]), Val(before[..n]) + 1, Val(after[n..]), Val(after[..n]));
    ValInjective(before[n..], after[n..]);
  }

  lemma RoomAlgebra(p: nat, x: nat, q: nat, y: nat)
    requires x < q && y + 1 < p
    ensures y + p * x + 1 < p * q
  {
    MulMono(p, x + 1, q);
  }

  lemma {:induction false} AddOneRoom(s: seq<Limb>, n: nat)
    requires n <= |s| && Val(s[..n]) + 1 < PowB(n)
    ensures Val(s) + 1 < PowB(|s|)
  {
    hide Val, PowB;
    ValSplit(s, 0, n, |s|);
    assert s[0..|s|] == s && s[0..n] == s[..n];
    ValBound(s[n..|s|]);
    PowBAdd(n, |s| - n);
    RoomAlgebra(PowB(n), Val(s[n..|s|]), PowB(|s| - n), Val(s[..n]));
  }

  /** `m_add_1(a, 1)` on a significand of n limbs with room for the carry. */
  method AddOne(a: array<Limb>, n: nat)
    requires n <= a.Length && Val(a[..n]) + 1 < PowB(n)
    modifies a
    ensures a[n..] == old(a[n..])
    ensures Val(a[..n]) == old(Val(a[..n])) + 1
  {
    ghost var before := a[..];
    assert before[..n] == a[..n] && before[n..] == a[n..];
    AddOneRoom(before, n);
    assert a[0..] == a[..];
    MAdd1(a, 0, 1);
    assert a[0..] == a[..];
    AddOneLow(before, a[..], n);
    assert a[..][..n] == a[..n] && a[..][n..] == a[n..];
  }

  /** The rounding step shared by the operations: adds one unit where the flag asks for it. */
  method RoundSignificand(a: array<Limb>, n: nat, t: int, ghost num: nat, ghost den: nat)
    requires 0 < n <= a.Length && Val(a[..n]) + 1 < PowB(n)
    requires Truncates(num, den, Val(a[..n]), t)
    modifies a
    ensures a[n..] == old(a[n..])
    ensures IsRounded(num, den, Val(a[..n]))
  {
    RoundByFlag(num, den, Val(a[..n]), t);
    ValParity(a[..n]);
    if t == 3 || (t == 2 && a[0] % 2 == 1) {
      AddOne(a, n);
    }
  }

  /** Three limbs are enough for 27 digits and the carries on the way. */
  lemma ThreeLimbs()
    ensures 10 * Pow10(26) == Pow10(27) && Pow10(27) + Pow10(27) < PowB(3)
    ensures Pow10(26) > 1
  {
    PowersFit();
  }

  // ---- m_ldexp ----

  /** The zero a significand underflows to. */
  method ClearThree(a: array<Limb>)
    requires a.Length >= 3
    modifies a
    ensures Val(a[..3]) == 0
    ensures a[3..] == old(a[3..])
  {
    a[0], a[1], a[2] := 0, 0, 0;
    ValZero(a[..3]);
  }

  lemma UnderflowAlgebra(num: nat, den: nat, v: nat, r: nat, top: nat, p: nat)
    requires num == den * v + r && r < den && v < top && 10 * top <= p
    ensures 2 * num < den * p
  {
    MulMono(den, v + 1, top);
    MulMono(den, 10 * top, p);
    assert den * (v + 1) == den * v + den;
    assert den * (10 * top) == 10 * (den * top);
  }

  /** A significand of at most 26 digits rounds to zero when 27 or more are cut off. */
  lemma Underflows(num: nat, den: nat, v: nat, t: int, s: nat)
    requires Truncates(num, den, v, t) && v < Pow10(26) && s >= 27
    ensures IsRounded(num, Scaled(den, s), 0)
  {
    var r: nat :| IsTail(num, den, v, t, r);
    Pow10Mono(27, s);
    assert Pow10(27) == 10 * Pow10(26);
    hide Pow10;
    UnderflowAlgebra(num, den, v, r, Pow10(26), Pow10(s));
  }

  lemma SmallerAlgebra(num: nat, den: nat, v: nat, r: nat, v': nat, r': nat, p: nat)
    requires p > 0 && num == den * v + r && r < den && num == (den * (10 * p)) * v' + r'
    ensures 10 * v' <= v
  {
    assert (den * (10 * p)) * v' == den * (p * (10 * v'));
    assert den * (v + 1) == den * v + den;
    MulCancelLess(den, p * (10 * v'), v + 1);
    MulMono(10 * v', 1, p);
    assert (10 * v') * p == p * (10 * v');
  }

  /** A shift of a truncated significand keeps it below 26 digits. */
  lemma ShiftedSmaller(num: nat, den: nat, v: nat, t: int, s: nat, v': nat, t': int)
    requires Truncates(num, den, v, t) && Truncates(num, Scaled(den, s), v', t')
    requires s > 0
    ensures 10 * v' <= v
  {
    var r: nat :| IsTail(num, den, v, t, r);
    var r': nat :| IsTail(num, Scaled(den, s), v', t', r');
    var p := Pow10(s - 1);
    assert Pow10(s) == 10 * p;
    hide Pow10;
    SmallerAlgebra(num, den, v, r, v', r', p);
  }

  lemma RoundedAtMost(num: nat, den: nat, v: nat, t: int)
    requires Truncates(num, den, v, t)
    ensures forall m: nat :: IsRounded(num, den, m) ==> m <= v + 1
  {
    RoundByFlag(num, den, v, t);
    forall m: nat | IsRounded(num, den, m)
      ensures m <= v + 1
    {
      RoundedUnique(num, den, m, if RoundsUp(v, t) then v + 1 else v);
    }
  }

  /** The part of `m_ldexp` below the exponent range: shifts right and rounds, or underflows to zero. */
  method LdexpRight(a: array<Limb>, f: int, t: int, ghost num: nat, ghost den: nat) returns (f': int)
    requires a.Length >= 4 && Val(a[..3]) < Pow10(26) && f < -128
    requires Truncates(num, den, Val(a[..3]), t)
    modifies a
    ensures f' == -128 || (f' == 0 && Val(a[..3]) == 0)
    ensures f < -154 ==> f' == 0
    ensures Val(a[..3]) < Pow10(26)
    ensures IsRounded(num, Scaled(den, -128 - f), Val(a[..3]))
  {
    ThreeLimbs();
    if f < -154 {
      Underflows(num, den, Val(a[..3]), t, -128 - f);
      ClearThree(a);
      return 0;
    }
    ghost var v := Val(a[..3]);
    hide Val, PowB, Pow10, Truncates, IsRounded;
    var t' := Dsr(3, a, -128 - f, t, num, den);
    ShiftedSmaller(num, den, v, t, -128 - f, Val(a[..3]), t');
    RoundedAtMost(num, Scaled(den, -128 - f), Val(a[..3]), t');
    RoundSignificand(a, 3, t', num, Scaled(den, -128 - f));
    return -128;
  }

  /** A number below 2^96 occupies its three lowest limbs. */
  lemma {:induction false} LowThree(s: seq<Limb>)
    requires |s| >= 3 && Val(s) < PowB(3)
    ensures Val(s[..3]) == Val(s) && forall k :: 3 <= k < |s| ==> s[k] == 0
  {
    ValSplit(s, 0, 3, |s|);
    assert s[0..|s|] == s && s[0..3] == s[..3];
    if Val(s[3..|s|]) > 0 {
      MulMono(PowB(3), 1, Val(s[3..|s|]));
    }
    ValZero(s[3..|s|]);
    forall k | 3 <= k < |s|
      ensures s[k] == 0
    {
      assert s[k] == s[3..|s|][k - 3];
    }
  }

  lemma {:induction false} FourthZero(s: seq<Limb>)
    requires |s| == 4 && s[3] == 0
    ensures Val(s) == Val(s[..3]) && PowB(3) < PowB(4)
  {
    assert s == s[..3] + [0];
    ValPush(s[..3], 0);
  }

  /** `dsl(3, a, shift)` on a four-limb work area, when the result has at most 27 digits. */
  method ShiftThree(a: array<Limb>, shift: nat)
    requires a.Length >= 4 && a[3] == 0 && Scaled(Val(a[..3]), shift) < Pow10(27)
    modifies a
    ensures a[3] == 0 && Val(a[..3]) == Scaled(old(Val(a[..3])), shift)
    ensures a[4..] == old(a[4..])
  {
    hide Val, PowB, Pow10, Scaled;
    ThreeLimbs();
    FourthZero(a[..4]);
    assert a[..4][..3] == a[..3];
    Dsl(3, a, shift, 4);
    LowThree(a[..4]);
    assert a[..4][..3] == a[..3] && a[..4][3] == a[3];
  }

  lemma TenTimes(v: nat)
    requires v < Pow10(26)
    ensures v < Pow10(27)
  {
    Pow10Mono(26, 27);
  }

  lemma ScaledTooBig(v: nat, s: nat)
    requires v > 0 && s >= 26
    ensures Scaled(v, s) >= Pow10(26)
  {
    Pow10Mono(26, s);
    hide Pow10;
    MulMono(Pow10(s), 1, v);
  }

  lemma PowerScale(v: nat, f: int)
    requires 127 < f < 153
    ensures Pow10(153 - f) <= v <==> Scaled(v, f - 127) >= Pow10(26)
  {
    Pow10Add(153 - f, f - 127);
    hide Pow10;
    ScaleCompare(v, Pow10(153 - f), Pow10(f - 127));
  }

  /** The part of `m_ldexp` above the exponent range: scales the significand up, if 26 digits are enough. */
  method LdexpLeft(a: array<Limb>, f: int) returns (overflow: bool)
    requires a.Length >= 4 && a[3] == 0 && 0 < Val(a[..3]) < Pow10(26) && f > 127
    modifies a
    ensures overflow <==> Scaled(old(Val(a[..3])), f - 127) >= Pow10(26)
    ensures !overflow ==> Val(a[..3]) == Scaled(old(Val(a[..3])), f - 127)
  {
    hide Val, PowB, Pow10, Scaled, P;
    ghost var v := Val(a[..3]);
    if f >= 153 {
      ScaledTooBig(v, f - 127);
      return true;
    }
    PowerRow(153 - f);
    PowerScale(v, f);
    var c := MCmp(3, P(153 - f), a[..]);
    assert P(153 - f)[..3] == P(153 - f) && a[..][..3] == a[..3];
    if c <= 0 {
      return true;
    }
    TenTimes(Scaled(v, f - 127));
    ShiftThree(a, f - 127);
    return false;
  }

  /** Clamping a very negative scale changes nothing: the value underflows either way. */
  lemma Underflow281(num: nat, den: nat, v: nat, t: int, f: int, e: int)
    requires Truncates(num, den, v, t) && v < Pow10(26) && f <= 127
    ensures e < -281 ==> IsRounded(num, Scaled(den, -128 - (f + e)), 0)
  {
    if e < -281 {
      Underflows(num, den, v, t, -128 - (f + e));
    }
  }

  /** `m_ldexp`: scales a * 10^f by 10^e, rounding below the exponent range and scaling up above it. */
  method MLdexp(a: array<Limb>, f: int, e: int, t: int, ghost num: nat, ghost den: nat)
    returns (f': int, overflow: bool)
    requires a.Length >= 4 && a[3] == 0 && Val(a[..3]) < Pow10(26) && -128 <= f <= 127
    requires f + e < -128 ==> Truncates(num, den, Val(a[..3]), t)
    modifies a
    ensures -128 <= f' <= 127
    ensures old(Val(a[..3])) == 0 ==> !overflow && Val(a[..3]) == 0
    ensures old(Val(a[..3])) > 0 && f + e < -128 ==>
      && !overflow && (f' == -128 || (f' == 0 && Val(a[..3]) == 0))
      && Val(a[..3]) < Pow10(26) && IsRounded(num, Scaled(den, -128 - (f + e)), Val(a[..3]))
    ensures old(Val(a[..3])) > 0 && -128 <= f + e <= 127 ==>
      !overflow && f' == f + e && Val(a[..3]) == old(Val(a[..3]))
    ensures old(Val(a[..3])) > 0 && f + e > 127 ==>
      && (overflow <==> Scaled(old(Val(a[..3])), f + e - 127) >= Pow10(26))
      && (!overflow ==> f' == 127 && Val(a[..3]) == Scaled(old(Val(a[..3])), f + e - 127))
  {
    hide Val, Pow10, Scaled, IsRounded, Truncates;
    var zero := MIsZero(3, a[..]);
    assert a[..][..3] == a[..3];
    if zero {
      return 0, false;
    }
    if e >= 281 {
      ScaledTooBig(Val(a[..3]), f + e - 127);
      return f, true;
    }
    if f + e < -128 {
      Underflow281(num, den, Val(a[..3]), t, f, e);
    }
    var e' := if e < -281 then -282 else e;
    f' := f + e';
    if f' < -128 {
      f' := LdexpRight(a, f', t, num, den);
      return f', false;
    }
    if f' > 127 {
      overflow := LdexpLeft(a, f');
      return 127, overflow;
    }
    return f', false;
  }

  // ---- Delivering a result ----

  /** Assembles a deci from the three low limbs of a significand. */
  method FromLimbs(a: array<Limb>, sign: bool, e: int) returns (d: Deci)
    requires a.Length >= 3
    ensures d == Deci(a[0], a[1], a[2], sign, e) && d.Sig() == Val(a[..3])
  {
    assert a[..3] == [a[0], a[1], a[2]];
    return Deci(a[0], a[1], a[2], sign, e);
  }

  /** The local array that holds the significand of a deci, with zero limbs above. */
  method ToLimbs(d: Deci, n: nat) returns (a: array<Limb>)
    requires n >= 3
    ensures fresh(a) && a.Length == n
    ensures Val(a[..3]) == d.Sig() && forall k :: 3 <= k < n ==> a[k] == 0
  {
    a := new Limb[n](i => 0);
    a[0], a[1], a[2] := d.m0, d.m1, d.m2;
    assert a[..3] == [d.m0, d.m1, d.m2];
  }

  lemma FinishOverflow(num: nat, exp: int, v: nat, e: int, sign: bool)
    requires e > 127 && RoundsTo(num, exp, v, e) && v > 0 && Scaled(v, e - 127) >= Pow10(26)
    ensures Delivered(num, exp, sign, Overflow)
  {
    assert Delivers(v, e, sign, Overflow);
  }

  lemma FinishOk(num: nat, exp: int, v: nat, e: int, d: Deci, f: int)
    requires d.e == f && -128 <= f <= 127 && e >= exp && v < Pow10(26)
    requires e >= -128 ==> RoundsTo(num, exp, v, e)
    requires e < -128 && v == 0 ==> num == 0
    requires v == 0 ==> d.Sig() == 0
    requires v > 0 && e < -128 ==>
      && (f == -128 || d.Sig() == 0) && d.Sig() < Pow10(26)
      && IsRounded(num, Scaled(Pow10(e - exp), -128 - e), d.Sig())
    requires v > 0 && -128 <= e <= 127 ==> f == e && d.Sig() == v
    requires v > 0 && e > 127 ==> Scaled(v, e - 127) < Pow10(26) && f == 127 && d.Sig() == Scaled(v, e - 127)
    ensures Delivered(num, exp, d.s, Ok(d))
  {
    if e >= -128 {
      assert Delivers(v, e, d.s, Ok(d));
    } else {
      Pow10Add(e - exp, -128 - e);
      if v == 0 {
        assert IsRounded(0, Pow10(-128 - exp), 0);
      }
      assert RoundsTo(num, exp, d.Sig(), -128);
      assert Delivers(d.Sig(), -128, d.s, Ok(d));
    }
  }

  /** The tail of `deci_multiply` and `string_to_deci`: scales by `m_ldexp` and assembles the result.
      At or above the lowest exponent the significand is already rounded; below it, it is truncated. */
  method Finish(a: array<Limb>, e: int, t: int, sign: bool, ghost num: nat, ghost exp: int) returns (r: Outcome)
    requires a.Length >= 4 && a[3] == 0 && Val(a[..3]) < Pow10(26)
    requires e >= exp
    requires e >= -128 ==> RoundsTo(num, exp, Val(a[..3]), e)
    requires e < -128 ==> Truncates(num, Pow10(e - exp), Val(a[..3]), t) && (Val(a[..3]) == 0 ==> num == 0)
    modifies a
    ensures Delivered(num, exp, sign, r)
  {
    ghost var v := Val(a[..3]);
    hide Val, Pow10, Scaled, RoundsTo, Delivers, Delivered, Truncates, IsRounded;
    var f, overflow := MLdexp(a, 0, e, t, num, if e >= exp then Pow10(e - exp) else 1);
    if overflow {
      FinishOverflow(num, exp, v, e, sign);
      return Overflow;
    }
    var d := FromLimbs(a, sign, f);
    r := Ok(d);
    FinishOk(num, exp, v, e, d, f);
  }

  // ---- deci_multiply ----

  /** Without a shift the value is its own rounding; with the minimal shift the rounding fits. */
  lemma MinShiftRounds(num: nat, exp: int, s: nat, m: nat)
    requires IsMinShift(num, s) && IsRounded(num, Pow10(s), m) && exp + s >= -128
    ensures RoundsTo(num, exp, m, exp + s)
  {
    hide IsRounded, Pow10, Limit, Fits;
    FitsBelowLimit(num, s, m);
    if s > 0 {
      FitsIff(num, s - 1);
    }
  }

  lemma TruncatedBelow(num: nat, p: nat, v: nat, r: nat, top: nat)
    requires num == p * v + r && r < p && num < p * top
    ensures v < top
    ensures num >= p ==> v > 0
  {
    MulCancelLess(p, v, top);
    if v == 0 {
      assert p * v == 0;
    }
  }

  lemma LimitUpper(s: nat)
    ensures Limit(s) <= Pow10(s) * Pow10(26)
  {
    Pow10Add(s, 26);
  }

  lemma LimitLower(s: nat)
    requires s > 0
    ensures Limit(s - 1) >= Pow10(s)
  {
    Pow10Mono(s, 25 + s);
    if s > 1 {
      Pow10Mono(s - 2, 24 + s);
      assert Pow10(25 + s) == 10 * Pow10(24 + s);
      Pow10Mono(s, 24 + s);
    }
  }

  /** Truncated by the minimal shift, a significand keeps 1 to 26 digits. */
  lemma MinShiftTruncates(num: nat, s: nat, v: nat, t: int)
    requires IsMinShift(num, s) && Truncates(num, Pow10(s), v, t)
    ensures v < Pow10(26)
    ensures s > 0 ==> v > 0
  {
    hide Pow10, Limit;
    var r: nat :| IsTail(num, Pow10(s), v, t, r);
    LimitUpper(s);
    TruncatedBelow(num, Pow10(s), v, r, Pow10(26));
    if s > 0 {
      LimitLower(s);
    }
  }

  lemma ProductLess(x: nat, y: nat, top: nat)
    requires x < top && y < top
    ensures x * y < top * top
  {
    MulMono(x, y, top);
    MulMono(top, x + 1, top);
  }

  /** The product of two significands. */
  ghost function Product(x: nat, y: nat): nat {
    x * y
  }

  lemma ProductBelow(x: nat, y: nat)
    requires x < Pow10(26) && y < Pow10(26)
    ensures Product(x, y) < Pow10(52)
  {
    Pow10Add(26, 26);
    hide Pow10;
    ProductLess(x, y, Pow10(26));
  }

  lemma ScaledOne(s: nat)
    ensures Scaled(1, s) == Pow10(s)
  {
  }

  /** Cuts the product off at 26 digits and rounds it, unless the exponent is still below range. */
  method CutProduct(sc: array<Limb>, shift: nat, exp: int, ghost num: nat) returns (t: int)
    requires sc.Length >= 6 && Val(sc[..6]) == num && shift > 0 && IsMinShift(num, shift)
    modifies sc
    ensures sc[3] == 0 && Val(sc[..3]) < Pow10(26)
    ensures exp + shift >= -128 ==> RoundsTo(num, exp, Val(sc[..3]), exp + shift)
    ensures exp + shift < -128 ==> Truncates(num, Pow10(shift), Val(sc[..3]), t) && Val(sc[..3]) > 0
  {
    TruncatesExact(num);
    ThreeLimbs();
    hide Val, PowB, Pow10, Scaled, RoundsTo, Truncates, IsRounded, IsMinShift;
    t := Dsr(6, sc, shift, 0, num, 1);
    ScaledOne(shift);
    MinShiftTruncates(num, shift, Val(sc[..6]), t);
    LowThree(sc[..6]);
    assert sc[..6][..3] == sc[..3] && sc[..6][3] == sc[3];
    if exp + shift >= -128 {
      RoundSignificand(sc, 3, t, num, Pow10(shift));
      MinShiftRounds(num, exp, shift, Val(sc[..3]));
      RoundsToBelow(num, exp, Val(sc[..3]), exp + shift);
    }
  }

  lemma NoShiftNeeded(num: nat, exp: int)
    requires IsMinShift(num, 0)
    ensures num < Pow10(26) && Truncates(num, Pow10(0), num, 0)
    ensures exp >= -128 ==> RoundsTo(num, exp, num, exp)
  {
    TruncatesExact(num);
    assert Pow10(0) == 1 && IsRounded(num, 1, num);
    if exp >= -128 {
      MinShiftRounds(num, exp, 0, num);
    }
  }

  /** Normalises the double significand: the minimal shift, rounded unless the exponent is below range. */
  method NormaliseProduct(sc: array<Limb>, exp: int, ghost num: nat) returns (e: int, t: int)
    requires sc.Length == 7 && Val(sc[..6]) == num < Pow10(52)
    modifies sc
    ensures sc[3] == 0 && Val(sc[..3]) < Pow10(26) && e >= exp
    ensures e >= -128 ==> RoundsTo(num, exp, Val(sc[..3]), e)
    ensures e < -128 ==> Truncates(num, Pow10(e - exp), Val(sc[..3]), t) && (Val(sc[..3]) == 0 ==> num == 0)
  {
    hide Val, PowB, Pow10, Scaled, RoundsTo, Truncates, IsRounded, IsMinShift;
    assert sc[..][..6] == sc[..6];
    var shift := MinShiftRight(sc[..]);
    e := exp + shift;
    t := 0;
    if shift > 0 {
      t := CutProduct(sc, shift, exp, num);
    } else {
      NoShiftNeeded(num, exp);
      ThreeLimbs();
      LowThree(sc[..6]);
      assert sc[..6][..3] == sc[..3] && sc[..6][3] == sc[3];
    }
  }

  method DeliverProduct(sc: array<Limb>, exp: int, sign: bool, ghost num: nat) returns (r: Outcome)
    requires sc.Length == 7 && Val(sc[..6]) == num < Pow10(52)
    modifies sc
    ensures Delivered(num, exp, sign, r)
  {
    hide Val, PowB, Pow10, RoundsTo, Delivered, Truncates;
    var e, t := NormaliseProduct(sc, exp, num);
    r := Finish(sc, e, t, sign, num, exp);
  }

  lemma ValidBelow(d: Deci)
    requires d.Valid()
    ensures d.Sig() < Pow10(26)
  {
  }

  lemma ProductIs(x: nat, y: nat)
    ensures Product(x, y) == x * y
  {
  }

  method MultiplySignificands(a: Deci, b: Deci) returns (sc: array<Limb>)
    requires a.Valid() && b.Valid()
    ensures fresh(sc) && sc.Length == 7
    ensures Val(sc[..6]) == Product(a.Sig(), b.Sig()) < Pow10(52)
  {
    hide Val, PowB, Pow10, Deci.Sig, Deci.Valid, Product;
    ValidBelow(a);
    ValidBelow(b);
    ProductBelow(a.Sig(), b.Sig());
    var sa := ToLimbs(a, 3);
    var sb := ToLimbs(b, 3);
    sc := new Limb[7];
    MMultiply(sc, 3, sa, 3, sb);
    ProductIs(a.Sig(), b.Sig());
  }

  /** `deci_multiply`: the exact product, rounded once. */
  method DeciMultiply(a: Deci, b: Deci) returns (r: Outcome)
    requires a.Valid() && b.Valid()
    ensures Delivered(Product(a.Sig(), b.Sig()), a.e + b.e, a.s != b.s, r)
  {
    hide Val, PowB, Pow10, Delivered, Product;
    var s := (!a.s && b.s) || (a.s && !b.s);
    var sc := MultiplySignificands(a, b);
    r := DeliverProduct(sc, a.e + b.e, s, Product(a.Sig(), b.Sig()));
  }
}

/** What a deci operation must return: the exact decimal value rounded once, half to even, to the
finest exponent at which at most 26 digits remain and the exponent is at least -128. */
module DeciSpec {
  import opened Arithmetic
  import opened Limbs
  import opened Rounding
  import opened DeciShift

  /** A money value: three significand limbs, a sign (true for nonpositive) and an exponent. */
  datatype Deci = Deci(m0: Limb, m1: Limb, m2: Limb, s: bool, e: int) {
    ghost function Sig(): nat {
      Val([m0, m1, m2])
    }

    ghost predicate Valid() {
      Sig() < Pow10(26) && -128 <= e <= 127
    }
  }

  /** The result of an operation, or the error the source raises. */
  datatype Outcome = Ok(d: Deci) | Overflow | ZeroDivide

  /** Cutting s digits off num leaves at most 26 digits after rounding. */
  ghost predicate Fits(num: nat, s: nat) {
    exists m: nat :: IsRounded(num, Pow10(s), m) && m < Pow10(26)
  }

  /** num * 10^exp, rounded once, is m * 10^e. */
  ghost predicate RoundsTo(num: nat, exp: int, m: nat, e: int) {
    && e >= exp && e >= -128
    && IsRounded(num, Pow10(e - exp), m)
    && m < Pow10(26)
    && (e > exp && e > -128 ==> !Fits(num, e - 1 - exp))
  }

  /** The outcome that carries the rounded value m * 10^e: a zero, the value itself, the value scaled
      up to the largest exponent, or an overflow when 26 digits are not enough for that. */
  ghost predicate Delivers(m: nat, e: int, sign: bool, r: Outcome) {
    if m == 0 then r.Ok? && r.d.Valid() && r.d.Sig() == 0 && r.d.s == sign
    else if e <= 127 then r.Ok? && r.d.Valid() && r.d.Sig() == m && r.d.s == sign && r.d.e == e
    else if Scaled(m, e - 127) < Pow10(26) then
      r.Ok? && r.d.Valid() && r.d.Sig() == Scaled(m, e - 127) && r.d.s == sign && r.d.e == 127
    else r == Overflow
  }

  /** r is the exact value num * 10^exp with the given sign, rounded once. */
  ghost predicate Delivered(num: nat, exp: int, sign: bool, r: Outcome) {
    exists m: nat, e: int :: RoundsTo(num, exp, m, e) && Delivers(m, e, sign, r)
  }

  lemma PowersFit()
    ensures Pow10(26) == 100_000_000_000_000_000_000_000_000
    ensures Pow10(27) == 1_000_000_000_000_000_000_000_000_000
    ensures PowB(3) == 0x1_0000_0000_0000_0000_0000_0000
  {
    PowerRow(26);
    ValThree(P(26));
    assert PowB(1) == BASE && PowB(2) == BASE * BASE;
    assert Pow10(27) == 10 * Pow10(26);
  }

  // ---- The digits that fit ----

  lemma {:induction false} RoundedExists(n: nat, d: nat) returns (m: nat)
    requires d > 0
    ensures IsRounded(n, d, m)
  {
    var q, r := n / d, n % d;
    assert n == d * q + r;
    assert IsTail(n, d, q, Tail(r, d), r);
    RoundByFlag(n, d, q, Tail(r, d));
    m := if RoundsUp(q, Tail(r, d)) then q + 1 else q;
  }

  lemma LimitParts(s: nat)
    requires s > 0
    ensures Pow10(s) == 2 * (5 * Pow10(s - 1)) && Pow10(26) == 2 * (5 * Pow10(25))
    ensures Limit(s) == Pow10(26) * Pow10(s) - 5 * Pow10(s - 1)
  {
    Pow10Add(26, s);
  }

  lemma LimitCompare(n: nat, d: nat, m: nat, top: nat, h: nat, t: nat)
    requires d == 2 * h && h > 0 && top == 2 * t && t > 0 && IsRounded(n, d, m)
    ensures m < top <==> n < top * d - h
  {
    assert d * top == top * d;
    assert d * (top - 1) == d * top - d;
    if m >= top {
      MulMono(d, top, m);
    } else if m <= top - 2 {
      MulMono(d, m, top - 2);
      assert d * (top - 2) == d * top - 2 * d;
    }
  }

  lemma NothingCut(n: nat, m: nat)
    requires IsRounded(n, Pow10(0), m)
    ensures m == n && Limit(0) == Pow10(26)
  {
  }

  /** Rounding to s fewer digits leaves at most 26 exactly below the limit. */
  lemma FitsBelowLimit(n: nat, s: nat, m: nat)
    requires IsRounded(n, Pow10(s), m)
    ensures m < Pow10(26) <==> n < Limit(s)
  {
    hide IsRounded, Pow10, Limit;
    if s == 0 {
      NothingCut(n, m);
    } else {
      LimitParts(s);
      LimitCompare(n, Pow10(s), m, Pow10(26), 5 * Pow10(s - 1), 5 * Pow10(25));
    }
  }

  lemma FitsIff(n: nat, s: nat)
    ensures Fits(n, s) <==> n < Limit(s)
  {
    hide IsRounded, Pow10, Limit;
    var m := RoundedExists(n, Pow10(s));
    FitsBelowLimit(n, s, m);
    if Fits(n, s) {
      var m': nat :| IsRounded(n, Pow10(s), m') && m' < Pow10(26);
      RoundedUnique(n, Pow10(s), m, m');
    }
  }

  lemma LimitGrows(s: nat)
    ensures Limit(s) <= Limit(s + 1)
  {
    Pow10Mono(s, 26 + s);
    if s > 0 {
      assert Pow10(s) == 10 * Pow10(s - 1);
    }
  }

  lemma {:induction false} LimitMono(s: nat, s': nat)
    requires s <= s'
    ensures Limit(s) <= Limit(s')
  {
    if s < s' {
      LimitMono(s, s' - 1);
      LimitGrows(s' - 1);
    }
  }

  lemma RoundsToOrder(num: nat, exp: int, m: nat, e: int, m': nat, e': int)
    requires RoundsTo(num, exp, m, e) && RoundsTo(num, exp, m', e')
    ensures e >= e'
  {
    hide Pow10, IsRounded, Limit, Fits;
    if e < e' {
      FitsBelowLimit(num, e - exp, m);
      LimitMono(e - exp, e' - 1 - exp);
      FitsIff(num, e' - 1 - exp);
    }
  }

  /** The rounded value of an exact one is unique. */
  lemma RoundsToUnique(num: nat, exp: int, m: nat, e: int, m': nat, e': int)
    requires RoundsTo(num, exp, m, e) && RoundsTo(num, exp, m', e')
    ensures e == e' && m == m'
  {
    if e < e' {
      RoundsToOrder(num, exp, m, e, m', e');
    } else if e' < e {
      RoundsToOrder(num, exp, m', e', m, e);
    }
    RoundedUnique(num, Pow10(e - exp), m, m');
  }

  lemma {:induction false} Pow10Large(s: nat)
    ensures Pow10(s) > s
  {
    if s > 0 {
      Pow10Large(s - 1);
    }
  }

  lemma LimitLarge(s: nat)
    ensures Limit(s) > s
  {
    Pow10Large(s);
    Pow10Mono(s, 26 + s);
    if s > 0 {
      assert Pow10(s) == 10 * Pow10(s - 1);
    }
  }

  /** Every exact value has a rounded one. */
  lemma RoundsToExists(num: nat, exp: int) returns (m: nat, e: int)
    ensures RoundsTo(num, exp, m, e)
  {
    e := if exp < -128 then -128 else exp;
    hide IsRounded, Pow10, Limit;
    while !Fits(num, e - exp)
      invariant e >= exp && e >= -128
      invariant e > exp && e > -128 ==> !Fits(num, e - 1 - exp)
      decreases num - (e - exp)
    {
      FitsIff(num, e - exp);
      LimitLarge(e - exp);
      e := e + 1;
    }
    m :| IsRounded(num, Pow10(e - exp), m) && m < Pow10(26);
  }

  lemma DeliversOverflow(m: nat, e: int, sign: bool, r: Outcome)
    requires Delivers(m, e, sign, r)
    ensures r.Overflow? <==> e > 127 && Scaled(m, e - 127) >= Pow10(26)
  {
  }

  lemma RoundsToBelow(num: nat, exp: int, m: nat, e: int)
    requires RoundsTo(num, exp, m, e)
    ensures m < Pow10(26)
  {
  }

  lemma ScaleCompare(x: nat, y: nat, p: nat)
    requires p > 0
    ensures x >= y <==> x * p >= y * p
  {
    if x >= y {
      MulMono(p, y, x);
    } else {
      MulMono(p, x + 1, y);
    }
  }

  lemma ScaleUp(m: nat, x: nat, p: nat, top: nat)
    requires p > 0
    ensures m * x >= top <==> m * (x * p) >= top * p
  {
    assert m * (x * p) == (m * x) * p;
    ScaleCompare(m * x, top, p);
  }

  lemma BelowTop(m: nat, p: nat, top: nat, q: nat)
    requires m < top && 0 < p <= q
    ensures m * p < top * q
  {
    MulMono(p, m + 1, top);
    MulMono(top, p, q);
  }

  lemma TopScale(m: nat, e: int)
    requires m < Pow10(26)
    ensures e > 127 && Scaled(m, e - 127) >= Pow10(26) <==> e >= 0 && Scaled(m, e) >= Pow10(153)
  {
    Pow10Add(26, 127);
    hide Pow10;
    if e > 127 {
      Pow10Add(e - 127, 127);
      ScaleUp(m, Pow10(e - 127), Pow10(127), Pow10(26));
    } else if e >= 0 {
      Pow10Mono(e, 127);
      BelowTop(m, Pow10(e), Pow10(26), Pow10(127));
    }
  }

  /** The outcome is determined by the exact value: it overflows exactly when the rounded value is
      10^153 or more. */
  lemma DeliveredOverflow(num: nat, exp: int, sign: bool, r: Outcome, m: nat, e: int)
    requires Delivered(num, exp, sign, r) && RoundsTo(num, exp, m, e)
    ensures Delivers(m, e, sign, r)
    ensures r.Overflow? <==> e >= 0 && Scaled(m, e) >= Pow10(153)
  {
    hide IsRounded, Pow10, RoundsTo, Delivers;
    var m': nat, e': int :| RoundsTo(num, exp, m', e') && Delivers(m', e', sign, r);
    RoundsToUnique(num, exp, m, e, m', e');
    DeliversOverflow(m, e, sign, r);
    RoundsToBelow(num, exp, m, e);
    TopScale(m, e);
  }
}

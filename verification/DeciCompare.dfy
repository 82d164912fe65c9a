/** Aligning two decis on a common exponent, and the comparisons built on it (f-deci.c). */
module DeciCompare {
  import opened Arithmetic
  import opened Limbs
  import opened Rounding
  import opened DeciShift
  import opened DeciSpec
  import opened DeciArith

  /** What aligning leaves: the operand of the higher exponent ea shifted left to e without loss, the
      other one truncated to e.  If anything can have been cut off, the first has 27 digits. */
  ghost predicate Aligned(va: nat, ea: int, vb: nat, eb: int, va': nat, vb': nat, e: int, t: int) {
    && eb <= e <= ea
    && va' == Scaled(va, ea - e) < Pow10(27)
    && Truncates(vb, Pow10(e - eb), vb', t)
    && (e > eb ==> va' >= Pow10(26))
  }

  lemma LessTimes(x: nat, y: nat, p: nat)
    requires x < y && p > 0
    ensures x * p < y * p
  {
    MulMono(p, x + 1, y);
  }

  lemma ScaledBetween(v: nat, x: nat, y: nat, n: nat)
    requires x <= v < y
    ensures x * Pow10(n) <= Scaled(v, n) < y * Pow10(n)
  {
    hide Pow10;
    MulMono(Pow10(n), x, v);
    LessTimes(v, y, Pow10(n));
  }

  lemma ScaledMono(v: nat, m: nat, n: nat)
    requires m <= n
    ensures Scaled(v, m) <= Scaled(v, n)
  {
    Pow10Mono(m, n);
    hide Pow10;
    MulMono(v, Pow10(m), Pow10(n));
  }

  /** The larger exponent comes down by the free digits of its significand plus one, at most. */
  lemma AlignLeft(v: nat, room: nat, gap: nat, shift: nat)
    requires room <= 25 && Pow10(25 - room) <= v < Pow10(26 - room)
    requires gap > 0 && shift == if room + 1 < gap then room + 1 else gap
    ensures Scaled(v, shift) < Pow10(27)
    ensures shift < gap ==> Scaled(v, shift) >= Pow10(26)
  {
    hide Pow10, Scaled;
    Pow10Add(25 - room, room + 1);
    Pow10Add(26 - room, room + 1);
    Pow10Mono(shift, room + 1);
    ScaledBetween(v, Pow10(25 - room), Pow10(26 - room), room + 1);
    ScaledMono(v, shift, room + 1);
  }

  lemma UnderflowTruncates(v: nat, s: nat)
    requires v < Pow10(26) && s >= 27
    ensures Truncates(v, Pow10(s), 0, if v == 0 then 0 else 1)
  {
    Pow10Mono(27, s);
    assert Pow10(27) == 10 * Pow10(26);
    assert IsTail(v, Pow10(s), 0, if v == 0 then 0 else 1, v);
  }

  lemma NothingCut(v: nat)
    ensures Truncates(v, Pow10(0), v, 0) && Scaled(v, 0) == v
  {
    TruncatesExact(v);
    assert Pow10(0) == 1;
  }

  lemma ScaledZero(n: nat)
    ensures Scaled(0, n) == 0
  {
  }

  /** The right shift of `make_comparable`, or its underflow beyond 26 digits. */
  method AlignRight(b: array<Limb>, shift: nat) returns (t: int)
    requires b.Length >= 4 && Val(b[..3]) < Pow10(26) && shift > 0
    modifies b
    ensures b[3..] == old(b[3..])
    ensures Truncates(old(Val(b[..3])), Pow10(shift), Val(b[..3]), t)
  {
    ghost var v := Val(b[..3]);
    hide Val, Pow10, Scaled, Truncates;
    if shift > 26 {
      UnderflowTruncates(v, shift);
      var zero := MIsZero(3, b[..]);
      assert b[..][..3] == b[..3];
      ClearThree(b);
      return if zero then 0 else 1;
    }
    TruncatesExact(v);
    t := Dsr(3, b, shift, 0, v, 1);
    ScaledOne(shift);
  }

  /** `make_comparable` once the operands are ordered by exponent, ea > eb. */
  method Align(a: array<Limb>, ea: int, b: array<Limb>, eb: int) returns (e: int, t: int)
    requires a != b && a.Length >= 4 && b.Length >= 4 && a[3] == 0 && b[3] == 0
    requires Val(a[..3]) < Pow10(26) && Val(b[..3]) < Pow10(26) && ea > eb
    modifies a, b
    ensures a[3] == 0 && b[3] == 0
    ensures Aligned(old(Val(a[..3])), ea, old(Val(b[..3])), eb, Val(a[..3]), Val(b[..3]), e, t)
  {
    hide Val, PowB, Pow10, Scaled, Truncates;
    ghost var va, vb := Val(a[..3]), Val(b[..3]);
    TenTimes(0);
    NothingCut(vb);
    var zero := MIsZero(3, a[..]);
    assert a[..][..3] == a[..3];
    if zero {
      ScaledZero(ea - eb);
      TenTimes(va);
      return eb, 0;
    }
    var room := MaxShiftLeft(a[..]);
    var shift1 := if room + 1 < ea - eb then room + 1 else ea - eb;
    AlignLeft(va, room, ea - eb, shift1);
    ShiftThree(a, shift1);
    e := ea - shift1;
    if e == eb {
      return e, 0;
    }
    t := AlignRight(b, e - eb);
    assert b[3] == b[3..][0];
  }

  /** `make_comparable`: brings two significands to one exponent; ta and tb say what was cut off. */
  method MakeComparable(a: array<Limb>, ea: int, b: array<Limb>, eb: int) returns (e: int, ta: int, tb: int)
    requires a != b && a.Length >= 4 && b.Length >= 4 && a[3] == 0 && b[3] == 0
    requires Val(a[..3]) < Pow10(26) && Val(b[..3]) < Pow10(26)
    modifies a, b
    ensures a[3] == 0 && b[3] == 0
    ensures ea >= eb ==>
      (ta == 0 && Aligned(old(Val(a[..3])), ea, old(Val(b[..3])), eb, Val(a[..3]), Val(b[..3]), e, tb))
    ensures ea < eb ==>
      (tb == 0 && Aligned(old(Val(b[..3])), eb, old(Val(a[..3])), ea, Val(b[..3]), Val(a[..3]), e, ta))
  {
    ta, tb := 0, 0;
    if ea == eb {
      NothingCut(Val(a[..3]));
      NothingCut(Val(b[..3]));
      TenTimes(Val(a[..3]));
      return ea, 0, 0;
    }
    hide Val, Pow10, Aligned;
    if ea < eb {
      e, ta := Align(b, eb, a, ea);
    } else {
      e, tb := Align(a, ea, b, eb);
    }
  }

  ghost function LowerExponent(a: Deci, b: Deci): int {
    if a.e >= b.e then b.e else a.e
  }

  // ---- Comparisons ----

  /** The absolute value of a deci in units of 10^-128, an exact integer for every exponent. */
  ghost function Magnitude(d: Deci): nat
    requires d.e >= -128
  {
    Scaled(d.Sig(), d.e + 128)
  }

  /** The value of a deci in units of 10^-128. */
  ghost function Amount(d: Deci): int
    requires d.e >= -128
  {
    if d.s then 0 - Magnitude(d) else Magnitude(d)
  }

  lemma ScaledAdd(v: nat, m: nat, n: nat)
    ensures Scaled(v, m + n) == Scaled(Scaled(v, m), n)
  {
    Pow10Add(m, n);
    hide Pow10;
    assert v * (Pow10(m) * Pow10(n)) == (v * Pow10(m)) * Pow10(n);
  }

  lemma ScaledOrder(x: nat, y: nat, n: nat)
    ensures x < y <==> Scaled(x, n) < Scaled(y, n)
  {
    hide Pow10;
    ScaleCompare(x, y, Pow10(n));
  }

  lemma NotCut(v: nat, v': nat, t: int)
    requires Truncates(v, Pow10(0), v', t)
    ensures v' == v && t == 0
  {
    assert Pow10(0) == 1;
    var r: nat :| IsTail(v, Pow10(0), v', t, r);
  }

  lemma CutSmall(v: nat, s: nat, v': nat, t: int)
    requires s > 0 && v < Pow10(26) && Truncates(v, Pow10(s), v', t)
    ensures v' + 1 < Pow10(26)
  {
    NothingCut(v);
    ScaledOne(s);
    assert Pow10(0) == 1;
    ShiftedSmaller(v, 1, v, 0, s, v', t);
    PowersFit();
  }

  lemma BeyondReach(v: nat, m: nat, n: nat)
    requires v < Pow10(26) && m < n
    ensures Scaled(v, m) < Scaled(Pow10(26), n)
  {
    Pow10Mono(m, n);
    hide Pow10;
    MulMono(v, Pow10(m), Pow10(n));
    LessTimes(v, Pow10(26), Pow10(n));
  }

  /** The significands compared after alignment and rounding order as the values do. */
  lemma AlignedOrder(va: nat, ea: int, vb: nat, eb: int, va': nat, vb': nat, e: int, t: int, rb: nat)
    requires -128 <= eb <= ea && vb < Pow10(26)
    requires Aligned(va, ea, vb, eb, va', vb', e, t)
    requires rb == if RoundsUp(vb', t) then vb' + 1 else vb'
    ensures va' == rb <==> Scaled(va, ea + 128) == Scaled(vb, eb + 128)
    ensures va' < rb <==> Scaled(va, ea + 128) < Scaled(vb, eb + 128)
  {
    hide Pow10, Scaled;
    ScaledAdd(va, ea - e, e + 128);
    if e == eb {
      NotCut(vb, vb', t);
      ScaledOrder(va', vb, e + 128);
      ScaledOrder(vb, va', e + 128);
    } else {
      CutSmall(vb, e - eb, vb', t);
      ScaledAdd(vb, 0, eb + 128);
      BeyondReach(vb, eb + 128, e + 128);
      ScaledOrder(va', Pow10(26), e + 128);
    }
  }

  /** The rounding of the comparisons: at most one of the two significands was cut. */
  method RoundPair(sa: array<Limb>, ta: int, sb: array<Limb>, tb: int)
    requires sa != sb && sa.Length >= 4 && sb.Length >= 4
    requires Val(sa[..3]) < Pow10(27) && Val(sb[..3]) < Pow10(27) && (ta == 0 || tb == 0)
    modifies sa, sb
    ensures Val(sa[..3]) == old(Val(sa[..3])) + if RoundsUp(old(Val(sa[..3])), ta) then 1 else 0
    ensures Val(sb[..3]) == old(Val(sb[..3])) + if RoundsUp(old(Val(sb[..3])), tb) then 1 else 0
  {
    ThreeLimbs();
    ValParity(sa[..3]);
    ValParity(sb[..3]);
    hide Val, Pow10, PowB;
    if ta == 3 || (ta == 2 && sa[0] % 2 == 1) {
      AddOne(sa, 3);
    } else if tb == 3 || (tb == 2 && sb[0] % 2 == 1) {
      AddOne(sb, 3);
    }
  }

  ghost predicate Compared(a: Deci, b: Deci, va: nat, vb: nat, e: int, ta: int, tb: int) {
    && (a.e >= b.e ==> ta == 0 && Aligned(a.Sig(), a.e, b.Sig(), b.e, va, vb, e, tb))
    && (a.e < b.e ==> tb == 0 && Aligned(b.Sig(), b.e, a.Sig(), a.e, vb, va, e, ta))
  }

  lemma TruncatedLess(n: nat, d: nat, v: nat, t: int)
    requires Truncates(n, d, v, t)
    ensures v <= n
  {
    var r: nat :| IsTail(n, d, v, t, r);
    MulMono(v, 1, d);
    assert d * v == v * d;
  }

  lemma BelowTop27(a: Deci, b: Deci, va: nat, vb: nat, e: int, ta: int, tb: int)
    requires a.Valid() && b.Valid() && Compared(a, b, va, vb, e, ta, tb)
    ensures va < Pow10(27) && vb < Pow10(27)
  {
    if a.e >= b.e {
      TruncatedLess(b.Sig(), Pow10(e - b.e), vb, tb);
      TenTimes(b.Sig());
    } else {
      TruncatedLess(a.Sig(), Pow10(e - a.e), va, ta);
      TenTimes(a.Sig());
    }
  }

  lemma ScaledNonzero(v: nat, m: nat, n: nat)
    ensures Scaled(v, m) == 0 <==> Scaled(v, n) == 0
  {
    hide Pow10;
    if v > 0 {
      MulMono(v, 1, Pow10(m));
      MulMono(v, 1, Pow10(n));
    }
  }

  lemma ComparedOrder(a: Deci, b: Deci, va: nat, vb: nat, e: int, ta: int, tb: int, ra: nat, rb: nat)
    requires a.Valid() && b.Valid() && Compared(a, b, va, vb, e, ta, tb)
    requires ra == va + (if RoundsUp(va, ta) then 1 else 0) && rb == vb + (if RoundsUp(vb, tb) then 1 else 0)
    ensures ra < rb <==> Magnitude(a) < Magnitude(b)
    ensures ra > rb <==> Magnitude(a) > Magnitude(b)
    ensures ra == rb ==> (ra == 0 <==> Magnitude(a) == 0)
  {
    hide Scaled, Pow10, Truncates;
    if a.e >= b.e {
      AlignedOrder(a.Sig(), a.e, b.Sig(), b.e, va, vb, e, tb, rb);
      ScaledNonzero(a.Sig(), a.e - e, a.e + 128);
    } else {
      AlignedOrder(b.Sig(), b.e, a.Sig(), a.e, vb, va, e, ta, ra);
      ScaledNonzero(b.Sig(), b.e - e, b.e + 128);
    }
  }

  /** What the comparisons do before looking at signs: the rounded significands order as the magnitudes. */
  method CompareSignificands(a: Deci, b: Deci) returns (c: int, zero: bool)
    requires a.Valid() && b.Valid()
    ensures c < 0 <==> Magnitude(a) < Magnitude(b)
    ensures c > 0 <==> Magnitude(a) > Magnitude(b)
    ensures c == 0 ==> (zero <==> Magnitude(a) == 0)
  {
    hide Val, Pow10, PowB, Scaled, Aligned, RoundsUp, Deci.Sig;
    var sa := ToLimbs(a, 4);
    var sb := ToLimbs(b, 4);
    var e, ta, tb := MakeComparable(sa, a.e, sb, b.e);
    ghost var va, vb := Val(sa[..3]), Val(sb[..3]);
    BelowTop27(a, b, va, vb, e, ta, tb);
    RoundPair(sa, ta, sb, tb);
    c := MCmp(3, sa[..], sb[..]);
    zero := MIsZero(3, sa[..]);
    assert sa[..][..3] == sa[..3] && sb[..][..3] == sb[..3];
    ComparedOrder(a, b, va, vb, e, ta, tb, Val(sa[..3]), Val(sb[..3]));
  }

  /** `deci_is_equal`: equality of the exact values; both zeros are equal. */
  method DeciIsEqual(a: Deci, b: Deci) returns (r: bool)
    requires a.Valid() && b.Valid()
    ensures r <==> Amount(a) == Amount(b)
  {
    hide Magnitude;
    var c, zero := CompareSignificands(a, b);
    return c == 0 && (a.s == b.s || zero);
  }

  lemma MagnitudeZero(d: Deci)
    requires d.e >= -128
    ensures Magnitude(d) == 0 <==> d.Sig() == 0
  {
    ScaledNonzero(d.Sig(), 0, d.e + 128);
    assert Scaled(d.Sig(), 0) == d.Sig() * Pow10(0);
    assert Pow10(0) == 1;
  }

  /** `deci_is_lesser_or_equal`: the order of the exact values. */
  method DeciIsLesserOrEqual(a: Deci, b: Deci) returns (r: bool)
    requires a.Valid() && b.Valid()
    ensures r <==> Amount(a) <= Amount(b)
  {
    MagnitudeZero(a);
    MagnitudeZero(b);
    hide Magnitude;
    if a.s && !b.s {
      return true;
    }
    if !a.s && b.s {
      var za := MIsZero(3, [a.m0, a.m1, a.m2]);
      var zb := MIsZero(3, [b.m0, b.m1, b.m2]);
      assert [a.m0, a.m1, a.m2][..3] == [a.m0, a.m1, a.m2] && [b.m0, b.m1, b.m2][..3] == [b.m0, b.m1, b.m2];
      return za && zb;
    }
    var c, zero := CompareSignificands(a, b);
    return if a.s then c >= 0 else c <= 0;
  }
}

/** `deci_mod` (f-deci.c): the remainder of two decis by square-and-multiply modulo the divisor. */
module DeciMod {
  import opened Arithmetic
  import opened Limbs
  import opened LongDivision
  import opened Rounding
  import opened DeciShift
  import opened DeciSpec
  import opened DeciArith
  import opened DeciCompare

  // ---- Remainders ----

  lemma {:induction false} PowerOfTen(n: nat)
    ensures Power(10, n) == Pow10(n)
  {
    if n > 0 {
      PowerOfTen(n - 1);
    }
  }

  lemma {:induction false} PowerSquare(x: nat, n: nat)
    ensures Power(x * x, n) == Power(x, 2 * n)
  {
    if n > 0 {
      PowerSquare(x, n - 1);
      MulAssoc(x, x, Power(x, 2 * (n - 1)));
      assert Power(x, 2 * n) == x * Power(x, 2 * n - 1) == x * (x * Power(x, 2 * n - 2));
    }
  }

  lemma ModFactorAlgebra(x: nat, y: nat, d: nat, q: nat, r: nat, q': nat, r': nat)
    requires x == d * q + r && r * y == d * q' + r'
    ensures x * y == d * (q * y + q') + r'
  {
    MulAssoc(d, q, y);
  }

  /** A factor may be reduced before multiplying. */
  lemma ModFactor(x: nat, y: nat, d: nat)
    requires d > 0
    ensures ((x % d) * y) % d == (x * y) % d
  {
    DivBounds(x, d);
    var q, r := x / d, x % d;
    var s := r * y;
    DivBounds(s, d);
    ModFactorAlgebra(x, y, d, q, r, s / d, s % d);
    DivModIs(x * y, d, q * y + s / d, s % d);
  }

  lemma ModPowerAlgebra(x: nat, y: nat, p: nat)
    ensures (y * x) * p == x * (y * p) == y * (x * p)
  {
  }

  lemma {:induction false} ModPower(x: nat, n: nat, y: nat, d: nat)
    requires d > 0
    ensures (y * Power(x % d, n)) % d == (y * Power(x, n)) % d
  {
    if n > 0 {
      var p, p' := Power(x, n - 1), Power(x % d, n - 1);
      ModPower(x, n - 1, y * (x % d), d);
      assert (y * (x % d)) * p' == y * ((x % d) * p');
      ModFactor(x, y * p, d);
      ModPowerAlgebra(x % d, y, p);
      ModPowerAlgebra(x, y, p);
    }
  }

  /** What the loop computes: x * y^e modulo d. */
  ghost function Residue(x: nat, y: nat, e: nat, d: nat): nat
    requires d > 0
  {
    (x * Power(y, e)) % d
  }

  lemma ResidueOdd(x: nat, y: nat, e: nat, d: nat)
    requires d > 0 && e > 0
    ensures Residue((x * y) % d, y, e - 1, d) == Residue(x, y, e, d)
  {
    ModFactor(x * y, Power(y, e - 1), d);
    MulAssoc(x, y, Power(y, e - 1));
  }

  lemma ResidueEven(x: nat, y: nat, e: nat, d: nat)
    requires d > 0 && e % 2 == 0
    ensures Residue(x, (y * y) % d, e / 2, d) == Residue(x, y, e, d)
  {
    ModPower(y * y, e / 2, x, d);
    PowerSquare(y, e / 2);
  }

  // ---- When the divisions of the loop are exact ----

  ghost function LimbsOf(v: nat, n: nat): (s: seq<Limb>)
    ensures |s| == n
  {
    if n == 0 then [] else [v % BASE] + LimbsOf(v / BASE, n - 1)
  }

  lemma {:induction false} LimbsOfVal(s: seq<Limb>)
    ensures LimbsOf(Val(s), |s|) == s
  {
    if |s| > 0 {
      DivModIs(Val(s), BASE, Val(s[1..]), s[0]);
      LimbsOfVal(s[1..]);
      assert s == [s[0]] + s[1..];
    }
  }

  /** `m_divide` of an n-limb dividend by the nb-limb divisor d is exact. */
  ghost predicate DivisionExact(v: nat, n: nat, d: nat, nb: nat) {
    nb == 1 || (0 < nb <= n && LimbsOf(d, nb)[nb - 1] > 0 && EstimatesClose(LimbsOf(v, n), LimbsOf(d, nb)))
  }

  /** In the division of v by the nb-limb divisor d no estimate but the last can fail. */
  ghost predicate LastAlone(v: nat, n: nat, d: nat, nb: nat) {
    1 < nb <= n && LimbsOf(d, nb)[nb - 1] > 0 && HigherClose(LimbsOf(v, n), LimbsOf(d, nb))
  }

  /** Every division of the loop from state x, y, e on is exact. */
  ghost predicate LoopExact(x: nat, y: nat, e: nat, d: nat, nb: nat)
    requires d > 0
    decreases e
  {
    if e == 0 then true
    else if e % 2 == 1 then
      DivisionExact(x * y, nb + nb, d, nb) && LoopExact((x * y) % d, y, e - 1, d, nb)
    else DivisionExact(y * y, nb + nb, d, nb) && LoopExact(x, (y * y) % d, e / 2, d, nb)
  }

  /** With a one-limb divisor every division is exact. */
  lemma {:induction false} OneLimbExact(x: nat, y: nat, e: nat, d: nat)
    requires d > 0
    ensures LoopExact(x, y, e, d, 1)
    decreases e
  {
    if e > 0 {
      if e % 2 == 1 {
        OneLimbExact((x * y) % d, y, e - 1, d);
      } else {
        OneLimbExact(x, (y * y) % d, e / 2, d);
      }
    }
  }

  lemma QuotientIsMod(a: nat, b: nat, q: nat, r: nat)
    requires b > 0
    ensures IsQuotient(a, b, q, r) ==> r == a % b
  {
    if IsQuotient(a, b, q, r) {
      DivModIs(a, b, q, r);
    }
  }

  /** `m_divide` into r, in terms of the divisor's value. */
  method Remainder(p: array<Limb>, r: array<Limb>, n: nat, a: array<Limb>, nb: nat, sb: array<Limb>)
    requires 0 < nb <= 3 && nb <= n <= 6
    requires n <= a.Length && n <= p.Length && nb <= r.Length && nb <= sb.Length
    requires p != r && p != sb && r != sb
    requires 0 < sb[nb - 1] && (nb > 1 ==> sb[nb - 1] < 0x8000_0000)
    modifies p, r
    ensures Val(sb[..nb]) > 0
    ensures DivisionExact(old(Val(a[..n])), n, Val(sb[..nb]), nb) ==>
      Val(r[..nb]) == old(Val(a[..n])) % Val(sb[..nb])
    ensures LastAlone(old(Val(a[..n])), n, Val(sb[..nb]), nb) ==>
      DivisionExact(old(Val(a[..n])), n, Val(sb[..nb]), nb) || Val(r[..nb]) > old(Val(a[..n])) % Val(sb[..nb])
  {
    hide Val, PowB, LimbsOf, EstimatesClose, HigherClose, Normaliser;
    ghost var v, d := Val(a[..n]), Val(sb[..nb]);
    LimbsOfVal(a[..n]);
    LimbsOfVal(sb[..nb]);
    LeadingLimb(sb[..nb]);
    LeadingPositive(d, PowB(nb - 1));
    MDivide(p, r, n, a, nb, sb);
    QuotientIsMod(v, d, Val(p[..n - nb + 1]), Val(r[..nb]));
  }

  /** One multiplication modulo the divisor: r := (x * y) mod sb. */
  method MultiplyMod(p: array<Limb>, r: array<Limb>, x: array<Limb>, y: array<Limb>, nb: nat, sb: array<Limb>)
    requires 0 < nb <= 3 && p.Length == 6 && nb <= r.Length && nb <= x.Length && nb <= y.Length && nb <= sb.Length
    requires p != r && p != sb && r != sb && p != x && p != y
    requires 0 < sb[nb - 1] && (nb > 1 ==> sb[nb - 1] < 0x8000_0000)
    modifies p, r
    ensures Val(sb[..nb]) > 0
    ensures DivisionExact(old(Product(Val(x[..nb]), Val(y[..nb]))), nb + nb, Val(sb[..nb]), nb) ==>
      Val(r[..nb]) == old(Product(Val(x[..nb]), Val(y[..nb]))) % Val(sb[..nb])
  {
    hide Val, DivisionExact;
    MMultiply(p, nb, x, nb, y);
    hide Product;
    Remainder(p, r, nb + nb, p, nb, sb);
  }

  ghost predicate LoopInvariant(x: nat, y: nat, e: nat, d: nat, nb: nat, result: nat) {
    d > 0 && LoopExact(x, y, e, d, nb) && x < d && Residue(x, y, e, d) == result
  }

  lemma LoopOdd(x: nat, y: nat, e: nat, d: nat, nb: nat, result: nat)
    requires e % 2 == 1 && LoopInvariant(x, y, e, d, nb, result)
    ensures DivisionExact(Product(x, y), nb + nb, d, nb)
    ensures LoopInvariant(Product(x, y) % d, y, e - 1, d, nb, result)
  {
    ResidueOdd(x, y, e, d);
  }

  lemma LoopEven(x: nat, y: nat, e: nat, d: nat, nb: nat, result: nat)
    requires e % 2 == 0 && e > 0 && LoopInvariant(x, y, e, d, nb, result)
    ensures DivisionExact(Product(y, y), nb + nb, d, nb)
    ensures LoopInvariant(x, Product(y, y) % d, e / 2, d, nb, result)
  {
    ResidueEven(x, y, e, d);
  }

  lemma LoopEnd(x: nat, y: nat, d: nat, nb: nat, result: nat)
    requires LoopInvariant(x, y, 0, d, nb, result)
    ensures x == result
  {
    DivModIs(x * Power(y, 0), d, 0, x);
  }

  /** The square-and-multiply loop of `deci_mod`: sa := sa * sc^e mod sb. */
  method PowerLoop(p: array<Limb>, sa: array<Limb>, sc: array<Limb>, nb: nat, sb: array<Limb>, e0: nat,
      ghost result: nat)
    requires 0 < nb <= 3 && p.Length == 6 && sa.Length == 3 && sc.Length == 3 && nb <= sb.Length
    requires p != sa && p != sb && p != sc && sa != sb && sa != sc && sc != sb
    requires 0 < sb[nb - 1] && (nb > 1 ==> sb[nb - 1] < 0x8000_0000)
    modifies p, sa, sc
    ensures old(LoopInvariant(Val(sa[..nb]), Val(sc[..nb]), e0, Val(sb[..nb]), nb, result)) ==> Val(sa[..nb]) == result
    ensures e0 == 0 ==> sa[..] == old(sa[..])
  {
    var e := e0;
    ghost var d := Val(sb[..nb]);
    ghost var exact := LoopInvariant(Val(sa[..nb]), Val(sc[..nb]), e, d, nb, result);
    hide Val, DivisionExact, LoopInvariant, Product;
    while e > 0
      invariant 0 <= e && (e0 == 0 ==> e == 0 && sa[..] == old(sa[..]))
      invariant exact ==> LoopInvariant(Val(sa[..nb]), Val(sc[..nb]), e, d, nb, result)
      decreases e
    {
      if exact {
        if e % 2 == 1 {
          LoopOdd(Val(sa[..nb]), Val(sc[..nb]), e, d, nb, result);
        } else {
          LoopEven(Val(sa[..nb]), Val(sc[..nb]), e, d, nb, result);
        }
      }
      if e % 2 != 0 {
        MultiplyMod(p, sa, sa, sc, nb, sb);
        e := e - 1;
      } else {
        MultiplyMod(p, sc, sc, sc, nb, sb);
        e := e / 2;
      }
    }
    if exact {
      LoopEnd(Val(sa[..nb]), Val(sc[..nb]), d, nb, result);
    }
  }

  // ---- deci_mod ----

  /** The magnitudes of dividend and divisor in units of the lower exponent. */
  ghost function ModDividend(a: Deci, b: Deci): nat {
    if a.e >= b.e then Scaled(a.Sig(), a.e - b.e) else a.Sig()
  }

  ghost function ModDivisor(a: Deci, b: Deci): nat {
    if a.e >= b.e then b.Sig() else Scaled(b.Sig(), b.e - a.e)
  }

  ghost function LimbCount(d: nat): (nb: nat)
    ensures 1 <= nb <= 3
  {
    if d < BASE then 1 else if d < BASE * BASE then 2 else 3
  }

  /** Every division `deci_mod` performs on these operands is exact: always so for a divisor of one
      limb, and for longer ones as long as no quotient digit estimate overshoots. */
  ghost predicate DivisionsExact(a: Deci, b: Deci)
    requires ModDivisor(a, b) > 0
  {
    var d := ModDivisor(a, b);
    && DivisionExact(a.Sig(), 3, d, LimbCount(d))
    && LoopExact(a.Sig() % d, 10, if a.e >= b.e then a.e - b.e else 0, d, LimbCount(d))
  }

  lemma OneLimbDivisor(a: Deci, b: Deci)
    requires 0 < ModDivisor(a, b) < BASE
    ensures DivisionsExact(a, b)
  {
    OneLimbExact(a.Sig() % ModDivisor(a, b), 10, if a.e >= b.e then a.e - b.e else 0, ModDivisor(a, b));
  }

  /** The limbs in use of a three-limb divisor. */
  lemma {:induction false} LimbsInUse(s: seq<Limb>, nb: nat)
    requires |s| == 3 && Val(s) > 0
    requires nb == if s[2] != 0 then 3 else if s[1] != 0 then 2 else 1
    ensures nb == LimbCount(Val(s)) && Val(s[..nb]) == Val(s) && s[nb - 1] > 0
    ensures Val(s) < Pow10(26) && (Val(s) < 0x8000_0000_0000_0000 || Val(s) >= BASE * BASE) ==>
      (nb > 1 ==> s[nb - 1] < 0x8000_0000)
  {
    ValThree(s);
    PowersFit();
    if nb == 1 {
      ValOne(s[0]);
      assert s[..1] == [s[0]];
    } else if nb == 2 {
      assert s[..2][1..] == [s[1]];
      ValOne(s[1]);
    } else {
      assert s[..3] == s;
    }
  }

  lemma DivisorReachable(v: nat, room: nat, gap: nat)
    requires room <= 25 && Pow10(25 - room) <= v < Pow10(26 - room)
    ensures room < gap ==> Scaled(v, gap) >= Pow10(26)
    ensures room >= gap ==> Scaled(v, gap) < Pow10(26)
  {
    if room < gap {
      AlignLeft(v, room, room + 2, room + 1);
      ScaledMono(v, room + 1, gap);
    } else {
      Pow10Add(26 - room, room);
      hide Pow10;
      ScaledBetween(v, Pow10(25 - room), Pow10(26 - room), room);
      ScaledMono(v, gap, room);
    }
  }

  ghost predicate IsRemainder(a: Deci, b: Deci, d: Deci) {
    ModDivisor(a, b) > 0 && d.Sig() == ModDividend(a, b) % ModDivisor(a, b) && d.s == a.s && d.e == LowerExponent(a, b)
  }

  lemma SmallerDividend(a: Deci, b: Deci)
    requires a.e < b.e && a.Sig() < Pow10(26) <= Scaled(b.Sig(), b.e - a.e)
    ensures IsRemainder(a, b, a) && ModDivisor(a, b) >= Pow10(26)
  {
    DivModIs(a.Sig(), ModDivisor(a, b), 0, a.Sig());
  }

  /** The loop starts from the dividend's remainder and ends with the whole remainder. */
  lemma LoopStarts(x: nat, x': nat, gap: nat, d: nat, nb: nat)
    requires d > 0 && x' == x % d && LoopExact(x', 10, gap, d, nb)
    ensures LoopInvariant(x', 10, gap, d, nb, Scaled(x, gap) % d)
  {
    PowerOfTen(gap);
    ModFactor(x, Pow10(gap), d);
    DivBounds(x, d);
  }

  lemma {:induction false} TenLimbs(s: seq<Limb>)
    requires |s| > 0 && s[0] == 10 && forall k :: 1 <= k < |s| ==> s[k] == 0
    ensures Val(s) == 10
  {
    ValZero(s[1..]);
  }

  /** The remainder proper, on an aligned divisor of nb limbs: sa := sa * 10^e mod sb. */
  method ReduceAndScale(sa: array<Limb>, sb: array<Limb>, nb: nat, e: nat, ghost x: nat)
    requires sa.Length == 3 && sb.Length == 4 && 0 < nb <= 3 && sa != sb
    requires 0 < sb[nb - 1] && (nb > 1 ==> sb[nb - 1] < 0x8000_0000)
    requires Val(sa[..3]) == x
    modifies sa
    ensures Val(sb[..nb]) > 0
    ensures DivisionExact(x, 3, Val(sb[..nb]), nb) && LoopExact(x % Val(sb[..nb]), 10, e, Val(sb[..nb]), nb) ==>
      Val(sa[..nb]) == Scaled(x, e) % Val(sb[..nb])
    ensures e == 0 && LastAlone(x, 3, Val(sb[..nb]), nb) && !DivisionExact(x, 3, Val(sb[..nb]), nb) ==>
      Val(sa[..nb]) > x % Val(sb[..nb])
  {
    var p, sc := new Limb[6], new Limb[3](i => 0);
    sc[0] := 10;
    TenLimbs(sc[..nb]);
    hide Val, DivisionExact, LoopExact, LoopInvariant, Scaled;
    Remainder(p, sa, 3, sa, nb, sb);
    ghost var d := Val(sb[..nb]);
    if DivisionExact(x, 3, d, nb) && LoopExact(x % d, 10, e, d, nb) {
      LoopStarts(x, Val(sa[..nb]), e, d, nb);
    }
    PowerLoop(p, sa, sc, nb, sb, e, Scaled(x, e) % d);
  }

  /** Assembles the remainder from its nb limbs. */
  method FromRemainder(sa: array<Limb>, nb: nat, s: bool, e: int) returns (d: Deci)
    requires sa.Length == 3 && 1 <= nb <= 3
    ensures d.Sig() == Val(sa[..nb]) && d.s == s && d.e == e
  {
    d := Deci(sa[0], if nb >= 2 then sa[1] else 0, if nb == 3 then sa[2] else 0, s, e);
    ghost var limbs := [d.m0, d.m1, d.m2];
    ZerosAbove(limbs, nb);
    assert limbs[..nb] == sa[..nb];
  }

  /** Brings the divisor down to the exponent of the dividend; `small` says it then exceeds 26 digits. */
  method AlignDivisor(a: Deci, b: Deci) returns (sb: array<Limb>, small: bool)
    requires a.Valid() && b.Valid() && b.Sig() > 0
    ensures fresh(sb) && sb.Length == 4
    ensures small <==> a.e < b.e && Scaled(b.Sig(), b.e - a.e) >= Pow10(26)
    ensures !small ==> Val(sb[..3]) == ModDivisor(a, b) < Pow10(26)
  {
    hide Val, Pow10, Scaled;
    sb := ToLimbs(b, 4);
    var e := a.e - b.e;
    if e < 0 {
      assert sb[..][..3] == sb[..3];
      var room := MaxShiftLeft(sb[..]);
      DivisorReachable(b.Sig(), room, -e);
      if room < -e {
        return sb, true;
      }
      TenTimes(Scaled(b.Sig(), -e));
      ShiftThree(sb, -e);
    }
    small := false;
  }

  lemma DivisorPositive(a: Deci, b: Deci)
    ensures b.Sig() > 0 ==> ModDivisor(a, b) > 0
  {
    if a.e < b.e {
      ScaledNonzero(b.Sig(), 0, b.e - a.e);
      assert Pow10(0) == 1;
    }
  }

  lemma ExactParts(a: Deci, b: Deci)
    requires ModDivisor(a, b) > 0
    ensures DivisionsExact(a, b) <==>
      && DivisionExact(a.Sig(), 3, ModDivisor(a, b), LimbCount(ModDivisor(a, b)))
      && LoopExact(a.Sig() % ModDivisor(a, b), 10, if a.e >= b.e then a.e - b.e else 0, ModDivisor(a, b),
        LimbCount(ModDivisor(a, b)))
    ensures a.e <= b.e ==>
      (DivisionsExact(a, b) <==> DivisionExact(a.Sig(), 3, ModDivisor(a, b), LimbCount(ModDivisor(a, b))))
  {
  }

  // ---- When the estimates cannot fail, and when the last one does ----

  lemma {:induction false} LimbsOfValue(v: nat, n: nat)
    requires v < PowB(n)
    ensures Val(LimbsOf(v, n)) == v
  {
    if n > 0 {
      DivUpper(v, BASE, PowB(n - 1));
      LimbsOfValue(v / BASE, n - 1);
      ValHead(v % BASE, LimbsOf(v / BASE, n - 1));
    }
  }

  lemma {:induction false} DivisorLimbs(d: nat, nb: nat)
    requires nb > 0 && PowB(nb - 1) <= d < PowB(nb)
    ensures Val(LimbsOf(d, nb)) == d && LimbsOf(d, nb)[nb - 1] > 0
  {
    LimbsOfValue(d, nb);
    LeadingLimb(LimbsOf(d, nb));
    hide Val, PowB, LimbsOf;
    DivLower(d, PowB(nb - 1), 1);
  }

  /** A quotient of less than half a limb comes out exact. */
  lemma {:induction false} SmallQuotientExact(v: nat, n: nat, d: nat, nb: nat)
    requires 0 < nb <= n && PowB(nb - 1) <= d < PowB(nb) && v < PowB(n) && v < d * 0x8000_0000
    ensures DivisionExact(v, n, d, nb)
  {
    hide Val, PowB, LimbsOf, EstimatesClose;
    LimbsOfValue(v, n);
    DivisorLimbs(d, nb);
    SmallQuotientClose(LimbsOf(v, n), LimbsOf(d, nb));
  }

  lemma LimbCountPowers(d: nat)
    requires d < PowB(3)
    ensures PowB(1) == BASE && PowB(2) == BASE * BASE
    ensures d >= BASE ==> PowB(LimbCount(d) - 1) <= d < PowB(LimbCount(d))
  {
    assert PowB(0) == 1;
  }

  lemma SignificandPower()
    ensures Pow10(26) < PowB(3) && Pow10(26) < BASE * (0x8000_0000 * BASE)
  {
    PowersFit();
    assert PowB(0) == 1 && PowB(1) == BASE && PowB(2) == BASE * BASE;
  }

  /** With the operands at one exponent only the last estimate can fail. */
  lemma {:induction false} AlignedLastAlone(v: nat, d: nat)
    requires v < Pow10(26) && BASE <= d < Pow10(26)
    ensures LastAlone(v, 3, d, LimbCount(d))
  {
    hide Val, PowB, LimbsOf, HigherClose, Pow10;
    SignificandPower();
    LimbCountPowers(d);
    LimbsOfValue(v, 3);
    DivisorLimbs(d, LimbCount(d));
    MulMono(0x8000_0000 * BASE, BASE, d);
    SmallQuotientHigher(LimbsOf(v, 3), LimbsOf(d, LimbCount(d)));
  }

  /** The factors 10, 100, 10^4 and 10^8 that a loop of at most fifteen steps goes through. */
  ghost predicate SmallFactor(y: nat, e: nat) {
    (y == 10 && e <= 15) || (y == 100 && e <= 7) || (y == 10000 && e <= 3) || (y == 1_0000_0000 && e <= 1)
  }

  lemma SmallProduct(x: nat, y: nat, d: nat)
    requires x <= d && d > 0 && y <= 1_0000_0000
    ensures x * y < d * 0x8000_0000
  {
    MulMono(y, x, d);
    MulMono(d, y, 1_0000_0000);
  }

  lemma {:induction false} SmallProductFits(v: nat, d: nat, nb: nat)
    requires 1 < nb && d < PowB(nb) && v < d * 0x8000_0000
    ensures v < PowB(nb + nb)
  {
    assert PowB(nb + 1) == BASE * PowB(nb);
    PowBAdd(nb + 1, nb - 1);
    hide PowB;
    MulMono(PowB(nb + 1), 1, PowB(nb - 1));
  }

  lemma {:induction false} SmallStep(x: nat, y: nat, d: nat, nb: nat)
    requires 1 < nb && PowB(nb - 1) <= d < PowB(nb) && x <= d && y <= 1_0000_0000
    ensures DivisionExact(x * y, nb + nb, d, nb)
  {
    hide DivisionExact, PowB;
    SmallProduct(x, y, d);
    SmallProductFits(x * y, d, nb);
    SmallQuotientExact(x * y, nb + nb, d, nb);
  }

  lemma {:induction false} SmallLoopExact(x: nat, y: nat, e: nat, d: nat, nb: nat)
    requires 1 < nb && BASE <= d && PowB(nb - 1) <= d < PowB(nb) && x < d && SmallFactor(y, e)
    ensures LoopExact(x, y, e, d, nb)
    decreases e
  {
    hide DivisionExact, PowB;
    if e > 0 {
      if e % 2 == 1 {
        SmallStep(x, y, d, nb);
        DivBounds(x * y, d);
        SmallLoopExact((x * y) % d, y, e - 1, d, nb);
      } else {
        SmallStep(y, y, d, nb);
        DivModIs(y * y, d, 0, y * y);
        SmallLoopExact(x, y * y, e / 2, d, nb);
      }
    }
  }

  /** Exponents at most fifteen apart and a first quotient of less than half a limb make every division exact. */
  lemma {:induction false} SmallGapExact(a: Deci, b: Deci)
    requires a.Valid() && 0 < ModDivisor(a, b) < Pow10(26)
    requires a.e - b.e <= 15 && a.Sig() < ModDivisor(a, b) * 0x8000_0000
    ensures DivisionsExact(a, b)
  {
    var d := ModDivisor(a, b);
    hide ModDivisor, Pow10, PowB, DivisionExact;
    if d < BASE {
      OneLimbDivisor(a, b);
    } else {
      SignificandPower();
      LimbCountPowers(d);
      DivBounds(a.Sig(), d);
      SmallQuotientExact(a.Sig(), 3, d, LimbCount(d));
      SmallLoopExact(a.Sig() % d, 10, if a.e >= b.e then a.e - b.e else 0, d, LimbCount(d));
    }
  }

  /** At equal exponents 110680464386422734849 and 25769803775 are not divided exactly. */
  lemma {:induction false} LastEstimateFails(a: Deci, b: Deci)
    requires a.m0 == 1 && a.m1 == 4294967283 && a.m2 == 5 && b.m0 == 4294967295 && b.m1 == 5 && b.m2 == 0 && a.e == b.e
    ensures a.Sig() == 110680464386422734849 && b.Sig() == ModDivisor(a, b) == 25769803775
    ensures !DivisionsExact(a, b)
  {
    TwoHighOperands();
    EstimateTwoHigh();
    LimbsOfVal([1, 4294967283, 5]);
    LimbsOfVal([4294967295, 5]);
    ValPush([4294967295, 5], 0);
    assert [4294967295, 5] + [0] == [4294967295, 5, 0];
    hide Val, PowB, LimbsOf, EstimatesClose;
    assert Pow10(0) == 1;
  }

  lemma RemainderIs(a: Deci, b: Deci, d: Deci, e: nat)
    requires e == if a.e >= b.e then a.e - b.e else 0
    requires ModDivisor(a, b) > 0 && d.s == a.s && d.e == LowerExponent(a, b)
    ensures d.Sig() == Scaled(a.Sig(), e) % ModDivisor(a, b) <==> IsRemainder(a, b, d)
    ensures e == 0 ==> Scaled(a.Sig(), e) == a.Sig()
  {
    assert Pow10(0) == 1;
  }

  /** The part of `deci_mod` after the divisor is aligned. */
  method RemainderBy(a: Deci, b: Deci, sb: array<Limb>, e: nat, exp: int) returns (d: Deci)
    requires a.Valid() && sb.Length == 4 && Val(sb[..3]) == ModDivisor(a, b) && 0 < ModDivisor(a, b) < Pow10(26)
    requires ModDivisor(a, b) < 0x8000_0000_0000_0000 || ModDivisor(a, b) >= BASE * BASE
    requires exp == (if a.e >= b.e then b.e else a.e) && e == if a.e >= b.e then a.e - b.e else 0
    ensures ModDivisor(a, b) < BASE || DivisionsExact(a, b) ==> IsRemainder(a, b, d)
    ensures a.e - b.e <= 15 && a.Sig() < ModDivisor(a, b) * 0x8000_0000 ==> IsRemainder(a, b, d)
    ensures e == 0 && IsRemainder(a, b, d) ==> DivisionsExact(a, b)
  {
    hide Val, DivisionExact, DivisionsExact, LoopExact, LastAlone, IsRemainder, Scaled, ModDivisor, Pow10, LimbCount;
    ghost var dv := ModDivisor(a, b);
    var nb := if sb[2] != 0 then 3 else if sb[1] != 0 then 2 else 1;
    LimbsInUse(sb[..3], nb);
    assert sb[..3][..nb] == sb[..nb];
    if dv < BASE {
      OneLimbDivisor(a, b);
    } else {
      AlignedLastAlone(a.Sig(), dv);
    }
    if a.e - b.e <= 15 && a.Sig() < ModDivisor(a, b) * 0x8000_0000 {
      SmallGapExact(a, b);
    }
    var sa := ToLimbs(a, 3);
    ExactParts(a, b);
    ghost var exact := DivisionsExact(a, b);
    ReduceAndScale(sa, sb, nb, e, a.Sig());
    d := FromRemainder(sa, nb, a.s, exp);
    RemainderIs(a, b, d, e);
  }

  /** `deci_mod` of nonzero operands. */
  method ModNonzero(a: Deci, b: Deci) returns (d: Deci)
    requires a.Valid() && b.Valid() && b.Sig() > 0
    requires ModDivisor(a, b) < 0x8000_0000_0000_0000 || ModDivisor(a, b) >= BASE * BASE
    ensures ModDivisor(a, b) > 0
    ensures ModDivisor(a, b) < BASE || DivisionsExact(a, b) || ModDivisor(a, b) >= Pow10(26) ==> IsRemainder(a, b, d)
    ensures a.e - b.e <= 15 && a.Sig() < ModDivisor(a, b) * 0x8000_0000 ==> IsRemainder(a, b, d)
    ensures a.e <= b.e && ModDivisor(a, b) < Pow10(26) ==> (IsRemainder(a, b, d) <==> DivisionsExact(a, b))
  {
    DivisorPositive(a, b);
    hide Val, DivisionsExact, IsRemainder, ModDivisor, Pow10, Scaled, LowerExponent, Deci.Sig;
    var sb, small := AlignDivisor(a, b);
    if small {
      SmallerDividend(a, b);
      return a;
    }
    d := RemainderBy(a, b, sb, if a.e >= b.e then a.e - b.e else 0, if a.e >= b.e then b.e else a.e);
  }

  /** `deci_mod`: the exact remainder of the magnitudes with the sign of a, in units of the lower
      exponent.  The aligned divisor must not have bit 63 as its top bit, where the source would
      shift a limb by its full width. */
  method DeciMod(a: Deci, b: Deci) returns (r: Outcome)
    requires a.Valid() && b.Valid()
    requires ModDivisor(a, b) < 0x8000_0000_0000_0000 || ModDivisor(a, b) >= BASE * BASE
    ensures b.Sig() == 0 ==> r == ZeroDivide
    ensures b.Sig() > 0 ==> ModDivisor(a, b) > 0 && r.Ok?
    ensures b.Sig() > 0 && a.Sig() == 0 ==> r.d == Deci(0, 0, 0, false, 0)
    ensures b.Sig() > 0 && a.Sig() > 0 ==>
      && (ModDivisor(a, b) < BASE || DivisionsExact(a, b) || ModDivisor(a, b) >= Pow10(26) ==> IsRemainder(a, b, r.d))
      && (a.e - b.e <= 15 && a.Sig() < ModDivisor(a, b) * 0x8000_0000 ==> IsRemainder(a, b, r.d))
      && (a.e <= b.e && ModDivisor(a, b) < Pow10(26) ==> (IsRemainder(a, b, r.d) <==> DivisionsExact(a, b)))
  {
    assert [a.m0, a.m1, a.m2][..3] == [a.m0, a.m1, a.m2] && [b.m0, b.m1, b.m2][..3] == [b.m0, b.m1, b.m2];
    hide Val, DivisionsExact, IsRemainder, ModDivisor, Pow10, Scaled, LowerExponent;
    DivisorPositive(a, b);
    var zero := MIsZero(3, [b.m0, b.m1, b.m2]);
    if zero {
      return ZeroDivide;
    }
    zero := MIsZero(3, [a.m0, a.m1, a.m2]);
    if zero {
      return Ok(Deci(0, 0, 0, false, 0));
    }
    var d := ModNonzero(a, b);
    return Ok(d);
  }
}

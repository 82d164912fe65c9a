/** `m_divide` (f-deci.c): long division of significands with a one-limb quotient estimate and a
single add-back.

The source says the normalised estimate is off by one at most.  It can be off by two, so `MDivide`
is proved exact if and only if no estimate overshoots by more than one (`EstimatesClose`), with a
sufficient condition a caller can read off the quotient digits and a concrete overshooting input.
*/
module LongDivision {
  import opened Arithmetic
  import opened Limbs

  function Pow2(n: nat): (p: nat)
    ensures p > 0
  {
    if n == 0 then 1 else 2 * Pow2(n - 1)
  }

  lemma {:induction false} Pow2Add(m: nat, n: nat)
    ensures Pow2(m + n) == Pow2(m) * Pow2(n)
  {
    if m > 0 {
      Pow2Add(m - 1, n);
      MulAssoc(2, Pow2(m - 1), Pow2(n));
    }
  }

  lemma Pow2Limb()
    ensures Pow2(31) == 0x8000_0000 && Pow2(32) == BASE
  {
    assert Pow2(8) == 256;
    Pow2Add(8, 8);
    assert Pow2(16) == 65536;
    Pow2Add(16, 16);
  }

  /** The binary search for the most significant bit of a limb. */
  method TopBit(bm: Limb) returns (i: nat)
    requires bm > 0
    ensures i <= 31 && Pow2(i) <= bm < Pow2(i + 1)
  {
    Pow2Limb();
    i := 0;
    var j := 31;
    while i < j
      invariant 0 <= i <= j <= 31
      invariant Pow2(i) <= bm < Pow2(j + 1)
    {
      var k := (i + j + 1) / 2;
      if Pow2(k) <= bm {
        i := k;
      } else {
        j := k - 1;
      }
    }
  }

  // ---- Bit shifts across limbs ----

  /** The bits of a limb that stay in it when shifted left (k == 2^s). */
  function ShiftLow(x: Limb, k: nat): Limb {
    (x * k) % BASE
  }

  /** The bits of a limb that go to the next limb up when shifted left by s (h == 2^(32-s)). */
  function ShiftHigh(x: Limb, h: nat): nat
    requires h > 0
  {
    x / h
  }

  lemma TopGap(r: nat, k: nat, h: nat, q: nat)
    requires k * h == BASE && r < h && q < k
    ensures r * k + q < BASE
  {
    MulMono(k, r + 1, h);
    assert k * (r + 1) == r * k + k;
  }

  lemma ShiftAlgebra(q: nat, r: nat, k: nat, h: nat, x: nat)
    requires x == h * q + r && k * h == BASE
    ensures x * k == BASE * q + r * k
  {
    MulAssoc(k, h, q);
  }

  /** The two parts make up the shifted limb; they occupy disjoint bits, so C's `|=` is addition. */
  lemma ShiftParts(x: Limb, y: Limb, k: nat, h: nat)
    requires k > 0 && h > 0 && k * h == BASE
    ensures x * k == ShiftLow(x, k) + BASE * ShiftHigh(x, h)
    ensures ShiftLow(x, k) + ShiftHigh(y, h) < BASE
  {
    var q, r := x / h, x % h;
    assert x == h * q + r;
    ShiftAlgebra(q, r, k, h, x);
    MulMono(k, r + 1, h);
    DivModIs(x * k, BASE, q, r * k);
    var qy := y / h;
    assert y == h * qy + y % h;
    MulCancelLess(h, qy, k);
    TopGap(r, k, h, qy);
  }

  /** Limb j of a significand shifted left, when `carry` comes in at the bottom. */
  ghost function ShiftedLimb(a: seq<Limb>, k: nat, h: nat, carry: nat, j: nat): nat
    requires h > 0 && j <= |a|
  {
    (if j < |a| then ShiftLow(a[j], k) else 0) + (if j == 0 then carry else ShiftHigh(a[j - 1], h))
  }

  ghost predicate Shifted(c: seq<Limb>, a: seq<Limb>, k: nat, h: nat, carry: nat)
    requires h > 0
  {
    |c| == |a| + 1 && forall j :: 0 <= j < |c| ==> c[j] == ShiftedLimb(a, k, h, carry, j)
  }

  lemma ShiftedAlgebra(c: nat, a: nat, k: nat, low: nat, high: nat, carry: nat, v: nat)
    requires c == low + carry && a * k == low + BASE * high
    ensures c + BASE * (k * v + high) == k * (a + BASE * v) + carry
  {
  }

  lemma {:induction false} ShiftedVal(c: seq<Limb>, a: seq<Limb>, k: nat, h: nat, carry: nat)
    requires k > 0 && h > 0 && k * h == BASE
    requires Shifted(c, a, k, h, carry)
    ensures Val(c) == k * Val(a) + carry
  {
    hide ShiftLow, ShiftHigh;
    if |a| == 0 {
      assert c == [c[0]] && c[0] == ShiftedLimb(a, k, h, carry, 0);
      ValOne(c[0]);
    } else {
      ShiftParts(a[0], 0, k, h);
      var c', a', up := c[1..], a[1..], ShiftHigh(a[0], h);
      forall j | 0 <= j < |c'|
        ensures c'[j] == ShiftedLimb(a', k, h, up, j)
      {
        assert c'[j] == c[j + 1] == ShiftedLimb(a, k, h, carry, j + 1);
      }
      ShiftedVal(c', a', k, h, up);
      assert c[0] == ShiftedLimb(a, k, h, carry, 0);
      ShiftedAlgebra(c[0], a[0], k, ShiftLow(a[0], k), up, carry, Val(a'));
    }
  }

  /** The two loops that shift a significand left by s bits into one more limb. */
  method ShiftLeft(n: nat, c: array<Limb>, a: array<Limb>, k: nat, h: nat)
    requires n < c.Length && n <= a.Length && c != a
    requires k > 0 && h > 0 && k * h == BASE
    modifies c
    ensures Val(c[..n + 1]) == k * Val(a[..n])
  {
    hide ShiftLow, ShiftHigh, Val;
    for j := 0 to n
      invariant forall t :: 0 <= t < j ==> c[t] == ShiftLow(a[t], k)
    {
      c[j] := ShiftLow(a[j], k);
    }
    c[n] := 0;
    for j := 0 to n
      invariant forall t :: 0 <= t <= j ==> c[t] == ShiftedLimb(a[..n], k, h, 0, t)
      invariant forall t :: j < t <= n ==> c[t] == if t < n then ShiftLow(a[t], k) else 0
    {
      ShiftParts(if j + 1 < n then a[j + 1] else 0, a[j], k, h);
      assert ShiftHigh(a[j], h) < BASE;
      c[j + 1] := c[j + 1] + ShiftHigh(a[j], h);
    }
    ShiftedVal(c[..n + 1], a[..n], k, h, 0);
  }

  lemma ShiftedBackLimb(x: Limb, k: nat, h: nat)
    requires k > 0 && h > 0 && k * h == BASE
    ensures k * ShiftLow(x, h) == BASE * (x % k)
    ensures k * ShiftHigh(x, k) + x % k == x
  {
    var q, r := x / k, x % k;
    assert x == k * q + r;
    ShiftAlgebra(q, r, h, k, x);
    MulMono(h, r + 1, k);
    DivModIs(x * h, BASE, q, r * h);
    MulAssoc(k, h, r);
  }

  lemma ShiftedBackAlgebra(k: nat, high: nat, low: nat, m0: nat, m1: nat, v: nat)
    requires k * low == BASE * m1
    ensures k * (high + low + BASE * v) + m0 == (k * high + m0) + BASE * (k * v + m1)
  {
  }

  lemma {:induction false} ShiftedBackVal(r: seq<Limb>, c: seq<Limb>, k: nat, h: nat)
    requires k > 0 && h > 0 && k * h == BASE
    requires |c| == |r| + 1 && c[|r|] == 0
    requires forall j :: 0 <= j < |r| ==> r[j] == ShiftHigh(c[j], k) + ShiftLow(c[j + 1], h)
    ensures k * Val(r) + c[0] % k == Val(c[..|r|])
  {
    if |r| == 0 {
      assert c[0] % k == 0 && c[..0] == [];
    } else {
      hide ShiftLow, ShiftHigh, Val;
      assert forall j :: 0 <= j < |r[1..]| ==> c[1..][j] == c[j + 1];
      ShiftedBackVal(r[1..], c[1..], k, h);
      ValHead(r[0], r[1..]);
      ValHead(c[0], c[1..][..|r| - 1]);
      assert r == [r[0]] + r[1..] && c[..|r|] == [c[0]] + c[1..][..|r| - 1];
      assert c[..|r|][1..] == c[1..][..|r| - 1];
      ShiftedBackLimb(c[0], k, h);
      ShiftedBackLimb(c[1], k, h);
      ShiftedBackAlgebra(k, ShiftHigh(c[0], k), ShiftLow(c[1], h), c[0] % k, c[1] % k, Val(r[1..]));
    }
  }

  /** The two loops that shift a remainder back to the right; limb m of c is zero. */
  method ShiftRight(m: nat, r: array<Limb>, c: array<Limb>, k: nat, h: nat)
    requires m < c.Length && m <= r.Length && c != r && c[m] == 0
    requires k > 0 && h > 0 && k * h == BASE
    modifies r
    ensures r[m..] == old(r[m..])
    ensures k * Val(r[..m]) + c[0] % k == Val(c[..m])
  {
    hide ShiftLow, ShiftHigh, Val;
    for j := 0 to m
      invariant forall t {:trigger r[t]} :: m <= t < r.Length ==> r[t] == old(r[t])
      invariant forall t {:trigger r[t]} :: 0 <= t < j ==> r[t] == ShiftHigh(c[t], k)
    {
      ShiftParts(0, c[j], h, k);
      r[j] := ShiftHigh(c[j], k);
    }
    for j := 0 to m
      invariant forall t {:trigger r[t]} :: m <= t < r.Length ==> r[t] == old(r[t])
      invariant forall t {:trigger r[t]} :: 0 <= t < j ==> r[t] == ShiftHigh(c[t], k) + ShiftLow(c[t + 1], h)
      invariant forall t {:trigger r[t]} :: j <= t < m ==> r[t] == ShiftHigh(c[t], k)
    {
      ShiftParts(c[j + 1], c[j], h, k);
      r[j] := r[j] + ShiftLow(c[j + 1], h);
    }
    ShiftedBackVal(r[..m], c[..m + 1], k, h);
    assert c[..m + 1][..m] == c[..m];
  }

  // ---- The quotient digits ----

  lemma DivLower(x: nat, d: nat, t: int)
    requires d > 0 && d * t <= x
    ensures t <= x / d
  {
    var q, r := x / d, x % d;
    assert x == d * q + r;
    MulCancelLess(d, t, q + 1);
  }

  /** The quotient digit estimated from two leading limbs and the leading limb of the divisor. */
  function ClippedQuotient(um: nat, dm: nat): Limb
    requires dm > 0
  {
    var cm := um / dm;
    if cm > 0xffff_ffff then 0xffff_ffff else cm
  }

  /** The quotient digit estimated from the two leading limbs of u (m + 1 limbs) and the leading limb of d (m limbs). */
  ghost function Estimate(u: nat, d: nat, m: nat): nat
    requires m > 0 && PowB(m - 1) <= d
  {
    DivLower(d, PowB(m - 1), 1);
    ClippedQuotient(u / PowB(m - 1), d / PowB(m - 1))
  }

  /** The high limbs of a significand are its quotient by a power of the base. */
  lemma {:induction false} HighLimbs(s: seq<Limb>, t: nat)
    requires t <= |s|
    ensures Val(s[t..]) == Val(s) / PowB(t)
  {
    ValSplit(s, 0, t, |s|);
    assert s[0..|s|] == s && s[t..|s|] == s[t..];
    ValBound(s[0..t]);
    DivModIs(Val(s), PowB(t), Val(s[t..]), Val(s[0..t]));
  }

  lemma {:induction false} LeadingLimbs(u: seq<Limb>, m: nat)
    requires 0 < m && |u| == m + 1
    ensures Val(u) / PowB(m - 1) == u[m] * BASE + u[m - 1]
  {
    HighLimbs(u, m - 1);
    ValOne(u[m]);
    assert u[m - 1..][1..] == [u[m]];
  }

  lemma {:induction false} LeadingLimb(d: seq<Limb>)
    requires |d| > 0
    ensures Val(d) / PowB(|d| - 1) == d[|d| - 1]
  {
    HighLimbs(d, |d| - 1);
    ValOne(d[|d| - 1]);
    assert d[|d| - 1..] == [d[|d| - 1]];
  }

  lemma DivUpper(x: nat, d: nat, t: int)
    requires d > 0 && x < d * t
    ensures x / d < t
  {
    var q, r := x / d, x % d;
    assert x == d * q + r;
    MulCancelLess(d, q, t);
  }

  lemma DivBounds(x: nat, d: nat)
    requires d > 0
    ensures d * (x / d) <= x && x == d * (x / d) + x % d && x % d < d
  {
  }

  lemma LeadingProduct(p: nat, dm: nat, q: nat, d: nat, u: nat)
    requires p * dm <= d && d * q <= u
    ensures p * (dm * q) <= u
  {
    MulAssoc(p, dm, q);
    MulMono(q, p * dm, d);
  }

  lemma DigitBelowBase(u: nat, d: nat)
    requires 0 < d && u < d * BASE
    ensures u / d < BASE && d * (u / d) <= u
  {
    DivUpper(u, d, BASE);
    DivBounds(u, d);
  }

  lemma DigitBelowLeading(u: nat, d: nat, q: nat, p: nat, dm: nat)
    requires p > 0 && dm == d / p && d * q <= u
    ensures dm * q <= u / p
  {
    DivBounds(d, p);
    LeadingProduct(p, dm, q, d, u);
    DivLower(u, p, dm * q);
  }

  lemma QuotientNotLow(u: nat, d: nat, p: nat)
    requires 0 < p <= d && u < d * BASE
    ensures d / p > 0 && u / d <= ClippedQuotient(u / p, d / p)
  {
    DivLower(d, p, 1);
    DigitBelowBase(u, d);
    DigitBelowLeading(u, d, u / d, p, d / p);
    DivLower(u / p, d / p, u / d);
  }

  /** The estimate is never below the true digit. */
  lemma EstimateNotLow(u: nat, d: nat, m: nat)
    requires m > 0 && PowB(m - 1) <= d && u < d * BASE
    ensures u / d <= Estimate(u, d, m)
  {
    QuotientNotLow(u, d, PowB(m - 1));
  }

  lemma DivideUnder(x: nat, d: nat)
    requires d > 0
    ensures d * (x / d) <= x < d * (x / d + 1)
  {
    DivBounds(x, d);
  }

  lemma TwoHighProducts(q: nat, dm: nat, est: nat, p: nat, d: nat, u: nat)
    requires p * (dm * est) <= u < d * (q + 1) && d < p * (dm + 1) && p > 0
    ensures dm * est < (dm + 1) * (q + 1)
  {
    MulMono(q + 1, d, p * (dm + 1));
    MulAssoc(p, dm + 1, q + 1);
    MulCancelLess(p, dm * est, (dm + 1) * (q + 1));
  }

  lemma TwoHighBound(q: nat, dm: nat, est: nat)
    requires dm * est < (dm + 1) * (q + 1) && q + 1 <= 2 * dm
    ensures est <= q + 2
  {
    assert (dm + 1) * (q + 1) == dm * (q + 1) + (q + 1) && dm * (q + 3) == dm * (q + 1) + 2 * dm;
    MulCancelLess(dm, est, q + 3);
  }

  lemma ClippedFits(um: nat, dm: nat)
    requires dm > 0
    ensures dm * ClippedQuotient(um, dm) <= um
  {
    DivBounds(um, dm);
    MulMono(dm, ClippedQuotient(um, dm), um / dm);
  }

  lemma NotHighParts(u: nat, d: nat, p: nat, q: nat, dm: nat, um: nat, est: nat)
    requires u < d * (q + 1) && d < p * (dm + 1) && p * um <= u && dm * est <= um
    requires p > 0 && q + 1 <= 2 * dm
    ensures est <= q + 2
  {
    MulMono(p, dm * est, um);
    TwoHighProducts(q, dm, est, p, d, u);
    TwoHighBound(q, dm, est);
  }

  lemma QuotientNotHigh(u: nat, d: nat, p: nat, q: nat, dm: nat, um: nat, est: nat)
    requires 0 < p <= d && u < d * BASE && q == u / d && dm == d / p && um == u / p
    requires dm >= 0x8000_0000 && dm * est <= um
    ensures est <= q + 2
  {
    DivUpper(u, d, BASE);
    DivideUnder(u, d);
    DivideUnder(d, p);
    DivideUnder(u, p);
    NotHighParts(u, d, p, q, dm, um, est);
  }

  lemma ClippedNotHigh(u: nat, d: nat, p: nat)
    requires 0 < p <= d && u < d * BASE && d / p >= 0x8000_0000
    ensures ClippedQuotient(u / p, d / p) <= u / d + 2
  {
    hide ClippedQuotient;
    var q: nat, dm: nat, um: nat := u / d, d / p, u / p;
    ClippedFits(um, dm);
    QuotientNotHigh(u, d, p, q, dm, um, ClippedQuotient(um, dm));
  }

  /** With the leading divisor bit set the estimate is at most two high. */
  lemma EstimateNotHigh(u: nat, d: nat, m: nat)
    requires m > 0 && PowB(m - 1) <= d && u < d * BASE && d / PowB(m - 1) >= 0x8000_0000
    ensures Estimate(u, d, m) <= u / d + 2
  {
    hide PowB, ClippedQuotient;
    ClippedNotHigh(u, d, PowB(m - 1));
  }

  lemma {:induction false} LowLimbs(s: seq<Limb>, m: nat, high: int, low: nat)
    requires |s| == m + 1
    requires Val(s) == PowB(m) * high + low && low < PowB(m)
    ensures Val(s[..m]) == low
  {
    ValPush(s[..m], s[m]);
    assert s == s[..m] + [s[m]];
    ValBound(s[..m]);
    SplitUnique(PowB(m), high, low, s[m], Val(s[..m]));
  }

  /** Adding the divisor back once to a remainder two divisors too low leaves it one below, modulo m limbs. */
  ghost predicate Wrapped(r: nat, d: nat, m: nat, rest: nat) {
    rest + d == PowB(m) + r
  }

  /** The outcome of multiplying back an estimate: digit and remainder are right when it was at most
      one high, otherwise the digit is too large, and the remainder is wrapped when it was two high. */
  ghost predicate DigitOutcome(u: nat, d: nat, est: nat, digit: nat, rest: nat, m: nat)
    requires d > 0
  {
    if est <= u / d + 1 then digit == u / d && rest == u % d
    else digit > u / d && (est == u / d + 2 ==> Wrapped(u % d, d, m, rest))
  }

  /** No borrow: the estimate was the digit. */
  lemma {:induction false} StepWithoutBorrow(u: nat, d: nat, cm: nat, m: nat, after: seq<Limb>)
    requires d > 0 && |after| == m + 1 && d < PowB(m)
    requires u >= d * cm && Val(after) == u - d * cm
    ensures u / d <= cm ==> DigitOutcome(u, d, cm, cm, Val(after[..m]), m)
  {
    DivLower(u, d, cm);
    DivBounds(u, d);
    if cm == u / d {
      LowLimbs(after, m, 0, u % d);
    }
  }

  lemma BorrowAlgebra(u: nat, d: nat, q: nat, r: nat, cm: nat, p: nat)
    requires u == d * q + r && cm == q + 1
    ensures u - d * cm + BASE * p == p * (BASE - 1) + (p + r - d)
  {
    assert d * (q + 1) == d * q + d;
  }

  lemma TwoHighAlgebra(u: nat, d: nat, q: nat, r: nat, cm: nat, p: nat)
    requires u == d * q + r && cm == q + 2
    ensures u - d * cm + BASE * p == p * (BASE - 1) + (p + r - 2 * d) == p * (BASE - 2) + (2 * p + r - 2 * d)
  {
    assert d * (q + 2) == d * q + 2 * d;
  }

  lemma {:induction false} TwoHighLimbs(d: nat, r: nat, m: nat, sub: seq<Limb>, add: seq<Limb>, low: nat)
    requires |sub| == |add| == m + 1 && r < d < PowB(m) && Val(add) == Val(sub[..m]) + d
    requires low < PowB(m) && (low == PowB(m) + r - 2 * d || low == 2 * PowB(m) + r - 2 * d)
    requires Val(sub[..m]) == low
    ensures Wrapped(r, d, m, Val(add[..m]))
  {
    hide Val, PowB;
    if low == PowB(m) + r - 2 * d {
      LowLimbs(add, m, 0, low + d);
    } else {
      LowLimbs(add, m, 1, low + d - PowB(m));
    }
  }

  /** A borrow with the estimate two high. */
  lemma {:induction false} StepTwoHigh(u: nat, d: nat, q: nat, r: nat, cm: nat, m: nat, sub: seq<Limb>, add: seq<Limb>)
    requires |sub| == |add| == m + 1 && d < PowB(m) && u == d * q + r && r < d && cm == q + 2
    requires Val(sub) == u - d * cm + BASE * PowB(m)
    requires Val(add) == Val(sub[..m]) + d
    ensures Wrapped(r, d, m, Val(add[..m]))
  {
    hide Val, PowB, Wrapped;
    TwoHighAlgebra(u, d, q, r, cm, PowB(m));
    if 2 * d <= PowB(m) + r {
      LowLimbs(sub, m, BASE - 1, PowB(m) + r - 2 * d);
      TwoHighLimbs(d, r, m, sub, add, PowB(m) + r - 2 * d);
    } else {
      LowLimbs(sub, m, BASE - 2, 2 * PowB(m) + r - 2 * d);
      TwoHighLimbs(d, r, m, sub, add, 2 * PowB(m) + r - 2 * d);
    }
  }

  /** A borrow: with the estimate one high, adding the divisor back restores the remainder, whatever
      the addition leaves in the top limb. */
  lemma {:induction false} StepWithBorrow(u: nat, d: nat, cm: nat, m: nat, sub: seq<Limb>, add: seq<Limb>)
    requires d > 0 && |sub| == |add| == m + 1 && d < PowB(m)
    requires u < d * cm && Val(sub) == u - d * cm + PowB(m + 1)
    requires Val(add) == Val(sub[..m]) + d
    ensures DigitOutcome(u, d, cm, cm - 1, Val(add[..m]), m)
  {
    DivUpper(u, d, cm);
    DivBounds(u, d);
    var p, q, r := PowB(m), u / d, u % d;
    if cm == q + 1 {
      BorrowAlgebra(u, d, q, r, cm, p);
      LowLimbs(sub, m, BASE - 1, p + r - d);
      LowLimbs(add, m, 1, r);
    } else if cm == q + 2 {
      StepTwoHigh(u, d, q, r, cm, m, sub, add);
    }
  }

  lemma DivideZero(d: nat, est: nat)
    ensures d * est > 0 ==> est > 0
  {
  }

  /** Multiplies the estimate back and subtracts, with the single add-back.  The add-back leaves a
      stale carry in limb j + m, which nothing reads afterwards. */
  method SubtractBack(c: array<Limb>, j: nat, m: nat, d: array<Limb>, e: array<Limb>, est: Limb) returns (digit: Limb)
    requires j + m < c.Length && m < d.Length && m < e.Length
    requires c != d && c != e && d != e
    requires Val(d[..m]) > 0
    modifies c, e
    ensures c[..j] == old(c[..j])
    ensures old(Val(c[j..j + m + 1])) / Val(d[..m]) <= est ==>
      DigitOutcome(old(Val(c[j..j + m + 1])), Val(d[..m]), est, digit, Val(c[j..j + m]), m)
  {
    ghost var u, dv := Val(c[j..j + m + 1]), Val(d[..m]);
    ValBound(d[..m]);
    hide Val, PowB, DigitOutcome;
    MMultiply1(m, e, d, est);
    var borrow := MSubtract(m + 1, c, j, c, j, e);
    ghost var sub := c[j..j + m + 1];
    assert c[j..j + m] == sub[..m];
    digit := est;
    if borrow {
      DivideZero(dv, est);
      digit := est - 1;
      MAdd(m, c, j, c, j, d);
      ghost var add := c[j..j + m + 1];
      assert c[j..j + m] == add[..m];
      StepWithBorrow(u, dv, est, m, sub, add);
    } else {
      StepWithoutBorrow(u, dv, est, m, sub);
    }
  }

  lemma LimbQuotient(x: U64, d: nat)
    requires d > 0
    ensures 0 <= x / d <= x
  {
    DivBounds(x, d);
    MulMono(x / d, 1, d);
  }

  method EstimateDigit(c1: Limb, c0: Limb, dm: Limb) returns (r: Limb)
    requires dm > 0
    ensures r == ClippedQuotient(c1 * BASE + c0, dm)
  {
    var cm: U64 := c1 * BASE + c0;
    LimbQuotient(cm, dm);
    cm := cm / dm;
    if cm > 0xffff_ffff {
      cm := 0xffff_ffff;
    }
    r := cm;
  }

  lemma LeadingPositive(d: nat, p: nat)
    requires p > 0 && d / p > 0
    ensures p <= d
  {
    DivBounds(d, p);
    MulMono(p, 1, d / p);
  }

  lemma {:induction false} StepDigit(us: seq<Limb>, d: nat, m: nat)
    requires 0 < m && |us| == m + 1 && PowB(m - 1) <= d
    ensures Val(us[1..]) < d ==> Val(us) / d <= Estimate(Val(us), d, m)
  {
    if Val(us[1..]) < d {
      MulMono(BASE, Val(us[1..]) + 1, d);
      EstimateNotLow(Val(us), d, m);
    }
  }

  lemma {:induction false} StepEstimate(us: seq<Limb>, ds: seq<Limb>, m: nat)
    requires 0 < m && |us| == m + 1 && |ds| == m && ds[m - 1] > 0
    ensures PowB(m - 1) <= Val(ds)
    ensures Estimate(Val(us), Val(ds), m) == ClippedQuotient(us[m] * BASE + us[m - 1], ds[m - 1])
    ensures Val(us[1..]) < Val(ds) ==> Val(us) / Val(ds) <= Estimate(Val(us), Val(ds), m)
  {
    LeadingLimbs(us, m);
    LeadingLimb(ds);
    LeadingPositive(Val(ds), PowB(m - 1));
    StepDigit(us, Val(ds), m);
  }

  /** One pass of the quotient loop at digit j, where the limbs above j hold a true remainder. */
  method DivideStep(c: array<Limb>, j: nat, m: nat, d: array<Limb>, e: array<Limb>, ghost us: seq<Limb>)
    returns (digit: Limb)
    requires 0 < m && j + m < c.Length && m < d.Length && m < e.Length
    requires us == c[j..j + m + 1]
    requires c != d && c != e && d != e
    requires d[m - 1] > 0
    modifies c, e
    ensures c[..j] == old(c[..j])
    ensures 0 < PowB(m - 1) <= Val(d[..m])
    ensures Val(us[1..]) < Val(d[..m]) ==>
      DigitOutcome(Val(us), Val(d[..m]), Estimate(Val(us), Val(d[..m]), m), digit, Val(c[j..j + m]), m)
  {
    StepEstimate(us, d[..m], m);
    hide Val, PowB, Estimate, DigitOutcome;
    var cm := EstimateDigit(c[j + m], c[j + m - 1], d[m - 1]);
    digit := SubtractBack(c, j, m, d, e, cm);
  }

  // ---- The quotient loop ----

  /** What is divided at digit j: the remainder of the limbs above j, with limb j appended. */
  ghost function Dividend(a: nat, d: nat, j: nat): nat
    requires d > 0
  {
    (a / PowB(j)) % BASE + BASE * ((a / PowB(j + 1)) % d)
  }

  ghost predicate CloseAt(a: nat, d: nat, m: nat, j: nat)
    requires m > 0 && PowB(m - 1) <= d
  {
    Estimate(Dividend(a, d, j), d, m) <= Dividend(a, d, j) / d + 1
  }

  ghost predicate AllClose(a: nat, d: nat, m: nat, from: nat, to: nat)
    requires m > 0 && PowB(m - 1) <= d
  {
    forall j :: from <= j < to ==> CloseAt(a, d, m, j)
  }

  /** A divisor of m limbs with its top bit set. */
  ghost predicate Normalised(d: nat, m: nat)
    requires m > 0
  {
    PowB(m - 1) <= d && d / PowB(m - 1) >= 0x8000_0000
  }

  /** The digits `hi` found from limb t up, and the remainder `rest`, divide the limbs of c from t up. */
  ghost predicate Divided(c: seq<Limb>, t: nat, hi: seq<Limb>, rest: nat, d: nat) {
    t <= |c| && Val(c[t..]) == Val(hi) * d + rest && rest < d
  }

  ghost predicate TooHigh(c: seq<Limb>, t: nat, hi: seq<Limb>, d: nat) {
    t <= |c| && Val(hi) * d > Val(c[t..])
  }

  lemma {:induction false} LimbAt(c: seq<Limb>, j: nat)
    requires j < |c|
    ensures Val(c[j..]) % BASE == c[j]
  {
    assert c[j..][1..] == c[j + 1..];
    DivModIs(Val(c[j..]), BASE, Val(c[j + 1..]), c[j]);
  }

  lemma {:induction false} DividendIs(c: seq<Limb>, j: nat, hi: seq<Limb>, rest: nat, d: nat)
    requires j < |c| && Divided(c, j + 1, hi, rest, d)
    ensures Dividend(Val(c), d, j) == c[j] + BASE * rest
  {
    HighLimbs(c, j);
    HighLimbs(c, j + 1);
    LimbAt(c, j);
    hide Val, PowB;
    DivModIs(Val(c[j + 1..]), d, Val(hi), rest);
  }

  lemma DividedAlgebra(cj: nat, v: nat, d: nat, rest: nat, digit: nat, q: nat, r: nat)
    requires cj + BASE * rest == d * q + r && r < d
    ensures cj + BASE * (v * d + rest) == (q + BASE * v) * d + r
    ensures digit > q ==> (digit + BASE * v) * d > cj + BASE * (v * d + rest)
  {
    if digit > q {
      MulMono(d, q + 1, digit);
    }
  }

  lemma {:induction false} DividedDigit(c: seq<Limb>, j: nat, hi: seq<Limb>, rest: nat, d: nat, digit: Limb, q: nat,
      r: nat)
    requires j < |c| && Divided(c, j + 1, hi, rest, d)
    requires c[j] + BASE * rest == d * q + r && r < d
    ensures digit == q ==> Divided(c, j, [digit] + hi, r, d)
    ensures digit > q ==> TooHigh(c, j, [digit] + hi, d)
    ensures Val(c[j..]) % d == r
  {
    assert c[j..][1..] == c[j + 1..];
    assert ([digit] + hi)[1..] == hi;
    DividedAlgebra(c[j], Val(hi), d, rest, digit, q, r);
    DivModIs(Val(c[j..]), d, q + BASE * Val(hi), r);
  }

  lemma {:induction false} DividedOutcome(c: seq<Limb>, j: nat, hi: seq<Limb>, rest: nat, d: nat, m: nat,
                                          u: nat, est: nat, digit: Limb, rest': nat)
    requires j < |c| && Divided(c, j + 1, hi, rest, d)
    requires u == c[j] + BASE * rest && DigitOutcome(u, d, est, digit, rest', m)
    ensures if est <= u / d + 1 then Divided(c, j, [digit] + hi, rest', d)
      else TooHigh(c, j, [digit] + hi, d) && (est == u / d + 2 ==> Wrapped(Val(c[j..]) % d, d, m, rest'))
  {
    DivBounds(u, d);
    DividedDigit(c, j, hi, rest, d, digit, u / d, u % d);
  }

  lemma {:induction false} DividedStep(c: seq<Limb>, j: nat, hi: seq<Limb>, rest: nat, d: nat, m: nat, digit: Limb,
      rest': nat)
    requires m > 0 && Normalised(d, m)
    requires j < |c| && Divided(c, j + 1, hi, rest, d)
    requires DigitOutcome(c[j] + BASE * rest, d, Estimate(c[j] + BASE * rest, d, m), digit, rest', m)
    ensures CloseAt(Val(c), d, m, j) ==> Divided(c, j, [digit] + hi, rest', d)
    ensures !CloseAt(Val(c), d, m, j) ==> TooHigh(c, j, [digit] + hi, d) && Wrapped(Val(c[j..]) % d, d, m, rest')
  {
    DividendIs(c, j, hi, rest, d);
    var u := c[j] + BASE * rest;
    assert u < d * BASE by {
      MulMono(BASE, rest + 1, d);
    }
    EstimateNotHigh(u, d, m);
    DividedOutcome(c, j, hi, rest, d, m, u, Estimate(u, d, m), digit, rest');
    hide Estimate, Dividend, Divided, TooHigh, DigitOutcome, Wrapped;
  }

  lemma TooHighAlgebra(cj: Limb, w: nat, v: nat, d: nat, digit: nat)
    requires v * d > w
    ensures (digit + BASE * v) * d > cj + BASE * w
  {
    assert (digit + BASE * v) * d == digit * d + BASE * (v * d);
  }

  lemma {:induction false} TooHighStep(c: seq<Limb>, j: nat, hi: seq<Limb>, d: nat, digit: Limb)
    requires j < |c| && TooHigh(c, j + 1, hi, d)
    ensures TooHigh(c, j, [digit] + hi, d)
  {
    assert c[j..][1..] == c[j + 1..];
    assert ([digit] + hi)[1..] == hi;
    TooHighAlgebra(c[j], Val(c[j + 1..]), Val(hi), d, digit);
  }

  /** The state of the quotient loop before digit j - 1: an exact division so far if every estimate
      so far was close, a quotient that stays too large otherwise, with a wrapped remainder when only
      the last estimate was not close. */
  ghost predicate LoopState(close: bool, c: seq<Limb>, j: nat, hi: seq<Limb>, rest: nat, d: nat, m: nat, top: nat)
    requires m > 0 && PowB(m - 1) <= d
  {
    && (close <==> AllClose(Val(c), d, m, j, top))
    && (if close then Divided(c, j, hi, rest, d) else TooHigh(c, j, hi, d))
    && (!close && AllClose(Val(c), d, m, j + 1, top) ==> Wrapped(Val(c[j..]) % d, d, m, rest))
  }

  lemma {:induction false} LoopStep(close: bool, c: seq<Limb>, j: nat, hi: seq<Limb>, us: seq<Limb>, d: nat, m: nat,
      top: nat, digit: Limb, rest': nat)
    requires m > 0 && Normalised(d, m)
    requires j < |c| && j < top && |us| > 0 && us[0] == c[j]
    requires LoopState(close, c, j + 1, hi, Val(us[1..]), d, m, top)
    requires Val(us[1..]) < d ==> DigitOutcome(Val(us), d, Estimate(Val(us), d, m), digit, rest', m)
    ensures LoopState(close && CloseAt(Val(c), d, m, j), c, j, [digit] + hi, rest', d, m, top)
  {
    if close {
      DividedStep(c, j, hi, Val(us[1..]), d, m, digit, rest');
    } else {
      TooHighStep(c, j, hi, d, digit);
    }
  }

  lemma {:induction false} LoopStart(c: seq<Limb>, j: nat, ds: seq<Limb>)
    requires j <= |c| && |ds| > 0 && ds[|ds| - 1] >= 0x8000_0000 && Val(c[j..]) < Val(ds)
    ensures 0 < PowB(|ds| - 1) <= Val(ds) && Normalised(Val(ds), |ds|)
    ensures LoopState(true, c, j, [], Val(c[j..]), Val(ds), |ds|, j)
  {
    LeadingLimb(ds);
    LeadingPositive(Val(ds), PowB(|ds| - 1));
  }

  /** The body of the quotient loop: finds and stores digit j. */
  method DivideDigit(q: array<Limb>, j: nat, c: array<Limb>, m: nat, d: array<Limb>, e: array<Limb>,
                     ghost cs: seq<Limb>, ghost close: bool, ghost top: nat) returns (ghost close': bool)
    requires 0 < m && j + m < c.Length && m < d.Length && m < e.Length && j < top <= q.Length && j < |cs|
    requires q != c && q != d && q != e && c != d && c != e && d != e
    requires d[m - 1] >= 0x8000_0000 && Normalised(Val(d[..m]), m)
    requires c[..j + 1] == cs[..j + 1]
    requires LoopState(close, cs, j + 1, q[j + 1..top], Val(c[j + 1..j + 1 + m]), Val(d[..m]), m, top)
    modifies q, c, e
    ensures c[..j] == cs[..j]
    ensures LoopState(close', cs, j, q[j..top], Val(c[j..j + m]), Val(d[..m]), m, top)
  {
    hide Val, PowB, LoopState, CloseAt, AllClose, DigitOutcome, Estimate;
    ghost var hi, us := q[j + 1..top], c[j..j + m + 1];
    assert us[0] == c[..j + 1][j] == cs[j];
    assert us[1..] == c[j + 1..j + 1 + m];
    assert c[..j] == c[..j + 1][..j];
    var cm := DivideStep(c, j, m, d, e, us);
    q[j] := cm;
    assert q[j..top] == [cm] + hi;
    LoopStep(close, cs, j, hi, us, Val(d[..m]), m, top, cm, Val(c[j..j + m]));
    close' := close && CloseAt(Val(cs), Val(d[..m]), m, j);
  }

  lemma {:induction false} LoopClose(close: bool, c: seq<Limb>, hi: seq<Limb>, rest: nat, d: nat, m: nat, top: nat)
    requires m > 0 && PowB(m - 1) <= d
    requires LoopState(close, c, 0, hi, rest, d, m, top)
    ensures close <==> AllClose(Val(c), d, m, 0, top)
  {
  }

  /** The quotient loop of `m_divide` on the normalised operands. */
  method DivideLoop(q: array<Limb>, n: nat, c: array<Limb>, m: nat, d: array<Limb>, e: array<Limb>)
    requires 0 < m <= n && n < c.Length && m < d.Length && m < e.Length && n - m < q.Length
    requires q != c && q != d && q != e && c != d && c != e && d != e
    requires d[m - 1] >= 0x8000_0000
    requires Val(c[n - m + 1..n + 1]) < Val(d[..m])
    modifies q, c, e
    ensures 0 < PowB(m - 1) <= Val(d[..m])
    ensures LoopState(AllClose(old(Val(c[..n + 1])), Val(d[..m]), m, 0, n - m + 1),
      old(c[..n + 1]), 0, q[..n - m + 1], Val(c[..m]), Val(d[..m]), m, n - m + 1)
  {
    hide Val, PowB, LoopState, CloseAt, AllClose, DigitOutcome, Estimate, Normalised;
    ghost var cs, dv := c[..n + 1], Val(d[..m]);
    var j := n - m + 1;
    LoopStart(cs, j, d[..m]);
    ghost var close := true;
    assert cs[j..] == c[j..j + m] && q[j..j] == [];
    while j > 0
      invariant 0 <= j <= n - m + 1
      invariant c[..j] == cs[..j]
      invariant LoopState(close, cs, j, q[j..n - m + 1], Val(c[j..j + m]), dv, m, n - m + 1)
    {
      j := j - 1;
      close := DivideDigit(q, j, c, m, d, e, cs, close, n - m + 1);
    }
    assert q[0..n - m + 1] == q[..n - m + 1] && c[0..0 + m] == c[..m];
    LoopClose(close, cs, q[..n - m + 1], Val(c[..m]), dv, m, n - m + 1);
  }

  // ---- m_divide ----

  const MAX_N: nat := 7
  const MAX_M: nat := 3

  /** The power of two that shifts the leading limb of a divisor to its top bit. */
  ghost function Normaliser(top: Limb): (k: nat)
    requires top > 0
    ensures k > 0
    decreases BASE - top
  {
    if top >= 0x8000_0000 then 1 else 2 * Normaliser(2 * top)
  }

  lemma {:induction false} Pow2Mono(i: nat, j: nat)
    requires i <= j
    ensures Pow2(i) <= Pow2(j)
  {
    if i < j {
      Pow2Mono(i, j - 1);
    }
  }

  lemma {:induction false} NormaliserIs(top: Limb, i: nat)
    requires i <= 31 && Pow2(i) <= top < Pow2(i + 1)
    ensures Normaliser(top) == Pow2(31 - i)
    decreases 31 - i
  {
    Pow2Limb();
    if i < 31 {
      Pow2Mono(i + 1, 31);
      NormaliserIs(2 * top, i + 1);
    }
  }

  ghost predicate IsQuotient(a: nat, b: nat, q: nat, r: nat) {
    a == q * b + r && r < b
  }

  /** No quotient digit estimate of `m_divide` is more than one too high. */
  ghost predicate EstimatesClose(a: seq<Limb>, b: seq<Limb>)
    requires 0 < |b| <= |a| && b[|b| - 1] > 0
  {
    var k := Normaliser(b[|b| - 1]);
    LeadingLimb(b);
    LeadingPositive(Val(b), PowB(|b| - 1));
    MulMono(Val(b), 1, k);
    AllClose(k * Val(a), k * Val(b), |b|, 0, |a| - |b| + 1)
  }

  /** No estimate but the one for the last digit is more than one too high. */
  ghost predicate HigherClose(a: seq<Limb>, b: seq<Limb>)
    requires 0 < |b| <= |a| && b[|b| - 1] > 0
  {
    var k := Normaliser(b[|b| - 1]);
    LeadingLimb(b);
    LeadingPositive(Val(b), PowB(|b| - 1));
    MulMono(Val(b), 1, k);
    AllClose(k * Val(a), k * Val(b), |b|, 1, |a| - |b| + 1)
  }

  /** r is above the remainder of a by b, by the k-th part of what m limbs hold less the divisor. */
  ghost predicate WrappedRemainder(a: nat, b: nat, m: nat, k: nat, r: nat)
    requires b > 0
  {
    k * (r + b) == PowB(m) + k * (a % b) && r > a % b
  }

  lemma ModScaled(a: nat, b: nat, k: nat)
    requires k > 0 && b > 0
    ensures k * b > 0 && (k * a) % (k * b) == k * (a % b)
  {
    DivBounds(a, b);
    MulMono(k, a % b + 1, b);
    assert k * a == (k * b) * (a / b) + k * (a % b);
    DivModIs(k * a, k * b, a / b, k * (a % b));
  }

  lemma UnshiftWrapped(a: nat, b: nat, k: nat, h: nat, m: nat, rest: nat, r: nat, bits: nat)
    requires k > 0 && k * h == BASE && m > 0 && b > 0 && k * b < PowB(m)
    requires k * r + bits == rest && bits < k && Wrapped((k * a) % (k * b), k * b, m, rest)
    ensures WrappedRemainder(a, b, m, k, r)
  {
    var p := PowB(m - 1);
    ModScaled(a, b, k);
    MulAssoc(k, h, p);
    assert k * (h * p + a % b - b) == k * (h * p) + k * (a % b) - k * b;
    SplitUnique(k, r, bits, h * p + a % b - b, 0);
    MulCancelLess(k, b, h * p);
    assert k * (r + b) == k * r + k * b;
  }

  lemma ShiftedBound(v: nat, p: nat, top: nat, k: nat, h: nat)
    requires v < p * top + p && top < h && k * h == BASE && k > 0
    ensures k * v < BASE * p
  {
    assert p * top + p == p * (top + 1);
    MulMono(p, top + 1, h);
    MulMono(k, v + 1, p * h);
    assert k * (p * h) == (k * h) * p;
  }

  /** The shifted divisor still has m limbs, and its leading bit is set. */
  lemma {:induction false} ShiftedDivisor(d: seq<Limb>, b: seq<Limb>, k: nat, h: nat)
    requires |b| > 0 && |d| == |b| + 1 && b[|b| - 1] > 0
    requires k > 0 && k * h == BASE && b[|b| - 1] < h
    requires Val(d) == k * Val(b) && k * b[|b| - 1] >= 0x8000_0000
    ensures Val(d[..|b|]) == k * Val(b) && d[|b| - 1] >= 0x8000_0000
    ensures PowB(|b| - 1) <= Val(b)
  {
    var m := |b|;
    var p, top := PowB(m - 1), b[m - 1];
    LeadingLimb(b);
    LeadingPositive(Val(b), p);
    DivBounds(Val(b), p);
    ShiftedBound(Val(b), p, top, k, h);
    LowLimbs(d, m, 0, k * Val(b));
    LeadingLimb(d[..m]);
    MulMono(k, p * top, Val(b));
    MulAssoc(p, k, top);
    MulAssoc(k, p, top);
    DivLower(k * Val(b), p, k * top);
  }

  lemma TopBelow(v: nat, p: nat, r: nat, b: nat, k: nat)
    requires v < p * r && r <= b && k > 0
    ensures k * v < p * (k * b)
  {
    MulMono(p, r, b);
    MulMono(k, v + 1, p * b);
    assert k * (p * b) == p * (k * b);
  }

  /** The top limbs of the shifted dividend are below the shifted divisor. */
  lemma {:induction false} ShiftedDividend(c: seq<Limb>, a: seq<Limb>, b: nat, k: nat, m: nat)
    requires 0 < m <= |a| && |c| == |a| + 1 && k > 0
    requires Val(c) == k * Val(a) && PowB(m - 1) <= b
    ensures Val(c[|a| - m + 1..]) < k * b
  {
    var t := |a| - m + 1;
    HighLimbs(c, t);
    ValBound(a);
    PowBAdd(t, m - 1);
    TopBelow(Val(a), PowB(t), PowB(m - 1), b, k);
    DivUpper(Val(c), PowB(t), k * b);
  }

  /** Undoing the normalisation: the digits divide the operands exactly when they divide the shifted ones. */
  lemma Unshift(a: nat, b: nat, k: nat, q: nat, rest: nat, r: nat, bits: nat)
    requires k > 0 && k * r + bits == rest && bits < k
    ensures k * a == q * (k * b) + rest && rest < k * b ==> IsQuotient(a, b, q, r)
    ensures q * (k * b) > k * a ==> !IsQuotient(a, b, q, r)
  {
    assert q * (k * b) == k * (q * b);
    if k * a == q * (k * b) + rest && rest < k * b {
      SplitUnique(k, r, bits, a - q * b, 0);
      MulCancelLess(k, r, b);
    } else if q * (k * b) > k * a {
      MulCancelLess(k, a, q * b);
    }
  }

  lemma {:induction false} NormalisedOutcome(a: seq<Limb>, b: seq<Limb>, k: nat, cs: seq<Limb>, q: seq<Limb>,
      rest: nat, r: nat, bits: nat)
    requires 0 < |b| <= |a| && b[|b| - 1] > 0 && k == Normaliser(b[|b| - 1])
    requires Val(cs) == k * Val(a) && PowB(|b| - 1) <= k * Val(b)
    requires LoopState(AllClose(Val(cs), k * Val(b), |b|, 0, |a| - |b| + 1), cs, 0, q, rest, k * Val(b), |b|,
      |a| - |b| + 1)
    requires k * r + bits == rest && bits < k
    ensures EstimatesClose(a, b) <==> IsQuotient(Val(a), Val(b), Val(q), r)
  {
    assert cs[0..] == cs;
    Unshift(Val(a), Val(b), k, Val(q), rest, r, bits);
  }

  lemma {:induction false} WrappedOutcome(a: seq<Limb>, b: seq<Limb>, k: nat, h: nat, cs: seq<Limb>, q: seq<Limb>,
      rest: nat, r: nat, bits: nat)
    requires 0 < |b| <= |a| && b[|b| - 1] > 0 && k == Normaliser(b[|b| - 1]) && k * h == BASE
    requires Val(cs) == k * Val(a) && PowB(|b| - 1) <= k * Val(b) < PowB(|b|) && Val(b) > 0
    requires LoopState(AllClose(Val(cs), k * Val(b), |b|, 0, |a| - |b| + 1), cs, 0, q, rest, k * Val(b), |b|,
      |a| - |b| + 1)
    requires k * r + bits == rest && bits < k
    ensures HigherClose(a, b) && !EstimatesClose(a, b) ==> WrappedRemainder(Val(a), Val(b), |b|, k, r)
  {
    assert cs[0..] == cs;
    hide Val, PowB, CloseAt, Divided, TooHigh, Normaliser;
    if HigherClose(a, b) && !EstimatesClose(a, b) {
      UnshiftWrapped(Val(a), Val(b), k, h, |b|, rest, r, bits);
    }
  }

  /** The first half of `m_divide`: shifts dividend and divisor left so that the leading divisor bit is set. */
  method Normalise(c: array<Limb>, d: array<Limb>, n: nat, a: array<Limb>, m: nat, b: array<Limb>)
    returns (k: nat, h: nat)
    requires 0 < m <= n && n < c.Length && m < d.Length && n <= a.Length && m <= b.Length
    requires c != d && c != a && c != b && d != a && d != b
    requires 0 < b[m - 1] < 0x8000_0000
    modifies c, d
    ensures k == Normaliser(b[m - 1]) && h > 0 && k * h == BASE
    ensures Val(c[..n + 1]) == k * Val(a[..n]) && Val(d[..m]) == k * Val(b[..m]) && d[m - 1] >= 0x8000_0000
    ensures Val(c[n - m + 1..n + 1]) < Val(d[..m])
  {
    hide Val, PowB, Pow2, Normaliser;
    var i := TopBit(b[m - 1]);
    k, h := Pow2(31 - i), Pow2(i + 1);
    Pow2Add(31 - i, i + 1);
    Pow2Limb();
    NormaliserIs(b[m - 1], i);
    Pow2Add(31 - i, i);
    MulMono(k, Pow2(i), b[m - 1]);
    ShiftLeft(n, c, a, k, h);
    ShiftLeft(m, d, b, k, h);
    ShiftedDivisor(d[..m + 1], b[..m], k, h);
    ShiftedDividend(c[..n + 1], a[..n], Val(b[..m]), k, m);
    assert d[..m + 1][..m] == d[..m] && c[..n + 1][n - m + 1..] == c[n - m + 1..n + 1];
  }

  /** `m_divide` for a divisor of several limbs.  q and r may each be the dividend array. */
  method MDivideLong(q: array<Limb>, r: array<Limb>, n: nat, a: array<Limb>, m: nat, b: array<Limb>)
    requires 0 < m <= n <= MAX_N && m <= MAX_M
    requires n <= a.Length && m <= b.Length && m <= r.Length && n - m < q.Length
    requires q != r && q != b && r != b
    requires 0 < b[m - 1] < 0x8000_0000
    modifies q, r
    ensures r[m..] == old(r[m..])
    ensures EstimatesClose(old(a[..n]), b[..m]) <==>
      IsQuotient(old(Val(a[..n])), Val(b[..m]), Val(q[..n - m + 1]), Val(r[..m]))
    ensures Val(b[..m]) > 0
    ensures HigherClose(old(a[..n]), b[..m]) && !EstimatesClose(old(a[..n]), b[..m]) ==>
      WrappedRemainder(old(Val(a[..n])), Val(b[..m]), m, Normaliser(b[m - 1]), Val(r[..m]))
  {
    hide Val, PowB, LoopState, AllClose, EstimatesClose, HigherClose, WrappedRemainder, IsQuotient;
    var c, d, e := new Limb[MAX_N + 1], new Limb[MAX_M + 1], new Limb[MAX_M + 1];
    ghost var s, t := a[..n], b[..m];
    var k, h := Normalise(c, d, n, a, m, b);
    ghost var cs := c[..n + 1];
    DivideLoop(q, n, c, m, d, e);
    ghost var rest := Val(c[..m]);
    c[m] := 0;
    ShiftRight(m, r, c, k, h);
    NormalisedOutcome(s, t, k, cs, q[..n - m + 1], rest, Val(r[..m]), c[0] % k);
    ValBound(d[..m]);
    LeadingLimb(t);
    LeadingPositive(Val(t), PowB(m - 1));
    WrappedOutcome(s, t, k, h, cs, q[..n - m + 1], rest, Val(r[..m]), c[0] % k);
  }

  /** `m_divide`: quotient to q, remainder to r; either may be the dividend array.  A one-limb divisor
      always divides exactly; a longer one does exactly when no digit estimate overshoots by two.  When
      the last one alone does, the remainder comes out too large. */
  method MDivide(q: array<Limb>, r: array<Limb>, n: nat, a: array<Limb>, m: nat, b: array<Limb>)
    requires 0 < m <= n <= MAX_N && m <= MAX_M
    requires n <= a.Length && m <= b.Length && m <= r.Length && n - m < q.Length
    requires q != r && q != b && r != b
    requires 0 < b[m - 1] && (m > 1 ==> b[m - 1] < 0x8000_0000)
    modifies q, r
    ensures r[m..] == old(r[m..])
    ensures m == 1 || EstimatesClose(old(a[..n]), b[..m]) <==>
      IsQuotient(old(Val(a[..n])), Val(b[..m]), Val(q[..n - m + 1]), Val(r[..m]))
    ensures m > 1 && HigherClose(old(a[..n]), b[..m]) && !EstimatesClose(old(a[..n]), b[..m]) ==>
      Val(b[..m]) > 0 && WrappedRemainder(old(Val(a[..n])), Val(b[..m]), m, Normaliser(b[m - 1]), Val(r[..m]))
  {
    if m == 1 {
      ghost var v := Val(a[..n]);
      var f := MDivide1(n, q, a, b[0]);
      r[0] := f;
      ValOne(r[0]);
      ValOne(b[0]);
      assert r[..1] == [r[0]] && b[..1] == [b[0]];
      return;
    }
    MDivideLong(q, r, n, a, m, b);
  }

  // ---- When the estimates are close ----

  lemma DivDivAlgebra(x: nat, y: nat, z: nat, q: nat, r: nat, q': nat, r': nat)
    requires x == y * q + r && r < y && q == z * q' + r' && r' < z
    ensures x == (y * z) * q' + (y * r' + r)
    ensures y * r' + r < y * z
  {
    MulAssoc(y, z, q');
    MulMono(y, r' + 1, z);
  }

  lemma DivDiv(x: nat, y: nat, z: nat)
    requires y > 0 && z > 0
    ensures y * z > 0 && (x / y) / z == x / (y * z)
  {
    MulMono(y, 1, z);
    DivBounds(x, y);
    DivBounds(x / y, z);
    DivDivAlgebra(x, y, z, x / y, x % y, x / y / z, x / y % z);
    DivModIs(x, y * z, x / y / z, y * (x / y % z) + x % y);
  }

  lemma DivScaled(a: nat, b: nat, k: nat)
    requires b > 0 && k > 0
    ensures k * b > 0 && (k * a) / (k * b) == a / b
  {
    MulMono(k, 1, b);
    DivBounds(a, b);
    MulMono(k, a % b + 1, b);
    assert k * (b * (a / b) + a % b) == (k * b) * (a / b) + k * (a % b);
    DivModIs(k * a, k * b, a / b, k * (a % b));
  }

  lemma DigitAlgebra(d: int, y: int, qy: int, ry: int, q: int, r: int, x0: int)
    requires y == d * qy + ry && x0 + BASE * ry == d * q + r
    ensures BASE * y + x0 == d * (BASE * qy + q) + r
  {
    assert d * (BASE * qy + q) == d * (BASE * qy) + d * q;
    assert d * (BASE * qy) == BASE * (d * qy);
  }

  lemma DigitSplit(x: nat, d: nat, x0: nat, y: nat, qy: nat, ry: nat)
    requires d > 0 && x0 < BASE && x == BASE * y + x0 && y == d * qy + ry && ry < d
    ensures (x0 + BASE * ry) / d == (x / d) % BASE
  {
    var u := x0 + BASE * ry;
    DivBounds(u, d);
    DivUpper(u, d, BASE);
    var q: nat, r: nat := u / d, u % d;
    DigitAlgebra(d, y, qy, ry, q, r, x0);
    var e: nat := BASE * qy + q;
    DivModIs(x, d, e, r);
    DivModIs(e, BASE, qy, q);
  }

  /** The quotient of the dividend at digit j is digit j of the true quotient. */
  lemma DigitOfQuotient(a: nat, d: nat, j: nat)
    requires d > 0
    ensures Dividend(a, d, j) / d == (a / d / PowB(j)) % BASE
  {
    var p := PowB(j);
    var x := a / p;
    DivDiv(a, p, BASE);
    DivDiv(a, p, d);
    DivDiv(a, d, p);
    assert a / d / p == x / d;
    var y := x / BASE;
    DivBounds(x, BASE);
    DivBounds(y, d);
    DigitSplit(x, d, x % BASE, y, y / d, y % d);
  }

  lemma SmallDigitAlgebra(u: nat, d: nat, p: nat, q: nat, dm: nat, um: nat)
    requires p * um <= u && d < p * dm + p && u < d * q + d && q < dm
    ensures um < dm * (q + 2)
  {
    if um >= dm * (q + 2) {
      MulMono(p, dm * (q + 2), um);
      MulMono(q + 1, d, p * (dm + 1));
      assert p * (dm * (q + 2)) == p * (dm * q + 2 * dm);
      assert (q + 1) * (p * (dm + 1)) == p * ((q + 1) * (dm + 1));
      MulMono(p, (q + 1) * (dm + 1), dm * q + 2 * dm);
      assert false;
    }
  }

  lemma SmallDigitBound(u: nat, d: nat, p: nat, q: nat, dm: nat)
    requires 0 < p && 0 < d && q == u / d && dm == d / p && q < dm
    ensures u / p < dm * (q + 2)
  {
    DivBounds(u, d);
    DivBounds(d, p);
    DivBounds(u, p);
    SmallDigitAlgebra(u, d, p, q, dm, u / p);
  }

  /** A true digit below the leading divisor limb is estimated at most one high. */
  lemma SmallDigitClose(u: nat, d: nat, p: nat)
    requires 0 < p <= d
    requires d / p > 0 && u / d < d / p
    ensures ClippedQuotient(u / p, d / p) <= u / d + 1
  {
    SmallDigitBound(u, d, p, u / d, d / p);
    DivUpper(u / p, d / p, u / d + 2);
  }

  lemma {:induction false} NormaliserTop(top: Limb)
    requires top > 0
    ensures Normaliser(top) * top >= 0x8000_0000
    decreases BASE - top
  {
    if top < 0x8000_0000 {
      NormaliserTop(2 * top);
    }
  }

  /** The normalised divisor's leading limb has its top bit set. */
  lemma {:induction false} LeadingNormalised(b: seq<Limb>)
    requires |b| > 0 && b[|b| - 1] > 0
    ensures Val(b) > 0 && Normalised(Normaliser(b[|b| - 1]) * Val(b), |b|)
  {
    var k, p, top := Normaliser(b[|b| - 1]), PowB(|b| - 1), b[|b| - 1];
    NormaliserTop(top);
    LeadingLimb(b);
    LeadingPositive(Val(b), p);
    DivBounds(Val(b), p);
    hide Val, PowB, Normaliser;
    MulMono(Val(b), 1, k);
    MulMono(k, p * top, Val(b));
    MulAssoc(p, k, top);
    MulAssoc(k, p, top);
    DivLower(k * Val(b), p, k * top);
  }

  lemma {:induction false} SmallDigitsFrom(a: seq<Limb>, b: seq<Limb>, from: nat)
    requires 0 < |b| <= |a| && b[|b| - 1] > 0 && Val(b) > 0
    requires PowB(|b| - 1) <= Normaliser(b[|b| - 1]) * Val(b)
    requires forall j :: from <= j <= |a| - |b| ==>
      (Val(a) / Val(b) / PowB(j)) % BASE < Normaliser(b[|b| - 1]) * Val(b) / PowB(|b| - 1)
    ensures AllClose(Normaliser(b[|b| - 1]) * Val(a), Normaliser(b[|b| - 1]) * Val(b), |b|, from, |a| - |b| + 1)
  {
    var k, p := Normaliser(b[|b| - 1]), PowB(|b| - 1);
    var d := k * Val(b);
    DivScaled(Val(a), Val(b), k);
    forall j | from <= j < |a| - |b| + 1
      ensures CloseAt(k * Val(a), d, |b|, j)
    {
      DigitOfQuotient(k * Val(a), d, j);
      DivLower(d, p, 1);
      SmallDigitClose(Dividend(k * Val(a), d, j), d, p);
    }
  }

  /** `m_divide` is exact whenever every true quotient digit is below the normalised leading limb of the divisor. */
  lemma {:induction false} SmallDigitsClose(a: seq<Limb>, b: seq<Limb>)
    requires 0 < |b| <= |a| && b[|b| - 1] > 0
    requires Val(b) > 0
    requires forall j :: 0 <= j <= |a| - |b| ==>
      (Val(a) / Val(b) / PowB(j)) % BASE < Normaliser(b[|b| - 1]) * Val(b) / PowB(|b| - 1)
    ensures EstimatesClose(a, b)
  {
    LeadingNormalised(b);
    SmallDigitsFrom(a, b, 0);
  }

  lemma {:induction false} SmallDigit(q: nat, j: nat)
    requires q < 0x8000_0000
    ensures (q / PowB(j)) % BASE < 0x8000_0000
  {
    DivBounds(q, PowB(j));
    MulMono(q / PowB(j), 1, PowB(j));
  }

  lemma {:induction false} SmallHigherDigit(q: nat, j: nat)
    requires q < 0x8000_0000 * BASE && j >= 1
    ensures (q / PowB(j)) % BASE < 0x8000_0000
  {
    DivUpper(q, BASE, 0x8000_0000);
    DivDiv(q, BASE, PowB(j - 1));
    SmallDigit(q / BASE, j - 1);
  }

  lemma {:induction false} HalfDigitsFrom(a: seq<Limb>, b: seq<Limb>, from: nat, q: nat)
    requires 0 < |b| <= |a| && b[|b| - 1] > 0 && Val(b) > 0 && q == Val(a) / Val(b)
    requires forall j {:trigger PowB(j)} :: from <= j <= |a| - |b| ==> (q / PowB(j)) % BASE < 0x8000_0000
    ensures PowB(|b| - 1) <= Normaliser(b[|b| - 1]) * Val(b)
    ensures AllClose(Normaliser(b[|b| - 1]) * Val(a), Normaliser(b[|b| - 1]) * Val(b), |b|, from, |a| - |b| + 1)
  {
    hide Val, PowB, Normaliser, AllClose;
    LeadingNormalised(b);
    SmallDigitsFrom(a, b, from);
  }

  /** A quotient of less than half a limb is estimated closely. */
  lemma {:induction false} SmallQuotientClose(a: seq<Limb>, b: seq<Limb>)
    requires 0 < |b| <= |a| && b[|b| - 1] > 0 && Val(b) > 0
    requires Val(a) < Val(b) * 0x8000_0000
    ensures EstimatesClose(a, b)
  {
    hide Val, PowB, Normaliser, AllClose;
    var q: nat := Val(a) / Val(b);
    DivUpper(Val(a), Val(b), 0x8000_0000);
    forall j: nat
      ensures (q / PowB(j)) % BASE < 0x8000_0000
    {
      SmallDigit(q, j);
    }
    HalfDigitsFrom(a, b, 0, q);
  }

  /** Likewise for all but the last digit when what stands above it is less than half a limb. */
  lemma {:induction false} SmallQuotientHigher(a: seq<Limb>, b: seq<Limb>)
    requires 0 < |b| <= |a| && b[|b| - 1] > 0 && Val(b) > 0
    requires Val(a) < Val(b) * (0x8000_0000 * BASE)
    ensures HigherClose(a, b)
  {
    hide Val, PowB, Normaliser, AllClose;
    var q: nat := Val(a) / Val(b);
    DivUpper(Val(a), Val(b), 0x8000_0000 * BASE);
    forall j: nat | j >= 1
      ensures (q / PowB(j)) % BASE < 0x8000_0000
    {
      SmallHigherDigit(q, j);
    }
    HalfDigitsFrom(a, b, 1, q);
  }

  lemma {:induction false} CloseAtLowest(a: seq<Limb>, b: seq<Limb>)
    requires 0 < |b| <= |a| && b[|b| - 1] > 0
    ensures PowB(|b| - 1) <= Normaliser(b[|b| - 1]) * Val(b)
    ensures EstimatesClose(a, b) ==>
      CloseAt(Normaliser(b[|b| - 1]) * Val(a), Normaliser(b[|b| - 1]) * Val(b), |b|, 0)
  {
    LeadingLimb(b);
    LeadingPositive(Val(b), PowB(|b| - 1));
    MulMono(Val(b), 1, Normaliser(b[|b| - 1]));
  }

  lemma TwoHighOperands()
    ensures Val([1, 4294967283, 5]) == 110680464386422734849 && Val([4294967295, 5]) == 25769803775
    ensures Normaliser(5) == 0x2000_0000
  {
    ValOne(5);
    assert [1, 4294967283, 5][1..] == [4294967283, 5] && [4294967283, 5][1..] == [5];
    assert [4294967295, 5][1..] == [5];
    NormaliserIs(5, 2);
    Pow2Add(8, 8);
    Pow2Add(16, 13);
    assert Pow2(13) == 8192;
  }

  lemma TwoHighDigit()
    ensures PowB(1) <= 0x2000_0000 * 25769803775
    ensures !CloseAt(0x2000_0000 * 110680464386422734849, 0x2000_0000 * 25769803775, 2, 0)
  {
    assert PowB(0) == 1 && PowB(1) == BASE;
    var a, d := 0x2000_0000 * 110680464386422734849, 0x2000_0000 * 25769803775;
    assert Dividend(a, d, 0) == 59421121855722294075916812288;
    assert Estimate(59421121855722294075916812288, d, 2) == 4294967295;
  }

  /** The source's comment that the quotient is off by one at most does not hold: here an estimate is
      two high, so `m_divide` returns a wrong quotient of 110680464386422734849 by 25769803775. */
  lemma EstimateTwoHigh()
    ensures !EstimatesClose([1, 4294967283, 5], [4294967295, 5])
  {
    TwoHighOperands();
    TwoHighDigit();
    hide Val, PowB, Normaliser, CloseAt, EstimatesClose;
    CloseAtLowest([1, 4294967283, 5], [4294967295, 5]);
  }
}

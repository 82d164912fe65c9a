/** Decimal powers, the half-even rounding of a rational, and the truncate flag that carries the
discarded part of a significand from one decimal shift to the next (f-deci.c).
*/
module Rounding {
  import opened Arithmetic

  function Pow10(n: nat): (p: nat)
    ensures p > 0
  {
    if n == 0 then 1 else 10 * Pow10(n - 1)
  }

  lemma {:induction false} Pow10Add(m: nat, n: nat)
    ensures Pow10(m + n) == Pow10(m) * Pow10(n)
  {
    if m > 0 {
      Pow10Add(m - 1, n);
      MulAssoc(10, Pow10(m - 1), Pow10(n));
    }
  }

  lemma {:induction false} Pow10Mono(m: nat, n: nat)
    requires m <= n
    ensures Pow10(m) <= Pow10(n)
    ensures m < n ==> 10 * Pow10(m) <= Pow10(n)
  {
    if m < n {
      Pow10Mono(m, n - 1);
    }
  }

  /** v with n decimal zeros appended. */
  ghost function Scaled(v: nat, n: nat): nat {
    v * Pow10(n)
  }

  /** How much of a unit the discarded part r of d amounts to: nothing, less than half, half, more. */
  ghost function Tail(r: nat, d: nat): int
  {
    if r == 0 then 0 else if 2 * r < d then 1 else if 2 * r == d then 2 else 3
  }

  ghost predicate IsTail(n: nat, d: nat, v: nat, t: int, r: nat) {
    n == d * v + r && r < d && t == Tail(r, d)
  }

  /** v is the integer part of n / d, and the flag t classifies the fraction cut off. */
  ghost predicate Truncates(n: nat, d: nat, v: nat, t: int) {
    d > 0 && exists r: nat :: IsTail(n, d, v, t, r)
  }

  /** m is n / d rounded to the nearest integer, ties to the even one. */
  ghost predicate IsRounded(n: nat, d: nat, m: nat) {
    && -(d as int) <= 2 * (d * m) - 2 * n <= d
    && (2 * (d * m) - 2 * n == d || 2 * (d * m) - 2 * n == -(d as int) ==> m % 2 == 0)
  }

  lemma RoundedOrder(n: nat, d: nat, m: nat, m': nat)
    requires d > 0 && IsRounded(n, d, m) && IsRounded(n, d, m')
    ensures m' <= m
  {
    assert d * (m + 1) == d * m + d && d * (m + 2) == d * m + 2 * d;
    if m' >= m + 2 {
      MulMono(d, m + 2, m');
    }
  }

  lemma RoundedUnique(n: nat, d: nat, m: nat, m': nat)
    requires d > 0 && IsRounded(n, d, m) && IsRounded(n, d, m')
    ensures m == m'
  {
    if m < m' {
      RoundedOrder(n, d, m, m');
    } else if m' < m {
      RoundedOrder(n, d, m', m);
    }
  }

  /** The rounding decision taken from the flag and the parity of the truncated significand. */
  predicate RoundsUp(v: nat, t: int) {
    t == 3 || (t == 2 && v % 2 == 1)
  }

  lemma RoundByFlag(n: nat, d: nat, v: nat, t: int)
    requires Truncates(n, d, v, t)
    ensures IsRounded(n, d, if RoundsUp(v, t) then v + 1 else v)
  {
    var r: nat :| IsTail(n, d, v, t, r);
    assert d * (v + 1) == d * v + d;
  }

  /** The new flag of `dsr` for a chunk of the shift: r is the remainder by e, t the flag so far. */
  function ShiftFlag(r: nat, e: nat, t: int): int {
    if r < e / 2 then (if r != 0 || t != 0 then 1 else t)
    else if r > e / 2 || t != 0 then 3
    else 2
  }

  lemma ChunkSum(d: nat, e: nat, q: nat, r: nat, h: nat, f: nat, v: nat)
    requires d > 0 && v == e * q + r && r < e && e == 2 * h && f < d
    ensures d * v == (d * e) * q + d * r
    ensures d * e == 2 * (d * h) && d * r + f < d * e
  {
    assert d * (e * q) == (d * e) * q;
    assert d * (r + 1) == d * r + d;
    MulMono(d, r + 1, e);
  }

  lemma ChunkCompare(d: nat, r: nat, h: nat, f: nat)
    requires d > 0 && f < d
    ensures r < h ==> d * r + f < d * h
    ensures r > h ==> d * r + f > d * h
    ensures d * r + f == 0 <==> r == 0 && f == 0
  {
    assert d * (r + 1) == d * r + d && d * (h + 1) == d * h + d;
    if r < h {
      MulMono(d, r + 1, h);
    } else if r > h {
      MulMono(d, h + 1, r);
    }
    if r > 0 {
      MulMono(d, 1, r);
    }
  }

  lemma ChunkTail(n: nat, d: nat, v: nat, t: int, e: nat, f: nat, q: nat, r: nat, h: nat)
    requires d > 0 && IsTail(n, d, v, t, f) && v == e * q + r && r < e && e == 2 * h
    ensures d * e > 0 && IsTail(n, d * e, q, ShiftFlag(r, e, t), d * r + f)
  {
    ChunkSum(d, e, q, r, h, f, v);
    ChunkCompare(d, r, h, f);
    assert n == (d * e) * q + (d * r + f);
  }

  /** Cutting off a further chunk of digits truncates the original number by the product of the divisors. */
  lemma TruncateChunk(n: nat, d: nat, v: nat, t: int, e: nat, q: nat, r: nat)
    requires Truncates(n, d, v, t) && e > 0 && e % 2 == 0 && v == e * q + r && r < e
    ensures d * e >= 0 && Truncates(n, d * e, q, ShiftFlag(r, e, t))
  {
    var f: nat :| IsTail(n, d, v, t, f);
    hide ShiftFlag, IsTail;
    ChunkTail(n, d, v, t, e, f, q, r, e / 2);
  }

  lemma TruncatesExact(v: nat)
    ensures Truncates(v, 1, v, 0)
  {
    assert IsTail(v, 1, v, 0, 0);
  }
}

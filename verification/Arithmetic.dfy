/** Facts about products, quotients and remainders that the solver does not find by itself. */
module Arithmetic {
  lemma MulMono(a: nat, x: int, y: int)
    requires x <= y
    ensures a * x <= a * y
  {
  }

  lemma MulAssoc(x: int, y: int, z: int)
    ensures (x * y) * z == x * (y * z)
  {
  }

  lemma MulCancelLess(b: nat, q: int, k: int)
    requires b * q < b * k
    ensures q < k
  {
    if q >= k {
      MulMono(b, k, q);
    }
  }

  /** Quotient and remainder are unique. */
  lemma DivModIs(v: int, m: nat, q: int, r: int)
    requires 0 <= r < m && v == m * q + r
    ensures v / m == q && v % m == r
  {
    var q', r' := v / m, v % m;
    assert v == m * q' + r';
    MulCancelLess(m, q, q' + 1);
    MulCancelLess(m, q', q + 1);
  }

  lemma SplitUnique(p: nat, x: int, y: nat, x': int, y': nat)
    requires p * x + y == p * x' + y' && y < p && y' < p
    ensures x == x' && y == y'
  {
    MulCancelLess(p, x, x' + 1);
    MulCancelLess(p, x', x + 1);
  }

  ghost function Power(x: nat, n: nat): nat {
    if n == 0 then 1 else x * Power(x, n - 1)
  }

  /** The number that digits spell in a base, the most significant first. */
  ghost function Number(base: nat, vals: seq<nat>): nat {
    if |vals| == 0 then 0 else Number(base, vals[..|vals| - 1]) * base + vals[|vals| - 1]
  }

  /** Digits of a base are those of their number. */
  lemma {:induction false} NumberOnce(base: nat, s: seq<nat>, t: seq<nat>)
    requires |s| == |t| && Number(base, s) == Number(base, t)
    requires forall i :: 0 <= i < |s| ==> s[i] < base && t[i] < base
    ensures s == t
  {
    if |s| > 0 {
      var n := |s| - 1;
      DivModIs(Number(base, s), base, Number(base, s[..n]), s[n]);
      DivModIs(Number(base, t), base, Number(base, t[..n]), t[n]);
      NumberOnce(base, s[..n], t[..n]);
      assert s == s[..n] + [s[n]] && t == t[..n] + [t[n]];
    }
  }
}

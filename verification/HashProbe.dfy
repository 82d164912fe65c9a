/** The probe sequence of Hash_Probe, and why a table at most half full always offers an empty slot. */
module HashProbe {
  import opened Arithmetic

  const WORD32 := 0x1_0000_0000

  /** Hash_Probe: quadratic probing in 32-bit arithmetic. */
  function Probe(hash: nat, idx: nat, len: nat): (slot: nat)
    requires len > 0
    ensures slot < len
  {
    (hash % len + idx + 3 * idx * idx) % WORD32 % len
  }

  ghost predicate HasFree(hash: nat, used: set<nat>, len: nat)
    requires len > 0
  {
    exists i: nat :: i < len && Probe(hash, i, len) !in used
  }

  /** However at most half of the slots are taken, every hash value has a probe that misses them. */
  ghost predicate Covering(len: nat) {
    len > 0 && forall hash: nat, used: set<nat> :: 2 * |used| < len ==> HasFree(hash, used, len)
  }

  // ---- A little number theory ----

  ghost predicate IsPrime(p: nat) {
    p > 1 && forall d: nat :: 1 < d < p ==> p % d != 0
  }

  ghost predicate Divides(p: nat, x: int) {
    exists k: int :: x == p * k
  }

  lemma EuclidStep(p: int, a: int, b: int, q: int, r: int, k: int)
    requires p == q * a + r && a * b == p * k
    ensures r * b == p * (b - q * k)
  {
    assert r * b == p * b - q * (a * b);
    assert q * (p * k) == p * (q * k);
  }

  /** A prime that divides a product divides a factor. */
  lemma {:induction false} Euclid(p: nat, a: nat, b: int)
    requires IsPrime(p) && 0 < a < p && Divides(p, a * b)
    ensures Divides(p, b)
    decreases a
  {
    if a == 1 {
      assert a * b == b;
    } else {
      var q, r := p / a, p % a;
      assert p % a != 0;
      var k: int :| a * b == p * k;
      EuclidStep(p, a, b, q, r, k);
      assert r * b == p * (b - q * k);
      Euclid(p, r, b);
    }
  }

  /** Trial division by d, d - 1, ... down to 2. */
  ghost predicate HasDivisor(p: nat, d: nat) {
    d >= 2 && (p % d == 0 || HasDivisor(p, d - 1))
  }

  lemma {:induction false} NoDivisor(p: nat, d: nat, k: nat)
    requires !HasDivisor(p, d) && 2 <= k <= d
    ensures p % k != 0
  {
    if k < d {
      NoDivisor(p, d - 1, k);
    }
  }

  lemma MulAbove(k: nat, e: nat, d: nat)
    requires k > d && e > d
    ensures k * e >= (d + 1) * (d + 1)
  {
    assert k * e >= (d + 1) * e;
    assert (d + 1) * e >= (d + 1) * (d + 1);
  }

  lemma Cofactor(p: nat, k: nat, e: nat, d: nat)
    requires p == k * e && d < k < p && p < (d + 1) * (d + 1) && p > 1
    ensures 2 <= e <= d && p % e == 0
  {
    assert e != 0 && e != 1;
    if e > d {
      MulAbove(k, e, d);
    }
    DivModIs(p, e, k, 0);
  }

  lemma {:induction false} NoLargeDivisor(p: nat, d: nat, k: nat)
    requires p > 1 && p < (d + 1) * (d + 1) && d < k < p && !HasDivisor(p, d)
    ensures p % k != 0
  {
    hide HasDivisor;
    if p % k == 0 {
      Cofactor(p, k, p / k, d);
      NoDivisor(p, d, p / k);
    }
  }

  /** Trial division up to the square root decides primality. */
  lemma {:induction false} TrialDivision(p: nat, d: nat)
    requires p > 1 && p < (d + 1) * (d + 1) && d < p && !HasDivisor(p, d)
    ensures IsPrime(p)
  {
    hide HasDivisor;
    forall k: nat | 1 < k < p
      ensures p % k != 0
    {
      if k <= d {
        NoDivisor(p, d, k);
      } else {
        NoLargeDivisor(p, d, k);
      }
    }
  }

  // ---- The sizes whose probes stay within 32 bits ----

  lemma {:induction false} Prime251()
    ensures IsPrime(251)
  {
    assert !HasDivisor(251, 15);
    TrialDivision(251, 15);
  }

  lemma {:induction false} Prime509()
    ensures IsPrime(509)
  {
    assert !HasDivisor(509, 15);
    assert !HasDivisor(509, 22);
    TrialDivision(509, 22);
  }

  lemma {:induction false} Prime1021()
    ensures IsPrime(1021)
  {
    assert !HasDivisor(1021, 15);
    assert !HasDivisor(1021, 30);
    assert !HasDivisor(1021, 31);
    TrialDivision(1021, 31);
  }

  lemma {:induction false} Prime2039()
    ensures IsPrime(2039)
  {
    assert !HasDivisor(2039, 15);
    assert !HasDivisor(2039, 30);
    assert !HasDivisor(2039, 45);
    TrialDivision(2039, 45);
  }

  lemma {:induction false} Prime4093()
    ensures IsPrime(4093)
  {
    assert !HasDivisor(4093, 15);
    assert !HasDivisor(4093, 30);
    assert !HasDivisor(4093, 45);
    assert !HasDivisor(4093, 60);
    assert !HasDivisor(4093, 63);
    TrialDivision(4093, 63);
  }

  lemma {:induction false} No8191UpTo60()
    ensures !HasDivisor(8191, 60)
  {
    assert !HasDivisor(8191, 15);
    assert !HasDivisor(8191, 30);
    assert !HasDivisor(8191, 45);
  }

  lemma {:induction false} Prime8191()
    ensures IsPrime(8191)
  {
    No8191UpTo60();
    assert !HasDivisor(8191, 75);
    assert !HasDivisor(8191, 90);
    TrialDivision(8191, 90);
  }

  lemma {:induction false} No16381UpTo60()
    ensures !HasDivisor(16381, 60)
  {
    assert !HasDivisor(16381, 15);
    assert !HasDivisor(16381, 30);
    assert !HasDivisor(16381, 45);
  }

  lemma {:induction false} No16381UpTo120()
    ensures !HasDivisor(16381, 120)
  {
    No16381UpTo60();
    assert !HasDivisor(16381, 75);
    assert !HasDivisor(16381, 90);
    assert !HasDivisor(16381, 105);
  }

  lemma {:induction false} Prime16381()
    ensures IsPrime(16381)
  {
    No16381UpTo120();
    assert !HasDivisor(16381, 127);
    TrialDivision(16381, 127);
  }

  lemma {:induction false} No32749UpTo60()
    ensures !HasDivisor(32749, 60)
  {
    assert !HasDivisor(32749, 15);
    assert !HasDivisor(32749, 30);
    assert !HasDivisor(32749, 45);
  }

  lemma {:induction false} No32749UpTo120()
    ensures !HasDivisor(32749, 120)
  {
    No32749UpTo60();
    assert !HasDivisor(32749, 75);
    assert !HasDivisor(32749, 90);
    assert !HasDivisor(32749, 105);
  }

  lemma {:induction false} Prime32749()
    ensures IsPrime(32749)
  {
    No32749UpTo120();
    assert !HasDivisor(32749, 135);
    assert !HasDivisor(32749, 150);
    assert !HasDivisor(32749, 165);
    assert !HasDivisor(32749, 180);
    TrialDivision(32749, 180);
  }

  // ---- Covering ----

  /** Largest table size whose 3 * idx * idx never wraps in 32 bits. */
  const NO_WRAP := 32749

  lemma SquareBound(i: nat, b: nat)
    requires i <= b
    ensures 3 * i * i <= 3 * b * b
  {
    assert i * i <= i * b;
    assert i * b <= b * b;
  }

  lemma ProbeUnwrapped(hash: nat, i: nat, p: nat)
    requires 0 < p <= NO_WRAP && i < p
    ensures Probe(hash, i, p) == (hash % p + i + 3 * i * i) % p
  {
    SquareBound(i, NO_WRAP - 1);
    DivModIs(hash % p + i + 3 * i * i, WORD32, 0, hash % p + i + 3 * i * i);
  }

  lemma SameModDivides(p: nat, x: int, y: int)
    requires p > 0 && x % p == y % p
    ensures Divides(p, y - x)
  {
    assert y - x == p * (y / p - x / p);
  }

  lemma ProbeDifference(h: int, i: int, j: int)
    ensures (h + j + 3 * j * j) - (h + i + 3 * i * i) == (j - i) * (1 + 3 * (i + j))
  {
    assert (j - i) * (3 * (i + j)) == 3 * j * j - 3 * i * i;
  }

  /** Two probes of one sequence meet only where p divides 1 + 3 * (i + j). */
  lemma {:induction false} SameProbe(hash: nat, i: nat, j: nat, p: nat)
    requires IsPrime(p) && p <= NO_WRAP && i < j < p && Probe(hash, i, p) == Probe(hash, j, p)
    ensures Divides(p, 1 + 3 * (i + j))
  {
    ProbeUnwrapped(hash, i, p);
    ProbeUnwrapped(hash, j, p);
    SameModDivides(p, hash % p + i + 3 * i * i, hash % p + j + 3 * j * j);
    ProbeDifference(hash % p, i, j);
    Euclid(p, j - i, 1 + 3 * (i + j));
  }

  lemma SubtractDivides(p: nat, x: int, y: int)
    requires Divides(p, x) && Divides(p, y)
    ensures Divides(p, y - x)
  {
    var a :| x == p * a;
    var b :| y == p * b;
    assert y - x == p * (b - a);
  }

  lemma SmallNotDivided(p: nat, x: int)
    requires 0 < x < p
    ensures !Divides(p, x)
  {
    forall k: int
      ensures x != p * k
    {
      assert k >= 1 ==> p * k >= p;
      assert k <= 0 ==> p * k <= 0;
    }
  }

  /** No slot is probed three times. */
  lemma {:induction false} NoThirdProbe(hash: nat, i: nat, j: nat, k: nat, p: nat)
    requires IsPrime(p) && 3 < p <= NO_WRAP && i < j < k < p && Probe(hash, i, p) == Probe(hash, j, p)
    ensures Probe(hash, k, p) != Probe(hash, i, p)
  {
    if Probe(hash, k, p) == Probe(hash, i, p) {
      SameProbe(hash, i, j, p);
      SameProbe(hash, i, k, p);
      SubtractDivides(p, 1 + 3 * (i + j), 1 + 3 * (i + k));
      Euclid(p, 3, k - j);
      SmallNotDivided(p, k - j);
    }
  }

  ghost function ProbesInto(hash: nat, used: set<nat>, p: nat): set<nat>
    requires p > 0
  {
    set i: nat | i < p && Probe(hash, i, p) in used
  }

  lemma {:induction false} ThreeOf(s: set<nat>) returns (a: nat, b: nat, c: nat)
    requires |s| > 2
    ensures a in s && b in s && c in s && a != b && b != c && a != c
  {
    a :| a in s;
    assert |s - {a}| > 1;
    b :| b in s - {a};
    assert |s - {a} - {b}| > 0;
    c :| c in s - {a} - {b};
  }

  lemma {:induction false} NoThirdOf(hash: nat, a: nat, b: nat, c: nat, p: nat)
    requires IsPrime(p) && 3 < p <= NO_WRAP && a < p && b < p && c < p && a != b && b != c && a != c
    ensures !(Probe(hash, a, p) == Probe(hash, b, p) == Probe(hash, c, p))
  {
    if Probe(hash, a, p) == Probe(hash, b, p) == Probe(hash, c, p) {
      var lo := if a < b && a < c then a else if b < c then b else c;
      var hi := if a > b && a > c then a else if b > c then b else c;
      var mid := if a != lo && a != hi then a else if b != lo && b != hi then b else c;
      NoThirdProbe(hash, lo, mid, hi, p);
    }
  }

  /** No slot is on more than two of the probes. */
  lemma {:induction false} TwoProbesEach(hash: nat, u: nat, p: nat)
    requires IsPrime(p) && 3 < p <= NO_WRAP
    ensures |ProbesInto(hash, {u}, p)| <= 2
  {
    var s := ProbesInto(hash, {u}, p);
    if |s| > 2 {
      var a, b, c := ThreeOf(s);
      NoThirdOf(hash, a, b, c, p);
    }
  }

  lemma {:induction false} ProbesIntoBound(hash: nat, used: set<nat>, p: nat)
    requires IsPrime(p) && 3 < p <= NO_WRAP
    ensures |ProbesInto(hash, used, p)| <= 2 * |used|
    decreases |used|
  {
    if used == {} {
      assert ProbesInto(hash, used, p) == {};
    } else {
      var u :| u in used;
      ProbesIntoBound(hash, used - {u}, p);
      TwoProbesEach(hash, u, p);
      assert ProbesInto(hash, used, p) == ProbesInto(hash, used - {u}, p) + ProbesInto(hash, {u}, p);
    }
  }

  lemma {:induction false} PickOutside(p: nat, s: set<nat>) returns (i: nat)
    requires |s| < p
    ensures i < p && i !in s
  {
    if p - 1 !in s {
      i := p - 1;
    } else {
      i := PickOutside(p - 1, s - {p - 1});
    }
  }

  // ---- The sequence does not visit every slot ----

  ghost function Visited(hash: nat, lo: nat, hi: nat, p: nat): set<nat>
    requires p > 0
  {
    set i: nat | lo <= i < hi :: Probe(hash, i, p)
  }

  lemma {:induction false} VisitedFew(hash: nat, lo: nat, hi: nat, p: nat)
    requires p > 0 && lo <= hi
    ensures |Visited(hash, lo, hi, p)| <= hi - lo
    decreases hi
  {
    if lo < hi {
      VisitedFew(hash, lo, hi - 1, p);
      assert Visited(hash, lo, hi, p) == Visited(hash, lo, hi - 1, p) + {Probe(hash, hi - 1, p)};
    } else {
      assert Visited(hash, lo, hi, p) == {};
    }
  }

  /** The probe that comes back to the first one: a third of one or two table sizes on. */
  function Comeback(p: nat): nat
    requires p > 0
  {
    if p % 3 == 1 then (p - 1) / 3 else (2 * p - 1) / 3
  }

  lemma NotThreefold(p: nat)
    requires IsPrime(p) && 3 < p
    ensures p % 3 != 0
  {
  }

  lemma ComebackExact(p: nat)
    requires 3 < p && p % 3 != 0
    ensures 0 < Comeback(p) < p && 1 + 3 * Comeback(p) == (if p % 3 == 1 then 1 else 2) * p
  {
  }

  lemma ComebackStep(h: nat, j: nat, k: nat, p: nat)
    requires p > 0 && 1 + 3 * j == k * p
    ensures (h + j + 3 * j * j) % p == h % p
  {
    assert j + 3 * j * j == j * (k * p);
    assert j * (k * p) == (j * k) * p;
    var q := h / p;
    DivModIs(h + (j * k) * p, p, q + j * k, h % p);
  }

  lemma {:induction false} ComesBack(hash: nat, p: nat)
    requires IsPrime(p) && 3 < p <= NO_WRAP
    ensures 0 < Comeback(p) < p && Probe(hash, Comeback(p), p) == Probe(hash, 0, p)
  {
    hide Probe, IsPrime, Comeback;
    NotThreefold(p);
    ComebackExact(p);
    var j := Comeback(p);
    ProbeUnwrapped(hash, 0, p);
    ProbeUnwrapped(hash, j, p);
    ComebackStep(hash % p, j, if p % 3 == 1 then 1 else 2, p);
  }

  /**
   * For every prime size and every hash value some slot is on no probe: the sequence comes back before it is through.
   */
  lemma {:induction false} MissesSlot(hash: nat, p: nat) returns (slot: nat)
    requires IsPrime(p) && 3 < p <= NO_WRAP
    ensures slot < p && forall i: nat :: i < p ==> Probe(hash, i, p) != slot
  {
    hide Probe, IsPrime, Comeback;
    var visited := Visited(hash, 1, p, p);
    VisitedFew(hash, 1, p, p);
    slot := PickOutside(p, visited);
    ComesBack(hash, p);
    forall i: nat | i < p
      ensures Probe(hash, i, p) != slot
    {
      var j := if i == 0 then Comeback(p) else i;
      assert Probe(hash, j, p) in visited;
    }
  }

  /** In the next size of the table, 65521, the product no longer fits 32 bits, and what is left probes elsewhere. */
  lemma ProbeWraps()
    ensures Probe(0, 37838, 65521) != (37838 + 3 * 37838 * 37838) % 65521
  {
  }

  /**
   * A prime-sized table that is less than half full has an empty slot on every probe sequence, although
   * the sequence misses slots: it meets none more than twice.
   */
  lemma {:induction false} PrimeCovers(p: nat)
    requires IsPrime(p) && 3 < p <= NO_WRAP
    ensures Covering(p)
  {
    hide Probe;
    forall hash: nat, used: set<nat> | 2 * |used| < p
      ensures HasFree(hash, used, p)
    {
      ProbesIntoBound(hash, used, p);
      var i := PickOutside(p, ProbesInto(hash, used, p));
      assert Probe(hash, i, p) !in used;
    }
  }
}

/** Multi-limb unsigned arithmetic of the deci significands (f-deci.c).

A significand is a little-endian array of 32-bit limbs; `Val` is the number it stands for.
Each C loop is a method proved against `Val`.  Intermediate 64-bit registers have type `U64`,
so the verifier also shows that no intermediate result wraps around.
*/
module Limbs {
  import opened Arithmetic

  const BASE: nat := 0x1_0000_0000

  type Limb = x: int | 0 <= x < 0x1_0000_0000
  type U64 = x: int | 0 <= x < 0x1_0000_0000_0000_0000

  /** The n-th power of the limb base. */
  ghost function PowB(n: nat): (p: nat)
    ensures p > 0
  {
    if n == 0 then 1 else BASE * PowB(n - 1)
  }

  /** The number a little-endian limb sequence stands for. */
  ghost function Val(s: seq<Limb>): nat {
    if |s| == 0 then 0 else s[0] + BASE * Val(s[1..])
  }

  lemma Horner(d: int, x: int, p: int, v: int)
    ensures d + BASE * (x + p * v) == (d + BASE * x) + (BASE * p) * v
  {
  }

  lemma {:induction false} ValConcat(s: seq<Limb>, t: seq<Limb>)
    ensures Val(s + t) == Val(s) + PowB(|s|) * Val(t)
  {
    if |s| == 0 {
      assert s + t == t;
    } else {
      ValConcat(s[1..], t);
      assert (s + t)[1..] == s[1..] + t;
      Horner(s[0], Val(s[1..]), PowB(|s| - 1), Val(t));
    }
  }

  lemma ValOne(d: Limb)
    ensures Val([d]) == d
  {
    assert [d][1..] == [];
  }

  lemma {:induction false} ValPush(s: seq<Limb>, d: Limb)
    ensures Val(s + [d]) == Val(s) + PowB(|s|) * d
  {
    ValConcat(s, [d]);
    ValOne(d);
  }

  /** Splitting a slice at its last limb: the step of every upward carry loop. */
  lemma {:induction false} ValSnoc(s: seq<Limb>, lo: nat, i: nat)
    requires lo <= i < |s|
    ensures Val(s[lo..i + 1]) == Val(s[lo..i]) + PowB(i - lo) * s[i]
  {
    assert s[lo..i + 1] == s[lo..i] + [s[i]];
    ValPush(s[lo..i], s[i]);
  }

  /** Splitting a slice at its first limb: the step of every downward loop. */
  lemma {:induction false} ValCons(s: seq<Limb>, i: nat, hi: nat)
    requires i < hi <= |s|
    ensures Val(s[i..hi]) == s[i] + BASE * Val(s[i + 1..hi])
  {
    assert s[i..hi][1..] == s[i + 1..hi];
  }

  lemma {:induction false} ValSplit(s: seq<Limb>, lo: nat, mid: nat, hi: nat)
    requires lo <= mid <= hi <= |s|
    ensures Val(s[lo..hi]) == Val(s[lo..mid]) + PowB(mid - lo) * Val(s[mid..hi])
  {
    assert s[lo..hi] == s[lo..mid] + s[mid..hi];
    ValConcat(s[lo..mid], s[mid..hi]);
  }

  lemma {:induction false} ValBound(s: seq<Limb>)
    ensures Val(s) < PowB(|s|)
  {
    if |s| > 0 {
      ValBound(s[1..]);
    }
  }

  lemma {:induction false} PowBAdd(m: nat, n: nat)
    ensures PowB(m + n) == PowB(m) * PowB(n)
  {
    if m > 0 {
      PowBAdd(m - 1, n);
      MulAssoc(BASE, PowB(m - 1), PowB(n));
    }
  }

  lemma {:induction false} ValZero(s: seq<Limb>)
    ensures Val(s) == 0 <==> forall k :: 0 <= k < |s| ==> s[k] == 0
  {
    if |s| > 0 {
      ValZero(s[1..]);
      assert s == [s[0]] + s[1..];
      assert forall k :: 1 <= k < |s| ==> s[k] == s[1..][k - 1];
    }
  }

  lemma HighPartDecides(x: nat, y: nat, p: nat, u: int, v: int)
    requires x < p && u < v
    ensures x + p * u < y + p * v
  {
    MulMono(p, u + 1, v);
  }

  /** Two significands that agree above limb i and differ there compare as that limb does. */
  lemma {:induction false} TopLimbDecides(a: seq<Limb>, b: seq<Limb>, i: nat)
    requires i < |a| == |b|
    requires a[i] < b[i]
    requires forall k :: i < k < |a| ==> a[k] == b[k]
    ensures Val(a) < Val(b)
  {
    ValSplit(a, 0, i, |a|);
    ValSplit(b, 0, i, |b|);
    assert a[0..|a|] == a && b[0..|b|] == b;
    ValCons(a, i, |a|);
    ValCons(b, i, |b|);
    assert a[i + 1..] == b[i + 1..];
    ValBound(a[0..i]);
    HighPartDecides(Val(a[0..i]), Val(b[0..i]), PowB(i), Val(a[i..|a|]), Val(b[i..|b|]));
  }

  /** `m_cmp`: three-way comparison of significands, most significant limb first. */
  method MCmp(n: nat, a: seq<Limb>, b: seq<Limb>) returns (r: int)
    requires n <= |a| && n <= |b|
    ensures -1 <= r <= 1
    ensures r < 0 <==> Val(a[..n]) < Val(b[..n])
    ensures r > 0 <==> Val(a[..n]) > Val(b[..n])
  {
    var i := n - 1;
    while i >= 0
      invariant -1 <= i < n
      invariant forall k :: i < k < n ==> a[k] == b[k]
    {
      if a[i] != b[i] {
        if a[i] < b[i] {
          TopLimbDecides(a[..n], b[..n], i);
          return -1;
        } else {
          TopLimbDecides(b[..n], a[..n], i);
          return 1;
        }
      }
      i := i - 1;
    }
    assert a[..n] == b[..n];
    return 0;
  }

  /** `m_is_zero` */
  method MIsZero(n: nat, a: seq<Limb>) returns (z: bool)
    requires n <= |a|
    ensures z <==> Val(a[..n]) == 0
  {
    var i := 0;
    while i < n && a[i] == 0
      invariant i <= n
      invariant forall k :: 0 <= k < i ==> a[k] == 0
    {
      i := i + 1;
    }
    ValZero(a[..n]);
    if i < n {
      assert a[..n][i] != 0;
    }
    return i == n;
  }

  /** One step of a carry loop: a limb and its carry, weighted by p, make up c. */
  lemma CarryStep(c: nat, p: nat)
    ensures p * (c % BASE) + (BASE * p) * (c / BASE) == p * c
  {
    var q, r := c / BASE, c % BASE;
    assert c == r + BASE * q;
    assert p * c == p * r + p * (BASE * q);
    assert p * (BASE * q) == (BASE * p) * q;
  }

  /** The invariant of `MAdd1`: limbs off..i are final, the carry c still has to be added above. */
  ghost predicate CarryOut(s: seq<Limb>, off: nat, i: nat, c: nat, total: nat) {
    off <= i <= |s| && Val(s[off..i]) + PowB(i - off) * (c + Val(s[i..])) == total
  }

  lemma AddOneAlgebra(p: nat, q: nat, r: nat, rest: nat)
    ensures p * r + (BASE * p) * (q + rest) == p * (r + BASE * q + BASE * rest)
  {
  }

  lemma AddOneStep(p: nat, sum: nat, rest: nat)
    ensures p * (sum % BASE) + (BASE * p) * (sum / BASE + rest) == p * (sum + BASE * rest)
  {
    var q, r := sum / BASE, sum % BASE;
    assert sum == r + BASE * q;
    AddOneAlgebra(p, q, r, rest);
  }

  lemma {:induction false} CarryOutStep(s: seq<Limb>, off: nat, i: nat, c: nat, total: nat)
    requires CarryOut(s, off, i, c, total) && i < |s|
    ensures CarryOut(s[i := (c + s[i]) % BASE], off, i + 1, (c + s[i]) / BASE, total)
  {
    var sum := c + s[i];
    var t := s[i := sum % BASE];
    ValCons(s, i, |s|);
    ValSnoc(t, off, i);
    assert t[off..i] == s[off..i] && t[i + 1..] == s[i + 1..];
    assert s[i + 1..|s|] == s[i + 1..] && s[i..|s|] == s[i..];
    AddOneStep(PowB(i - off), sum, Val(s[i + 1..]));
  }

  lemma {:induction false} CarryOutDone(s: seq<Limb>, off: nat, i: nat, total: nat)
    requires CarryOut(s, off, i, 0, total)
    ensures Val(s[off..]) == total
  {
    ValSplit(s, off, i, |s|);
    assert s[off..|s|] == s[off..] && s[i..|s|] == s[i..];
  }

  lemma {:induction false} CarryOutRoom(s: seq<Limb>, off: nat, i: nat, c: nat, total: nat)
    requires CarryOut(s, off, i, c, total) && c > 0 && total < PowB(|s| - off)
    ensures i < |s|
  {
    MulMono(PowB(i - off), 1, c + Val(s[i..]));
  }

  lemma {:induction false} CarryOutStart(s: seq<Limb>, off: nat, c: nat)
    requires off <= |s|
    ensures CarryOut(s, off, off, c, Val(s[off..]) + c)
  {
  }

  /** `m_add_1`: adds one limb at offset `off`, rippling the carry upward. */
  method MAdd1(a: array<Limb>, off: nat, b: Limb)
    requires off <= a.Length
    requires Val(a[off..]) + b < PowB(a.Length - off)
    modifies a
    ensures a[..off] == old(a[..off])
    ensures Val(a[off..]) == old(Val(a[off..])) + b
    ensures off < a.Length && old(a[off]) + b < BASE ==> a[..] == old(a[..])[off := old(a[off]) + b]
  {
    CarryOutStart(a[..], off, b);
    hide Val, PowB, CarryOut;
    var c: U64 := b;
    var i := off;
    ghost var total := Val(a[off..]) + b;
    while c != 0
      invariant off <= i <= a.Length
      invariant 0 <= c < BASE
      invariant a[..off] == old(a[..off])
      invariant CarryOut(a[..], off, i, c, total)
      invariant i == off ==> c == b && a[..] == old(a[..])
      invariant i > off && old(a[off]) + b < BASE ==> c == 0 && a[..] == old(a[..])[off := old(a[off]) + b]
      decreases a.Length - i
    {
      CarryOutRoom(a[..], off, i, c, total);
      CarryOutStep(a[..], off, i, c, total);
      ghost var before := a[..];
      c := c + a[i];
      a[i] := c % BASE;
      c := c / BASE;
      assert a[..] == before[i := a[i]];
      i := i + 1;
    }
    CarryOutDone(a[..], off, i, total);
  }

  lemma Distribute3(p: nat, c: nat, x: nat, y: nat)
    ensures p * (c + x + y) == p * c + p * x + p * y
  {
  }

  lemma {:induction false} AddStep(done: seq<Limb>, x: seq<Limb>, y: seq<Limb>, i: nat, c: nat, sum: nat)
    requires i < |x| == |y| && |done| == i
    requires Val(done) + PowB(i) * c == Val(x[..i]) + Val(y[..i])
    requires sum == c + x[i] + y[i]
    ensures Val(done + [sum % BASE]) + PowB(i + 1) * (sum / BASE) == Val(x[..i + 1]) + Val(y[..i + 1])
  {
    ValPush(done, sum % BASE);
    ValPush(x[..i], x[i]);
    ValPush(y[..i], y[i]);
    assert x[..i + 1] == x[..i] + [x[i]] && y[..i + 1] == y[..i] + [y[i]];
    var p := PowB(i);
    CarryStep(sum, p);
    Distribute3(p, c, x[i], y[i]);
  }

  /** The invariant of `MAdd`: the limbs done and the carry. */
  ghost predicate Added(done: seq<Limb>, x: seq<Limb>, y: seq<Limb>, i: nat, c: nat) {
    i <= |x| && i <= |y| && Val(done) + PowB(i) * c == Val(x[..i]) + Val(y[..i])
  }

  lemma {:induction false} AddedStart(x: seq<Limb>, y: seq<Limb>)
    ensures Added([], x, y, 0, 0)
  {
    assert x[..0] == [] && y[..0] == [];
  }

  lemma {:induction false} AddedNext(done: seq<Limb>, x: seq<Limb>, y: seq<Limb>, i: nat, c: nat, sum: nat)
    requires i < |x| == |y| && |done| == i && Added(done, x, y, i, c) && sum == c + x[i] + y[i]
    ensures Added(done + [sum % BASE], x, y, i + 1, sum / BASE)
  {
    hide Val, PowB;
    AddStep(done, x, y, i, c, sum);
  }

  lemma {:induction false} AddedEnd(done: seq<Limb>, x: seq<Limb>, y: seq<Limb>, c: Limb)
    requires |x| == |y| == |done| && Added(done, x, y, |x|, c)
    ensures Val(done + [c]) == Val(x) + Val(y)
  {
    assert x[..|x|] == x && y[..|y|] == y;
    ValPush(done, c);
    hide Val, PowB;
  }

  /** `m_add`: s := a + b on n limbs from the offsets given, the carry going to limb n of s.
      s and a may be the same array (as in `m_divide`), b is another one. */
  method MAdd(n: nat, s: array<Limb>, so: nat, a: array<Limb>, ao: nat, b: array<Limb>)
    requires so + n < s.Length && ao + n <= a.Length && n <= b.Length
    requires s != b && (s == a ==> so == ao)
    modifies s
    ensures s[..so] == old(s[..so]) && s[so + n + 1..] == old(s[so + n + 1..])
    ensures Val(s[so..so + n + 1]) == old(Val(a[ao..ao + n])) + Val(b[..n])
  {
    hide Val, PowB, Added;
    var c: U64 := 0;
    ghost var x, y := a[ao..ao + n], b[..n];
    AddedStart(x, y);
    assert s[so..so + 0] == [];
    for i := 0 to n
      invariant 0 <= c <= 1
      invariant forall k {:trigger s[k]} :: 0 <= k < so || so + i <= k < s.Length ==> s[k] == old(s[k])
      invariant s != a ==> a[..] == old(a[..])
      invariant Added(s[so..so + i], x, y, i, c)
    {
      assert a[ao + i] == x[i] && b[i] == y[i];
      ghost var done := s[so..so + i];
      ghost var sum := c + x[i] + y[i];
      AddedNext(done, x, y, i, c, sum);
      c := c + a[ao + i] + b[i];
      s[so + i] := c % BASE;
      c := c / BASE;
      assert s[so..so + i + 1] == done + [sum % BASE];
    }
    AddedEnd(s[so..so + n], x, y, c);
    s[so + n] := c;
    assert s[so..so + n + 1] == s[so..so + n] + [s[so + n]];
  }

  lemma SubAlgebra(p: nat, c: nat, x: nat, y: nat)
    ensures p * (c + 0xffff_ffff + x - y) == p * c + BASE * p - p + p * x - p * y
  {
  }

  lemma {:induction false} SubStep(done: seq<Limb>, x: seq<Limb>, y: seq<Limb>, i: nat, c: nat, sum: nat)
    requires i < |x| == |y| && |done| == i
    requires Val(done) + PowB(i) * c == Val(x[..i]) - Val(y[..i]) + PowB(i)
    requires sum == c + 0xffff_ffff + x[i] - y[i]
    ensures Val(done + [sum % BASE]) + PowB(i + 1) * (sum / BASE)
         == Val(x[..i + 1]) - Val(y[..i + 1]) + PowB(i + 1)
  {
    ValPush(done, sum % BASE);
    ValPush(x[..i], x[i]);
    ValPush(y[..i], y[i]);
    assert x[..i + 1] == x[..i] + [x[i]] && y[..i + 1] == y[..i] + [y[i]];
    CarryStep(sum, PowB(i));
    SubAlgebra(PowB(i), c, x[i], y[i]);
  }

  /** The invariant of `MSubtract`: the limbs done and the carry c, one less than which is borrowed. */
  ghost predicate Borrowed(done: seq<Limb>, x: seq<Limb>, y: seq<Limb>, i: nat, c: nat) {
    i <= |x| && i <= |y| && Val(done) + PowB(i) * c == Val(x[..i]) - Val(y[..i]) + PowB(i)
  }

  lemma {:induction false} BorrowedStart(x: seq<Limb>, y: seq<Limb>)
    ensures Borrowed([], x, y, 0, 1)
  {
    assert x[..0] == [] && y[..0] == [];
  }

  lemma {:induction false} BorrowedNext(done: seq<Limb>, x: seq<Limb>, y: seq<Limb>, i: nat, c: nat, sum: nat)
    requires i < |x| == |y| && |done| == i && Borrowed(done, x, y, i, c)
    requires sum == c + 0xffff_ffff + x[i] - y[i]
    ensures Borrowed(done + [sum % BASE], x, y, i + 1, sum / BASE)
  {
    hide Val, PowB;
    SubStep(done, x, y, i, c, sum);
  }

  lemma {:induction false} BorrowedEnd(done: seq<Limb>, x: seq<Limb>, y: seq<Limb>, c: nat)
    requires |x| == |y| == |done| && c <= 1 && Borrowed(done, x, y, |x|, c)
    ensures c == 0 <==> Val(x) < Val(y)
    ensures Val(done) == Val(x) - Val(y) + (if c == 0 then PowB(|x|) else 0)
  {
    assert x[..|x|] == x && y[..|y|] == y;
    ValBound(done);
    hide Val, PowB;
  }

  /** `m_subtract`: d := a - b on n limbs from the offsets given, modulo B^n; the result says whether
      it wrapped.  d and a may be the same array (as in `m_divide`), b is another one. */
  method MSubtract(n: nat, d: array<Limb>, off: nat, a: array<Limb>, ao: nat, b: array<Limb>) returns (borrow: bool)
    requires off + n <= d.Length && ao + n <= a.Length && n <= b.Length
    requires d != b && (d == a ==> off == ao)
    modifies d
    ensures d[..off] == old(d[..off]) && d[off + n..] == old(d[off + n..])
    ensures borrow <==> old(Val(a[ao..ao + n])) < Val(b[..n])
    ensures Val(d[off..off + n]) == old(Val(a[ao..ao + n])) - Val(b[..n]) + (if borrow then PowB(n) else 0)
  {
    hide Val, PowB, Borrowed;
    var c: U64 := 1;
    ghost var x, y := a[ao..ao + n], b[..n];
    BorrowedStart(x, y);
    assert d[off..off + 0] == [];
    for i := 0 to n
      invariant 0 <= c <= 1
      invariant forall k {:trigger d[k]} :: 0 <= k < off || off + i <= k < d.Length ==> d[k] == old(d[k])
      invariant d != a ==> a[..] == old(a[..])
      invariant Borrowed(d[off..off + i], x, y, i, c)
    {
      assert a[ao + i] == x[i] && b[i] == y[i];
      ghost var done := d[off..off + i];
      ghost var sum := c + 0xffff_ffff + x[i] - y[i];
      BorrowedNext(done, x, y, i, c, sum);
      c := c + 0xffff_ffff + a[ao + i] - b[i];
      d[off + i] := c % BASE;
      c := c / BASE;
      assert d[off..off + i + 1] == done + [sum % BASE];
    }
    BorrowedEnd(d[off..off + n], x, y, c);
    return c == 0;
  }

  /** A limb product plus two limbs fits 64 bits and leaves a one-limb carry. */
  lemma LimbProduct(x: Limb, y: Limb, g: nat)
    requires g < 2 * BASE - 1
    ensures 0 <= x * y <= 0xffff_ffff * 0xffff_ffff
    ensures g + x * y < BASE * BASE
    ensures (g + x * y) / BASE < BASE
  {
    MulMono(x, y, 0xffff_ffff);
  }

  lemma MulAlgebra(v: nat, p: nat, g: nat, b: nat, x: nat)
    ensures p * (g + b * x) == p * g + (v + p * x) * b - v * b
  {
  }

  lemma {:induction false} MulStep(done: seq<Limb>, x: seq<Limb>, b: nat, j: nat, g: nat, sum: nat)
    requires j < |x| && |done| == j
    requires Val(done) + PowB(j) * g == Val(x[..j]) * b
    requires sum == g + b * x[j]
    ensures Val(done + [sum % BASE]) + PowB(j + 1) * (sum / BASE) == Val(x[..j + 1]) * b
  {
    ValPush(done, sum % BASE);
    ValPush(x[..j], x[j]);
    assert x[..j + 1] == x[..j] + [x[j]];
    CarryStep(sum, PowB(j));
    MulAlgebra(Val(x[..j]), PowB(j), g, b, x[j]);
  }

  /** `m_multiply_1`: p := a * b on n limbs, the carry going to limb n; p and a may be the same. */
  method MMultiply1(n: nat, p: array<Limb>, a: array<Limb>, b: Limb)
    requires n < p.Length && n <= a.Length
    modifies p
    ensures forall k :: n < k < p.Length ==> p[k] == old(p[k])
    ensures Val(p[..n + 1]) == old(Val(a[..n])) * b
  {
    var g: U64 := 0;
    ghost var x := a[..n];
    for j := 0 to n
      invariant 0 <= g < BASE
      invariant forall k :: j <= k < p.Length ==> p[k] == old(p[k])
      invariant p != a ==> a[..] == old(a[..])
      invariant Val(p[..j]) + PowB(j) * g == Val(x[..j]) * b
    {
      assert a[j] == x[j];
      ghost var done, g0 := p[..j], g;
      LimbProduct(b, a[j], g);
      g := g + b * a[j];
      ghost var sum := g;
      p[j] := g % BASE;
      g := g / BASE;
      assert p[..j + 1] == done + [sum % BASE];
      MulStep(done, x, b, j, g0, sum);
    }
    p[n] := g;
    assert x[..n] == x;
    assert p[..n + 1] == p[..n] + [p[n]];
    ValPush(p[..n], p[n]);
  }

  lemma QuotientDigit(f: nat, d: Limb, b: nat)
    requires f < b
    ensures 0 <= (f * BASE + d) / b < BASE
  {
    var t := f * BASE + d;
    assert t < b * BASE;
    var q, r := t / b, t % b;
    assert t == b * q + r;
    MulCancelLess(b, q, BASE);
  }

  lemma DivAlgebra(q: nat, v: nat, b: nat, f: nat, r: nat, x: nat)
    requires f * BASE + x == b * q + r
    ensures x + BASE * (v * b + f) == (q + BASE * v) * b + r
  {
  }

  lemma {:induction false} ValHead(h: Limb, t: seq<Limb>)
    ensures Val([h] + t) == h + BASE * Val(t)
  {
    assert ([h] + t)[1..] == t;
  }

  lemma {:induction false} DivStep(done: seq<Limb>, x: seq<Limb>, b: nat, i: nat, f: nat, d: nat)
    requires i < |x| && b > 0 && d == f * BASE + x[i] && 0 <= d / b < BASE
    requires Val(x[i + 1..]) == Val(done) * b + f
    ensures Val(x[i..]) == Val([d / b] + done) * b + d % b
  {
    hide Val;
    assert x[i..] == [x[i]] + x[i + 1..];
    ValHead(x[i], x[i + 1..]);
    var q, r := d / b, d % b;
    ValHead(q, done);
    DivAlgebra(q, Val(done), b, f, r, x[i]);
  }

  /** `m_divide_1`: q := a / b on n limbs, returning the remainder; q and a may be the same. */
  method MDivide1(n: nat, q: array<Limb>, a: array<Limb>, b: Limb) returns (r: Limb)
    requires n <= q.Length && n <= a.Length && b > 0
    modifies q
    ensures q[n..] == old(q[n..])
    ensures old(Val(a[..n])) == Val(q[..n]) * b + r && r < b
  {
    var f: U64 := 0;
    var i := n;
    ghost var x := a[..n];
    while i > 0
      invariant 0 <= i <= n
      invariant 0 <= f < b
      invariant q[..i] == old(q[..i]) && q[n..] == old(q[n..])
      invariant q != a ==> a[..] == old(a[..])
      invariant Val(x[i..]) == Val(q[i..n]) * b + f
    {
      i := i - 1;
      assert a[i] == x[i];
      ghost var done, f0 := q[i + 1..n], f;
      f := f * BASE + a[i];
      ghost var d := f;
      QuotientDigit(f0, a[i], b);
      q[i] := f / b;
      f := f % b;
      assert q[i..n] == [d / b] + done;
      DivStep(done, x, b, i, f0, d);
    }
    assert x[0..] == x;
    assert q[0..n] == q[..n];
    return f;
  }

  lemma {:induction false} TopFits(s: seq<Limb>, g: Limb)
    requires |s| > 0 && s[0] == 0
    ensures Val(s) + g < PowB(|s|)
  {
    ValBound(s[1..]);
    MulMono(BASE, Val(s[1..]) + 1, PowB(|s| - 1));
  }

  lemma RowAlgebra(v: nat, p: nat, g: nat, f: nat, x: nat, y: nat)
    ensures p * (g + (f * x + y)) == p * g + (v + p * x) * f - v * f + p * y
  {
  }

  lemma {:induction false} RowStep(done: seq<Limb>, x: seq<Limb>, y: seq<Limb>, f: nat, j: nat, g: nat, sum: nat)
    requires j < |x| == |y| && |done| == j
    requires Val(done) + PowB(j) * g == Val(y[..j]) + Val(x[..j]) * f
    requires sum == g + (f * x[j] + y[j])
    ensures Val(done + [sum % BASE]) + PowB(j + 1) * (sum / BASE) == Val(y[..j + 1]) + Val(x[..j + 1]) * f
  {
    ValPush(done, sum % BASE);
    ValPush(x[..j], x[j]);
    ValPush(y[..j], y[j]);
    assert x[..j + 1] == x[..j] + [x[j]] && y[..j + 1] == y[..j] + [y[j]];
    CarryStep(sum, PowB(j));
    RowAlgebra(Val(x[..j]), PowB(j), g, f, x[j], y[j]);
  }

  /** The invariant of `MMultiplyRow`: the limbs done and the carry. */
  ghost predicate RowDone(done: seq<Limb>, x: seq<Limb>, y: seq<Limb>, f: nat, j: nat, g: nat) {
    j <= |x| && j <= |y| && Val(done) + PowB(j) * g == Val(y[..j]) + Val(x[..j]) * f
  }

  lemma {:induction false} RowStart(x: seq<Limb>, y: seq<Limb>, f: nat)
    ensures RowDone([], x, y, f, 0, 0)
  {
    assert x[..0] == [] && y[..0] == [];
  }

  lemma {:induction false} RowNext(done: seq<Limb>, x: seq<Limb>, y: seq<Limb>, f: nat, j: nat, g: nat, sum: nat)
    requires j < |x| == |y| && |done| == j && RowDone(done, x, y, f, j, g) && sum == g + (f * x[j] + y[j])
    ensures RowDone(done + [sum % BASE], x, y, f, j + 1, sum / BASE)
  {
    hide Val, PowB;
    RowStep(done, x, y, f, j, g, sum);
  }

  /** The last carry goes to the limb above. */
  lemma {:induction false} RowEnd(done: seq<Limb>, x: seq<Limb>, y: seq<Limb>, f: nat, g: Limb)
    requires |x| == |y| == |done| && RowDone(done, x, y, f, |x|, g)
    ensures Val(done + [g]) == Val(y) + Val(x) * f
  {
    assert x[..|x|] == x && y[..|y|] == y;
    ValPush(done, g);
    hide Val, PowB;
  }

  /** The inner loop of `m_multiply`: adds f * a to the n limbs of p from limb i, whose limb i + n is still zero. */
  method MMultiplyRow(p: array<Limb>, i: nat, n: nat, a: array<Limb>, f: Limb)
    requires i + n < p.Length && n <= a.Length && p != a
    requires p[i + n] == 0
    modifies p
    ensures p[..i] == old(p[..i]) && p[i + n + 1..] == old(p[i + n + 1..])
    ensures Val(p[i..i + n + 1]) == old(Val(p[i..i + n])) + Val(a[..n]) * f
  {
    hide Val, PowB, RowDone;
    var g: U64 := 0;
    ghost var x, y := a[..n], p[i..i + n];
    RowStart(x, y, f);
    assert p[i..i + 0] == [];
    for j := 0 to n
      invariant 0 <= g < BASE
      invariant forall k {:trigger p[k]} :: 0 <= k < i || i + j <= k < p.Length ==> p[k] == old(p[k])
      invariant RowDone(p[i..i + j], x, y, f, j, g)
    {
      assert a[j] == x[j] && p[i + j] == y[j];
      ghost var done := p[i..i + j];
      LimbProduct(f, a[j], g + p[i + j]);
      RowNext(done, x, y, f, j, g, g + (f * x[j] + y[j]));
      g := g + (f * a[j] + p[i + j]);
      p[i + j] := g % BASE;
      g := g / BASE;
      assert p[i..i + j + 1] == done + [p[i + j]];
    }
    RowEnd(p[i..i + n], x, y, f, g);
    ghost var before := p[..];
    TopFits(p[i + n..], g);
    MAdd1(p, i + n, g);
    assert p[..] == before[i + n := g];
    assert p[i..i + n + 1] == before[i..i + n] + [g];
  }

  lemma RowsAlgebra(p: nat, low: nat, mid: nat, mid': nat, a: nat, f: nat, v: nat)
    requires low + p * mid == a * v
    requires mid' == mid + a * f
    ensures low + p * mid' == a * (v + p * f)
  {
    assert p * (mid + a * f) == p * mid + a * (p * f);
    assert a * (v + p * f) == a * v + a * (p * f);
  }

  lemma {:induction false} RowsStep(before: seq<Limb>, after: seq<Limb>, x: seq<Limb>, y: seq<Limb>, i: nat)
    requires i < |y| && |x| + i < |before| == |after|
    requires before[..i] == after[..i]
    requires Val(after[i..i + |x| + 1]) == Val(before[i..i + |x|]) + Val(x) * y[i]
    requires Val(before[..|x| + i]) == Val(x) * Val(y[..i])
    ensures Val(after[..|x| + (i + 1)]) == Val(x) * Val(y[..i + 1])
  {
    hide Val, PowB;
    var n := |x|;
    ValSplit(before, 0, i, i + n);
    ValSplit(after, 0, i, i + n + 1);
    assert before[0..i] == before[..i] && after[0..i] == after[..i];
    assert before[0..i + n] == before[..n + i] && after[0..i + n + 1] == after[..n + (i + 1)];
    ValPush(y[..i], y[i]);
    assert y[..i + 1] == y[..i] + [y[i]];
    RowsAlgebra(PowB(i), Val(before[..i]), Val(before[i..i + n]), Val(after[i..i + n + 1]), Val(x), y[i], Val(y[..i]));
  }

  /** The invariant of `MMultiply`: the product by the first i limbs of y. */
  ghost predicate RowsDone(p: seq<Limb>, x: seq<Limb>, y: seq<Limb>, i: nat) {
    i <= |y| && |x| + i <= |p| && Val(p[..|x| + i]) == Val(x) * Val(y[..i])
  }

  lemma {:induction false} RowsStart(p: seq<Limb>, x: seq<Limb>, y: seq<Limb>)
    requires |x| <= |p| && forall t :: 0 <= t < |x| ==> p[t] == 0
    ensures RowsDone(p, x, y, 0)
  {
    ValZero(p[..|x|]);
    assert y[..0] == [];
  }

  lemma {:induction false} RowsNext(before: seq<Limb>, after: seq<Limb>, x: seq<Limb>, y: seq<Limb>, i: nat)
    requires i < |y| && |x| + i < |before| == |after| && RowsDone(before, x, y, i) && before[..i] == after[..i]
    requires Val(after[i..i + |x| + 1]) == Val(before[i..i + |x|]) + Val(x) * y[i]
    ensures RowsDone(after, x, y, i + 1)
  {
    hide Val, PowB;
    RowsStep(before, after, x, y, i);
  }

  lemma {:induction false} RowsEnd(p: seq<Limb>, x: seq<Limb>, y: seq<Limb>)
    requires RowsDone(p, x, y, |y|)
    ensures Val(p[..|x| + |y|]) == Val(x) * Val(y)
  {
    hide Val;
    assert y[..|y|] == y;
  }

  lemma {:induction false} SameAbove(before: seq<Limb>, after: seq<Limb>, k: nat)
    requires k <= |before| == |after| && before[k..] == after[k..]
    ensures forall t {:trigger after[t]} :: k <= t < |after| ==> after[t] == before[t]
  {
    forall t {:trigger after[t]} | k <= t < |after|
      ensures after[t] == before[t]
    {
      assert after[k..][t - k] == before[k..][t - k];
    }
  }

  /** `m_multiply`: p := a * b, schoolbook, row by row. */
  method MMultiply(p: array<Limb>, n: nat, a: array<Limb>, m: nat, b: array<Limb>)
    requires n + m <= p.Length && n <= a.Length && m <= b.Length && p != a && p != b
    modifies p
    ensures p[n + m..] == old(p[n + m..])
    ensures Val(p[..n + m]) == Val(a[..n]) * Val(b[..m])
  {
    hide Val, PowB, RowsDone;
    for k := 0 to n + m
      invariant forall t {:trigger p[t]} :: n + m <= t < p.Length ==> p[t] == old(p[t])
      invariant forall t {:trigger p[t]} :: 0 <= t < k ==> p[t] == 0
    {
      p[k] := 0;
    }
    ghost var x, y := a[..n], b[..m];
    RowsStart(p[..], x, y);
    for i := 0 to m
      invariant forall t {:trigger p[t]} :: n + m <= t < p.Length ==> p[t] == old(p[t])
      invariant forall t {:trigger p[t]} :: n + i <= t < n + m ==> p[t] == 0
      invariant RowsDone(p[..], x, y, i)
    {
      assert b[i] == y[i];
      ghost var before := p[..];
      MMultiplyRow(p, i, n, a, b[i]);
      RowsNext(before, p[..], x, y, i);
      SameAbove(before, p[..], i + n + 1);
    }
    RowsEnd(p[..], x, y);
  }

  /** The invariant of `MSubtract1`: limbs below i are final, the negative carry c still has to be added above. */
  ghost predicate BorrowOut(s: seq<Limb>, i: nat, c: int, total: int) {
    i <= |s| && Val(s[..i]) + PowB(i) * (c + Val(s[i..])) == total
  }

  lemma {:induction false} BorrowRoom(s: seq<Limb>, i: nat, c: int, total: nat)
    requires c < 0 && BorrowOut(s, i, c, total)
    ensures i < |s|
  {
    ValBound(s[..i]);
    if i == |s| {
      MulMono(PowB(i), c + Val(s[i..]), -1);
    }
  }

  lemma BorrowAlgebra(p: nat, q: nat, r: nat, rest: nat, c: int, x: int)
    requires c + 0x1_0000_0000 + x == r + BASE * q
    ensures p * r + (BASE * p) * (q - 1 + rest) == p * (c + (x + BASE * rest))
  {
    assert c + (x + BASE * rest) == r + BASE * (q - 1 + rest);
    assert p * (r + BASE * (q - 1 + rest)) == p * r + (BASE * p) * (q - 1 + rest);
  }

  lemma {:induction false} BorrowStep(s: seq<Limb>, i: nat, c: int, total: nat)
    requires i < |s| && -0x1_0000_0000 < c < 0 && BorrowOut(s, i, c, total)
    ensures 0 <= c + 0x1_0000_0000 + s[i]
    ensures BorrowOut(s[i := (c + 0x1_0000_0000 + s[i]) % BASE], i + 1, (c + 0x1_0000_0000 + s[i]) / BASE - 1, total)
  {
    var sum: nat := c + 0x1_0000_0000 + s[i];
    var t := s[i := sum % BASE];
    assert t[..i + 1] == s[..i] + [sum % BASE] && t[i + 1..] == s[i + 1..];
    ValPush(s[..i], sum % BASE);
    assert s[i..][1..] == s[i + 1..];
    var q, r := sum / BASE, sum % BASE;
    assert sum == r + BASE * q;
    BorrowAlgebra(PowB(i), q, r, Val(s[i + 1..]), c, s[i]);
  }

  lemma {:induction false} BorrowDone(s: seq<Limb>, i: nat, total: nat)
    requires BorrowOut(s, i, 0, total)
    ensures Val(s) == total
  {
    ValSplit(s, 0, i, |s|);
    assert s[0..|s|] == s && s[0..i] == s[..i] && s[i..|s|] == s[i..];
  }

  /** `m_subtract_1`: takes one limb away, rippling the borrow upward. */
  method MSubtract1(a: array<Limb>, b: Limb)
    requires Val(a[..]) >= b
    modifies a
    ensures Val(a[..]) == old(Val(a[..])) - b
  {
    var c: int := 0 - b;
    var i := 0;
    ghost var total := Val(a[..]) - b;
    assert a[..][0..] == a[..];
    assert BorrowOut(a[..], 0, c, total);
    hide Val, PowB, BorrowOut;
    while c != 0
      invariant 0 <= i <= a.Length && -0x1_0000_0000 < c <= 0
      invariant BorrowOut(a[..], i, c, total)
      decreases a.Length - i
    {
      BorrowRoom(a[..], i, c, total);
      BorrowStep(a[..], i, c, total);
      ghost var before := a[..];
      c := c + 0x1_0000_0000 + a[i];
      a[i] := c % BASE;
      c := c / BASE - 1;
      assert a[..] == before[i := a[i]];
      i := i + 1;
    }
    BorrowDone(a[..], i, total);
  }

  lemma {:induction false} NegateStep(done: seq<Limb>, x: seq<Limb>, i: nat, c: nat, sum: nat)
    requires i < |x| && |done| == i
    requires Val(done) + PowB(i) * c == PowB(i) - Val(x[..i])
    requires sum == c + 0xffff_ffff - x[i]
    ensures Val(done + [sum % BASE]) + PowB(i + 1) * (sum / BASE) == PowB(i + 1) - Val(x[..i + 1])
  {
    ValPush(done, sum % BASE);
    ValPush(x[..i], x[i]);
    assert x[..i + 1] == x[..i] + [x[i]];
    CarryStep(sum, PowB(i));
    SubAlgebra(PowB(i), c, 0, x[i]);
  }

  lemma NegateEnd(v: nat, p: nat, c: nat, x: nat)
    requires v < p && c <= 1 && v + p * c == p - x
    ensures v == if x == 0 then 0 else p - x
  {
    assert c == 0 || c == 1;
  }

  /** `m_negate`: the two's complement of a significand of n limbs. */
  method MNegate(n: nat, a: array<Limb>)
    requires n <= a.Length
    modifies a
    ensures a[n..] == old(a[n..])
    ensures Val(a[..n]) == if old(Val(a[..n])) == 0 then 0 else PowB(n) - old(Val(a[..n]))
  {
    var c: U64 := 1;
    ghost var x := a[..n];
    for i := 0 to n
      invariant 0 <= c <= 1
      invariant forall k :: i <= k < a.Length ==> a[k] == old(a[k])
      invariant Val(a[..i]) + PowB(i) * c == PowB(i) - Val(x[..i])
    {
      assert a[i] == x[i];
      ghost var done := a[..i];
      ghost var c0 := c;
      c := c + 0xffff_ffff - a[i];
      ghost var sum := c;
      a[i] := c % BASE;
      c := c / BASE;
      assert a[..i + 1] == done + [sum % BASE];
      NegateStep(done, x, i, c0, sum);
    }
    assert x[..n] == x;
    ValBound(a[..n]);
    NegateEnd(Val(a[..n]), PowB(n), c, Val(x));
  }
}

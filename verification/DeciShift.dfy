/** Decimal shifts of significands (f-deci.c): the tables of powers and of rounding limits, `dsl`,
`dsr`, and the two shift counts that start from a logarithm and are repaired by a table lookup.
*/
module DeciShift {
  import opened Arithmetic
  import opened Limbs
  import opened Rounding

  /** The table P: unnormalised powers of ten. */
  function P(i: nat): (row: seq<Limb>)
    requires i <= 26
    ensures |row| == 3
  {
    if i == 0 then [1, 0, 0]
    else if i == 1 then [10, 0, 0]
    else if i == 2 then [100, 0, 0]
    else if i == 3 then [1000, 0, 0]
    else if i == 4 then [10000, 0, 0]
    else if i == 5 then [100000, 0, 0]
    else if i == 6 then [1000000, 0, 0]
    else if i == 7 then [10000000, 0, 0]
    else if i == 8 then [100000000, 0, 0]
    else if i == 9 then [1000000000, 0, 0]
    else if i == 10 then [1410065408, 2, 0]
    else if i == 11 then [1215752192, 23, 0]
    else if i == 12 then [3567587328, 232, 0]
    else if i == 13 then [1316134912, 2328, 0]
    else if i == 14 then [276447232, 23283, 0]
    else if i == 15 then [2764472320, 232830, 0]
    else if i == 16 then [1874919424, 2328306, 0]
    else if i == 17 then [1569325056, 23283064, 0]
    else if i == 18 then [2808348672, 232830643, 0]
    else if i == 19 then [2313682944, 2328306436, 0]
    else if i == 20 then [1661992960, 1808227885, 5]
    else if i == 21 then [3735027712, 902409669, 54]
    else if i == 22 then [2990538752, 434162106, 542]
    else if i == 23 then [4135583744, 46653770, 5421]
    else if i == 24 then [2701131776, 466537709, 54210]
    else if i == 25 then [1241513984, 370409800, 542101]
    else [3825205248, 3704098002, 5421010]
  }

  /** The table Q: the least six-limb significands that round up to a further digit. */
  function Q(i: nat): (row: seq<Limb>)
    requires i <= 25
    ensures |row| == 6
  {
    if i == 0 then [3892314107, 2681241660, 54210108, 0, 0, 0]
    else if i == 1 then [268435406, 1042612833, 542101086, 0, 0, 0]
    else if i == 2 then [2684354060, 1836193738, 1126043566, 1, 0, 0]
    else if i == 3 then [1073736824, 1182068202, 2670501072, 12, 0, 0]
    else if i == 4 then [2147433648, 3230747430, 935206946, 126, 0, 0]
    else if i == 5 then [4294467296, 2242703232, 762134875, 1262, 0, 0]
    else if i == 6 then [4289967296, 952195849, 3326381459, 12621, 0, 0]
    else if i == 7 then [4244967296, 932023907, 3199043520, 126217, 0, 0]
    else if i == 8 then [3794967296, 730304487, 1925664130, 1262177, 0, 0]
    else if i == 9 then [3589934592, 3008077582, 2076772117, 12621774, 0, 0]
    else if i == 10 then [1539607552, 16004756, 3587851993, 126217744, 0, 0]
    else if i == 11 then [2511173632, 160047563, 1518781562, 1262177448, 0, 0]
    else if i == 12 then [3636899840, 1600475635, 2302913732, 4031839891, 2, 0]
    else if i == 13 then [2009260032, 3119854470, 1554300843, 1663693251, 29, 0]
    else if i == 14 then [2912731136, 1133773632, 2658106549, 3752030625, 293, 0]
    else if i == 15 then [3357507584, 2747801734, 811261716, 3160567888, 2938, 0]
    else if i == 16 then [3510304768, 1708213571, 3817649870, 1540907809, 29387, 0]
    else if i == 17 then [743309312, 4197233830, 3816760335, 2524176210, 293873, 0]
    else if i == 18 then [3138125824, 3317632637, 3807864991, 3766925628, 2938735, 0]
    else if i == 19 then [1316487168, 3111555305, 3718911549, 3309517920, 29387358, 0]
    else if i == 20 then [279969792, 1050781981, 2829377129, 3030408136, 293873587, 0]
    else if i == 21 then [2799697920, 1917885218, 2523967516, 239310294, 2938735877, 0]
    else if i == 22 then [2227175424, 1998983002, 3764838684, 2393102945, 3617554994, 6]
    else if i == 23 then [796917760, 2809960841, 3288648476, 2456192978, 1815811577, 68]
    else if i == 24 then [3674210304, 2329804635, 2821713694, 3087093307, 978246591, 684]
    else [2382364672, 1823209878, 2447333169, 806162004, 1192531325, 6842]
  }

  lemma {:induction false} ValThree(s: seq<Limb>)
    requires |s| == 3
    ensures Val(s) == s[0] + BASE * (s[1] + BASE * s[2])
  {
    assert s[1..][1..] == [s[2]];
    ValOne(s[2]);
    assert Val(s[1..]) == s[1] + BASE * Val([s[2]]);
  }

  lemma {:induction false} ValSix(s: seq<Limb>)
    requires |s| == 6
    ensures Val(s) == s[0] + BASE * (s[1] + BASE * (s[2] + BASE * (s[3] + BASE * (s[4] + BASE * s[5]))))
  {
    assert s[1..][1..] == s[2..] && s[2..][1..] == s[3..];
    ValThree(s[3..]);
    assert Val(s[2..]) == s[2] + BASE * Val(s[3..]);
    assert Val(s[1..]) == s[1] + BASE * Val(s[2..]);
  }

  lemma PowerStepLow(i: nat)
    requires 1 <= i <= 13
    ensures Val(P(i)) == 10 * Val(P(i - 1))
  {
    ValThree(P(i));
    ValThree(P(i - 1));
  }

  lemma PowerStepHigh(i: nat)
    requires 14 <= i <= 26
    ensures Val(P(i)) == 10 * Val(P(i - 1))
  {
    ValThree(P(i));
    ValThree(P(i - 1));
  }

  lemma FirstPower()
    ensures Val(P(0)) == 1
  {
    ValThree(P(0));
  }

  lemma {:induction false} PowerRow(i: nat)
    requires i <= 26
    ensures Val(P(i)) == Pow10(i)
  {
    hide P, Val;
    if i == 0 {
      FirstPower();
    } else {
      PowerRow(i - 1);
      if i <= 13 {
        PowerStepLow(i);
      } else {
        PowerStepHigh(i);
      }
    }
  }

  lemma LimitStep1(i: nat)
    requires 1 <= i <= 6
    ensures Val(Q(i)) == 10 * Val(Q(i - 1))
  {
    ValSix(Q(i));
    ValSix(Q(i - 1));
  }

  lemma LimitStep2(i: nat)
    requires 7 <= i <= 12
    ensures Val(Q(i)) == 10 * Val(Q(i - 1))
  {
    ValSix(Q(i));
    ValSix(Q(i - 1));
  }

  lemma LimitStep3(i: nat)
    requires 13 <= i <= 18
    ensures Val(Q(i)) == 10 * Val(Q(i - 1))
  {
    ValSix(Q(i));
    ValSix(Q(i - 1));
  }

  lemma LimitStep4(i: nat)
    requires 19 <= i <= 25
    ensures Val(Q(i)) == 10 * Val(Q(i - 1))
  {
    ValSix(Q(i));
    ValSix(Q(i - 1));
  }

  lemma LimitStep(i: nat)
    requires 1 <= i <= 25
    ensures Val(Q(i)) == 10 * Val(Q(i - 1))
  {
    hide Q, Val;
    if i <= 6 {
      LimitStep1(i);
    } else if i <= 12 {
      LimitStep2(i);
    } else if i <= 18 {
      LimitStep3(i);
    } else {
      LimitStep4(i);
    }
  }

  lemma FirstRows()
    ensures Q(0) == [3892314107, 2681241660, 54210108, 0, 0, 0]
    ensures P(26) == [3825205248, 3704098002, 5421010]
  {
  }

  lemma TenToThe27()
    ensures Pow10(27) == 10 * Pow10(26) && Pow10(0) == 1
  {
  }

  lemma LimitFirst()
    ensures Val(Q(0)) == Pow10(27) - 5 * Pow10(0)
  {
    PowerRow(26);
    TenToThe27();
    FirstRows();
    hide Pow10, P, Q, Val;
    ValSix(Q(0));
    ValThree(P(26));
  }

  lemma {:induction false} LimitRow(i: nat)
    requires i <= 25
    ensures Val(Q(i)) == Pow10(27 + i) - 5 * Pow10(i)
  {
    hide Q, Val;
    if i == 0 {
      LimitFirst();
    } else {
      LimitRow(i - 1);
      LimitStep(i);
    }
  }

  // ---- dsl and dsr ----

  lemma ChunkPower(s: nat)
    requires 1 <= s <= 9
    ensures |P(s)| == 3 && 0 < P(s)[0] == Pow10(s) && Pow10(s) % 2 == 0
  {
    PowerRow(s);
    ValThree(P(s));
    assert Pow10(s) == 10 * Pow10(s - 1);
  }

  lemma {:induction false} ZerosAbove(a: seq<Limb>, n: nat)
    requires n <= |a| && forall k :: n <= k < |a| ==> a[k] == 0
    ensures Val(a) == Val(a[..n])
  {
    ValSplit(a, 0, n, |a|);
    assert a[0..|a|] == a && a[0..n] == a[..n];
    ValZero(a[n..|a|]);
  }

  lemma {:induction false} NonzeroAt(a: seq<Limb>, n: nat)
    requires n < |a| && a[n] != 0
    ensures Val(a) >= PowB(n)
  {
    ValSplit(a, 0, n, |a|);
    assert a[0..|a|] == a;
    MulMono(PowB(n), 1, Val(a[n..|a|]));
  }

  method MultiplyChunk(n: nat, a: array<Limb>, b: Limb, ghost len: nat)
    requires n < len <= a.Length
    modifies a
    ensures forall k :: n < k < a.Length ==> a[k] == old(a[k])
    ensures a[..len][n + 1..] == old(a[..len])[n + 1..]
    ensures Val(a[..len][..n + 1]) == Val(old(a[..len])[..n]) * b
  {
    assert a[..len][..n] == a[..n];
    MMultiply1(n, a, a, b);
    assert a[..len][..n + 1] == a[..n + 1];
  }

  lemma DslPower(v: nat, s: nat, left: nat)
    requires s <= left
    ensures Scaled(Scaled(v, s), left - s) == Scaled(v, left)
  {
    Pow10Add(s, left - s);
    hide Pow10;
    assert (v * Pow10(s)) * Pow10(left - s) == v * (Pow10(s) * Pow10(left - s));
  }

  lemma {:induction false} DslRoom(a: seq<Limb>, n: nat, p: nat)
    requires n < |a| && p > 0 && Val(a) * p < PowB(|a| - 1)
    ensures a[n] != 0 ==> n + 1 < |a|
  {
    MulMono(Val(a), 1, p);
    if a[n] != 0 {
      NonzeroAt(a, n);
    }
  }

  /** One chunk of `dsl`: the number is multiplied, and the limb count can only grow while there is room. */
  lemma {:induction false} DslStep(before: seq<Limb>, after: seq<Limb>, n: nat, s: nat, left: nat, total: nat)
    requires |before| == |after| && n < |before| && s <= left
    requires forall k :: n <= k < |before| ==> before[k] == 0
    requires after[n + 1..] == before[n + 1..]
    requires Val(after[..n + 1]) == Val(before[..n]) * Pow10(s)
    requires Scaled(Val(before), left) == total < PowB(|before| - 1)
    ensures forall k :: n < k < |after| ==> after[k] == 0
    ensures Scaled(Val(after), left - s) == total
    ensures after[n] != 0 ==> n + 1 < |after|
  {
    forall k | n < k < |after|
      ensures after[k] == 0
    {
      assert after[k] == after[n + 1..][k - n - 1] == before[n + 1..][k - n - 1];
    }
    ZerosAbove(before, n);
    ZerosAbove(after, n + 1);
    hide Val, PowB, Pow10;
    DslPower(Val(before), s, left);
    DslRoom(after, n, Pow10(left - s));
  }

  /** `dsl`: shifts a significand left by `shift` decimal digits, at most nine at a time.
      n is the number of limbs in use; the `len` limbs must be more than the result needs. */
  method Dsl(n: nat, a: array<Limb>, shift: nat, ghost len: nat)
    requires n < len <= a.Length
    requires forall k :: n <= k < len ==> a[k] == 0
    requires Scaled(Val(a[..len]), shift) < PowB(len - 1)
    modifies a
    ensures a[len..] == old(a[len..])
    ensures Val(a[..len]) == Scaled(old(Val(a[..len])), shift)
  {
    var n, left := n, shift;
    ghost var total := Scaled(Val(a[..len]), shift);
    while left > 0
      invariant 0 <= left && 0 <= n < len
      invariant forall k :: len <= k < a.Length ==> a[k] == old(a[k])
      invariant forall k :: n <= k < len ==> a[k] == 0
      invariant Scaled(Val(a[..len]), left) == total
    {
      hide P, Val, PowB, Pow10, Scaled;
      var shift1 := if 9 <= left then 9 else left;
      ghost var before := a[..len];
      ChunkPower(shift1);
      MultiplyChunk(n, a, P(shift1)[0], len);
      DslStep(before, a[..len], n, shift1, left, total);
      if a[n] != 0 {
        n := n + 1;
      }
      left := left - shift1;
    }
  }

  lemma DsrStep(num: nat, den: nat, v: nat, t: int, s: nat, e: nat, q: nat, r: nat)
    requires Truncates(num, den, v, t) && e == Pow10(s) && e % 2 == 0
    requires v == q * e + r && r < e
    ensures Truncates(num, Scaled(den, s), q, ShiftFlag(r, e, t))
  {
    assert v == e * q + r;
    TruncateChunk(num, den, v, t, e, q, r);
  }

  /** `dsr`: shifts a significand right by `shift` decimal digits, at most nine at a time, keeping in
      the flag how much has been cut off n' / d since the start. */
  method Dsr(n: nat, a: array<Limb>, shift: nat, t: int, ghost num: nat, ghost den: nat) returns (t': int)
    requires n <= a.Length
    requires Truncates(num, den, Val(a[..n]), t)
    modifies a
    ensures a[n..] == old(a[n..])
    ensures Truncates(num, Scaled(den, shift), Val(a[..n]), t')
  {
    var left := shift;
    t' := t;
    ghost var d := den;
    while left > 0
      invariant 0 <= left <= shift
      invariant a[n..] == old(a[n..])
      invariant Scaled(d, left) == Scaled(den, shift)
      invariant Truncates(num, d, Val(a[..n]), t')
    {
      hide P, Val, PowB, Pow10, Scaled, Truncates;
      var shift1 := if 9 <= left then 9 else left;
      ghost var v := Val(a[..n]);
      ChunkPower(shift1);
      var divisor := P(shift1)[0];
      var remainder := MDivide1(n, a, a, divisor);
      DsrStep(num, d, v, t', shift1, divisor, Val(a[..n]), remainder);
      if remainder < divisor / 2 {
        if remainder != 0 || t' != 0 {
          t' := 1;
        }
      } else if remainder > divisor / 2 || t' != 0 {
        t' := 3;
      } else {
        t' := 2;
      }
      DslPower(d, shift1, left);
      d := Scaled(d, shift1);
      left := left - shift1;
    }
    assert Pow10(0) == 1;
  }

  // ---- Shift counts ----

  /** What the code relies on from `(int)(log10(v) + 0.5)` in floating point: the decimal order of v
      when v is well below the half-way power, the next order when it is well above, either between. */
  predicate LogEstimate(v: nat, i: nat) {
    || (Pow10(i) <= v < 4 * Pow10(i))
    || (i > 0 && 3 * Pow10(i - 1) <= v < Pow10(i))
  }

  lemma {:induction false} LogExists(v: nat, i: nat)
    requires v > 0 && v < Pow10(i)
    ensures exists k: nat :: k <= i && LogEstimate(v, k)
  {
    if i == 0 {
      assert false;
    } else if v < Pow10(i - 1) {
      LogExists(v, i - 1);
      var k: nat :| k <= i - 1 && LogEstimate(v, k);
    } else if v < 4 * Pow10(i - 1) {
      assert LogEstimate(v, i - 1);
    } else {
      assert LogEstimate(v, i);
    }
  }

  /** The floating-point logarithm: any result that satisfies the estimate. */
  method RoundedLog10(v: nat) returns (i: nat)
    requires 0 < v < Pow10(60)
    ensures LogEstimate(v, i)
  {
    LogExists(v, 60);
    i :| 0 <= i <= 60 && LogEstimate(v, i);
  }

  lemma LogBelow(v: nat, i: nat, n: nat)
    requires v < Pow10(n) && LogEstimate(v, i)
    ensures i <= n && (i == n ==> v < Pow10(i))
  {
    hide Pow10;
    if i > n {
      Pow10Mono(n, i - 1);
      Pow10Mono(n, i);
    }
  }

  /** Comparing with the power tells which of the two orders the estimate is. */
  lemma LogDecides(v: nat, i: nat)
    requires v > 0 && LogEstimate(v, i)
    ensures Pow10(i) <= v ==> v < Pow10(i + 1)
    ensures Pow10(i) > v ==> i > 0 && Pow10(i - 1) <= v
  {
  }

  lemma MaxShiftDecides(v: nat, i: nat)
    requires 0 < v < Pow10(26) && LogEstimate(v, i)
    ensures i <= 26
    ensures Pow10(i) <= v ==> i <= 25 && v < Pow10(i + 1)
    ensures Pow10(i) > v ==> i > 0 && Pow10(i - 1) <= v
  {
    LogBelow(v, i, 26);
    LogDecides(v, i);
  }

  /** `max_shift_left`: exact, whichever way the logarithm was rounded. */
  method MaxShiftLeft(a: seq<Limb>) returns (s: nat)
    requires |a| >= 3 && 0 < Val(a[..3]) < Pow10(26)
    ensures s <= 25 && Pow10(25 - s) <= Val(a[..3]) < Pow10(26 - s)
  {
    hide P, Pow10, Val, LogEstimate;
    ghost var v := Val(a[..3]);
    Pow10Mono(26, 60);
    ValThree(a[..3]);
    var i := RoundedLog10(a[0] + BASE * (a[1] + BASE * a[2]));
    MaxShiftDecides(v, i);
    PowerRow(i);
    var c := MCmp(3, P(i), a);
    assert P(i)[..3] == P(i);
    s := if c <= 0 then 25 - i else 26 - i;
  }

  /** The least number that does not round to 26 digits when s digits are cut off. */
  ghost function Limit(s: nat): int {
    if s == 0 then Pow10(26) else Pow10(26 + s) - 5 * Pow10(s - 1)
  }

  /** s is the fewest digits to cut off so that the rounded rest has at most 26. */
  ghost predicate IsMinShift(v: nat, s: nat) {
    v < Limit(s) && (s > 0 ==> v >= Limit(s - 1))
  }

  method LimitLookup(i: nat, a: seq<Limb>) returns (s: nat)
    requires 27 <= i <= 52 && |a| >= 6
    ensures s == if Pow10(i) - 5 * Pow10(i - 27) <= Val(a[..6]) then i - 25 else i - 26
  {
    hide Q, Val, Pow10;
    LimitRow(i - 27);
    var q := MCmp(6, Q(i - 27), a);
    assert Q(i - 27)[..6] == Q(i - 27);
    s := if q <= 0 then i - 25 else i - 26;
  }

  lemma NoShift(v: nat)
    requires v < Pow10(26)
    ensures IsMinShift(v, 0)
  {
  }

  lemma PowerSixty()
    ensures Pow10(52) <= Pow10(60)
  {
    Pow10Mono(52, 60);
  }

  lemma LogAbove(v: nat, i: nat, n: nat)
    requires v >= Pow10(n) && LogEstimate(v, i)
    ensures i >= n
  {
    if i < n {
      Pow10Mono(i + 1, n);
    }
  }

  /** The limits lie just below the powers they round up to. */
  lemma LimitAbove(i: nat)
    requires i >= 26
    ensures i > 26 ==> Limit(i - 26) == Pow10(i) - 5 * Pow10(i - 27)
    ensures Limit(i - 26) <= Pow10(i) && 4 * Pow10(i) < Limit(i - 25)
    ensures i > 26 ==> Pow10(i - 1) <= Limit(i - 26)
  {
    Pow10Mono(i - 26, i - 1);
    if i > 26 {
      Pow10Mono(i - 27, i - 1);
    }
  }

  lemma MinShiftDecides(v: nat, i: nat)
    requires Pow10(26) <= v < Pow10(52) && LogEstimate(v, i)
    ensures 26 <= i <= 52
    ensures i == 26 ==> IsMinShift(v, 1)
    ensures i > 26 && Pow10(i) - 5 * Pow10(i - 27) <= v ==> IsMinShift(v, i - 25)
    ensures i > 26 && Pow10(i) - 5 * Pow10(i - 27) > v ==> IsMinShift(v, i - 26)
  {
    hide Pow10;
    LogBelow(v, i, 52);
    LogAbove(v, i, 26);
    LimitAbove(i);
    if i > 26 {
      LimitAbove(i - 1);
    }
  }

  /** The table P26: 10^26 as a six-limb significand. */
  const P26: seq<Limb> := [3825205248, 3704098002, 5421010, 0, 0, 0]

  lemma LastPower()
    ensures P(26) == [3825205248, 3704098002, 5421010]
  {
  }

  lemma PowerTwentySix()
    ensures Val(P26) == Pow10(26)
  {
    hide Pow10, P, Val;
    PowerRow(26);
    LastPower();
    ValThree(P(26));
    ValSix(P26);
  }

  /** The part of `min_shift_right` for more than 26 digits. */
  method ShiftByLog(a: seq<Limb>) returns (s: nat)
    requires |a| >= 6 && Pow10(26) <= Val(a[..6]) < Pow10(52)
    ensures s <= 27 && IsMinShift(Val(a[..6]), s)
  {
    hide Q, P, Val, Pow10, LogEstimate, Limit, IsMinShift;
    PowerSixty();
    ValSix(a[..6]);
    var i := RoundedLog10(a[0] + BASE * (a[1] + BASE * (a[2] + BASE * (a[3] + BASE * (a[4] + BASE * a[5])))));
    MinShiftDecides(Val(a[..6]), i);
    if i == 26 {
      return 1;
    }
    s := LimitLookup(i, a);
  }

  /** `min_shift_right`: exact, whichever way the logarithm was rounded. */
  method MinShiftRight(a: seq<Limb>) returns (s: nat)
    requires |a| >= 6 && Val(a[..6]) < Pow10(52)
    ensures s <= 27 && IsMinShift(Val(a[..6]), s)
  {
    hide Val, Pow10, Limit, IsMinShift;
    PowerTwentySix();
    var c := MCmp(6, a, P26);
    assert P26[..6] == P26;
    if c < 0 {
      NoShift(Val(a[..6]));
      return 0;
    }
    s := ShiftByLog(a);
  }
}

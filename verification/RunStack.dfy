/** The lengths on the pending-run stack of f-stablemerge-sort.c, and what collapsing keeps of them. */
module RunStack {
  /** Entries p and p + 1 become one. */
  ghost function MergedAt(l: seq<nat>, p: nat): (r: seq<nat>)
    requires p + 1 < |l|
    ensures |r| == |l| - 1
  {
    l[..p] + [l[p] + l[p + 1]] + l[p + 2..]
  }

  /** The stack after one unforced sm_collapse; only the top three lengths are ever inspected. */
  ghost function Collapsed(l: seq<nat>): seq<nat>
    decreases |l|
  {
    var n := |l|;
    if n <= 1 then l
    else if n >= 3 && l[n - 3] <= l[n - 2] + l[n - 1] then
      if l[n - 3] < l[n - 1] then Collapsed(MergedAt(l, n - 3)) else Collapsed(MergedAt(l, n - 2))
    else if l[n - 2] <= l[n - 1] then Collapsed(MergedAt(l, n - 2))
    else l
  }

  lemma {:induction false} CollapsedUnfold(l: seq<nat>)
    ensures var n := |l|;
      Collapsed(l) ==
        if n <= 1 then l
        else if n >= 3 && l[n - 3] <= l[n - 2] + l[n - 1] then
          if l[n - 3] < l[n - 1] then Collapsed(MergedAt(l, n - 3)) else Collapsed(MergedAt(l, n - 2))
        else if l[n - 2] <= l[n - 1] then Collapsed(MergedAt(l, n - 2))
        else l
  {
  }

  ghost function Total(l: seq<nat>): nat {
    if |l| == 0 then 0 else Total(l[..|l| - 1]) + l[|l| - 1]
  }

  ghost predicate Decreasing(l: seq<nat>) {
    forall i, j :: 0 <= i < j < |l| ==> l[i] > l[j]
  }

  /** What holds after every unforced collapse. */
  ghost predicate Settled(l: seq<nat>) {
    && Decreasing(l)
    && (|l| >= 3 ==> l[|l| - 3] > l[|l| - 2] + l[|l| - 1])
  }

  /** What holds inside the loop: the two top lengths may be out of order with everything else. */
  ghost predicate Unsettled(l: seq<nat>) {
    forall i, j :: 0 <= i < j < |l| - 2 ==> l[i] > l[j]
  }

  ghost predicate AtLeast(l: seq<nat>, m: nat) {
    forall i :: 0 <= i < |l| ==> l[i] >= m
  }

  lemma {:induction false} MergedAtUnsettled(l: seq<nat>, p: nat, m: nat)
    requires Unsettled(l) && AtLeast(l, m)
    requires p + 2 == |l| || p + 3 == |l|
    ensures Unsettled(MergedAt(l, p)) && AtLeast(MergedAt(l, p), m)
  {
    var r := MergedAt(l, p);
    assert forall i :: 0 <= i < p ==> r[i] == l[i];
    assert forall i :: p < i < |r| ==> r[i] == l[i + 1];
    assert r[p] == l[p] + l[p + 1];
  }

  lemma {:induction false} StopSettled(l: seq<nat>)
    requires Unsettled(l)
    requires |l| >= 2 ==> l[|l| - 2] > l[|l| - 1]
    requires |l| >= 3 ==> l[|l| - 3] > l[|l| - 2] + l[|l| - 1]
    ensures Settled(l)
  {
    var n := |l|;
    forall i, j | 0 <= i < j < n
      ensures l[i] > l[j]
    {
      if j >= n - 2 && i < n - 3 {
        assert l[i] > l[n - 3];
      }
    }
  }

  lemma {:induction false} TotalSame(l: seq<nat>, r: seq<nat>)
    requires |l| == |r| && forall i :: 0 <= i < |l| ==> l[i] == r[i]
    ensures Total(l) == Total(r)
  {
    assert l == r;
  }

  lemma {:induction false} TotalConcat(l: seq<nat>, r: seq<nat>)
    ensures Total(l + r) == Total(l) + Total(r)
  {
    if |r| == 0 {
      assert l + r == l;
    } else {
      TotalConcat(l, r[..|r| - 1]);
      assert (l + r)[..|l + r| - 1] == l + r[..|r| - 1];
    }
  }

  lemma {:induction false} TotalSnoc(l: seq<nat>, x: nat)
    ensures Total(l + [x]) == Total(l) + x
  {
    assert (l + [x])[..|l|] == l;
  }

  lemma {:induction false} PartsTotal(before: seq<nat>, x: nat, y: nat, after: seq<nat>)
    ensures Total(before + [x, y] + after) == Total(before + [x + y] + after)
  {
    hide Total;
    TotalSnoc(before, x);
    TotalSnoc(before + [x], y);
    TotalSnoc(before, x + y);
    assert before + [x] + [y] == before + [x, y];
    TotalConcat(before + [x, y], after);
    TotalConcat(before + [x + y], after);
  }

  lemma {:induction false} MergedAtTotal(l: seq<nat>, p: nat)
    requires p + 1 < |l|
    ensures Total(MergedAt(l, p)) == Total(l)
  {
    hide Total;
    PartsTotal(l[..p], l[p], l[p + 1], l[p + 2..]);
    TotalSame(l, l[..p] + [l[p], l[p + 1]] + l[p + 2..]);
  }

  /** Collapsing settles the stack, keeps the total, and makes no length smaller than the smallest. */
  lemma {:induction false} CollapsedSettled(l: seq<nat>, m: nat)
    requires Unsettled(l) && AtLeast(l, m)
    ensures Settled(Collapsed(l)) && AtLeast(Collapsed(l), m)
    ensures Total(Collapsed(l)) == Total(l)
    ensures |Collapsed(l)| <= |l| && (|l| > 0 ==> |Collapsed(l)| > 0)
    decreases |l|, 1
  {
    hide Settled, AtLeast, Unsettled, Total, MergedAt;
    var n := |l|;
    if n >= 3 && l[n - 3] <= l[n - 2] + l[n - 1] && l[n - 3] < l[n - 1] {
      CollapsedStep(l, n - 3, m);
    } else if n >= 2 && (l[n - 2] <= l[n - 1] || (n >= 3 && l[n - 3] <= l[n - 2] + l[n - 1])) {
      CollapsedStep(l, n - 2, m);
    } else {
      StopSettled(l);
    }
  }

  lemma {:induction false} CollapsedStep(l: seq<nat>, p: nat, m: nat)
    requires Unsettled(l) && AtLeast(l, m) && (p + 2 == |l| || p + 3 == |l|)
    ensures Settled(Collapsed(MergedAt(l, p))) && AtLeast(Collapsed(MergedAt(l, p)), m)
    ensures Total(Collapsed(MergedAt(l, p))) == Total(l)
    ensures 0 < |Collapsed(MergedAt(l, p))| <= |l|
    decreases |l|, 0
  {
    hide Settled, AtLeast, Unsettled, Total, MergedAt, Collapsed;
    MergedAtUnsettled(l, p, m);
    MergedAtTotal(l, p);
    CollapsedSettled(MergedAt(l, p), m);
  }

  /**
   * The sum rule is not kept below the top three, contrary to the comment above sm_collapse:
   * pushing a run of 30 on 120, 80, 25, 20 leaves 120, 80, 45, 30, and 120 is not above 80 + 45.
   */
  lemma SumRuleBreaks()
    ensures Settled([120, 80, 25, 20]) && 120 > 80 + 25 && 80 > 25 + 20
    ensures Collapsed([120, 80, 25, 20, 30]) == [120, 80, 45, 30] && 120 <= 80 + 45
  {
    var l: seq<nat> := [120, 80, 25, 20, 30];
    assert MergedAt(l, 2) == [120, 80, 45, 30];
  }
}

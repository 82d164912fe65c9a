/** When a push keeps the rule that every length is above the sum of the two on top of it, at every depth. */
module SumRule {
  import opened RunStack
  import opened RunHistory

  ghost predicate RuleAt(l: seq<nat>, i: nat) {
    i + 2 < |l| ==> l[i] > l[i + 1] + l[i + 2]
  }

  /** The rule of the comment above sm_collapse, at every depth. */
  ghost predicate Ruled(l: seq<nat>) {
    Decreasing(l) && forall i: nat {:trigger RuleAt(l, i)} :: RuleAt(l, i)
  }

  /** The rule at every depth but the fourth entry from the top. */
  ghost predicate RuledButFourth(l: seq<nat>) {
    Decreasing(l) && forall i: nat {:trigger RuleAt(l, i)} :: i + 4 != |l| ==> RuleAt(l, i)
  }

  lemma ShortRuled(l: seq<nat>)
    requires |l| <= 1
    ensures RuledButFourth(l)
  {
  }

  lemma {:induction false} StopRule(s: seq<nat>, l: seq<nat>, c: nat, p: nat, q: nat)
    requires Ruled(l) && Collapsing(s, l, c, p, q)
    requires s[p] > s[p + 1] && (p >= 1 ==> s[p - 1] > s[p] + s[p + 1])
    ensures RuledButFourth(s)
  {
    StopSettled(s);
    hide Above, Decreasing;
    forall i: nat | i + 4 != |s|
      ensures RuleAt(s, i)
    {
      assert RuleAt(l, i);
    }
  }

  lemma {:induction false} CollapsedRule(s: seq<nat>, l: seq<nat>, c: nat, p: nat, q: nat)
    requires Ruled(l) && Collapsing(s, l, c, p, q)
    ensures RuledButFourth(Collapsed(s))
    decreases p, 1
  {
    hide Ruled, RuledButFourth, Collapsing, Collapsed, MergedAt;
    CollapsingSize(s, l, c, p, q);
    CollapsedUnfold(s);
    if p >= 1 && s[p - 1] <= s[p] + s[p + 1] {
      if s[p - 1] < s[p + 1] {
        MiddleCollapsing(s, l, c, p, q);
        CollapsedRule(MergedAt(s, p - 1), l, c, p - 1, q);
      } else {
        TopRule(s, l, c, p, q);
      }
    } else if s[p] <= s[p + 1] {
      TopRule(s, l, c, p, q);
    } else {
      StopRule(s, l, c, p, q);
    }
  }

  lemma {:induction false} TopRule(s: seq<nat>, l: seq<nat>, c: nat, p: nat, q: nat)
    requires Ruled(l) && Collapsing(s, l, c, p, q)
    ensures RuledButFourth(Collapsed(MergedAt(s, p)))
    decreases p, 0
  {
    hide Ruled, RuledButFourth, Collapsed;
    TopCollapsing(s, l, c, p, q);
    if p == 0 {
      CollapsedUnfold(MergedAt(s, p));
      ShortRuled(MergedAt(s, p));
    } else {
      CollapsedRule(MergedAt(s, p), l, c, p - 1, p);
    }
  }

  /**
   * Whatever is pushed on a stack that obeys the rule, the fourth entry from the top is the one place where it can
   * break.
   */
  lemma {:induction false} BreaksAtFourth(l: seq<nat>, c: nat)
    requires Ruled(l)
    ensures var r := Collapsed(l + [c]);
      RuledButFourth(r) && (Ruled(r) <==> |r| < 4 || r[|r| - 4] > r[|r| - 3] + r[|r| - 2])
  {
    var r := Collapsed(l + [c]);
    if l == [] {
      CollapsedUnfold(l + [c]);
      ShortRuled(r);
    } else {
      PushCollapsing(l, c);
      CollapsedRule(l + [c], l, c, |l| - 1, |l|);
    }
    hide Collapsed;
    assert |r| >= 4 ==> (RuleAt(r, |r| - 4) <==> r[|r| - 4] > r[|r| - 3] + r[|r| - 2]);
  }

  // ---- The guard ----

  /** With c no longer than the second length, what lies above an entry, with c, stays below the entry beneath it. */
  lemma {:induction false} RuledAbove(l: seq<nat>, c: nat, p: nat)
    requires Ruled(l) && 1 <= p < |l| && c <= l[|l| - 2]
    ensures Above(l, p + 1) + c <= l[p - 1]
    decreases |l| - p
  {
    if p + 1 < |l| {
      assert RuleAt(l, p - 1);
      RuledAbove(l, c, p + 1);
    }
  }

  /** The collapsed stack is l up to k, and everything above with c in one. */
  ghost predicate CutAt(r: seq<nat>, l: seq<nat>, c: nat, k: nat) {
    k <= |l| && r == l[..k] + [Above(l, k) + c]
  }

  /** What the collapsing stack looks like at its top as long as only top pairs were merged. */
  lemma {:induction false} OnlyTopAt(s: seq<nat>, l: seq<nat>, c: nat, p: nat)
    requires Ruled(l) && Collapsing(s, l, c, p, p + 1) && (|l| >= 2 ==> c <= l[|l| - 2])
    ensures |s| == p + 2 && s[p] == l[p] && s[p + 1] == Above(l, p + 1) + c
    ensures p >= 1 ==> s[p - 1] >= s[p + 1]
    ensures s == l[..p + 1] + [Above(l, p + 1) + c]
  {
    AboveUnfold(l, p);
    if p >= 1 {
      RuledAbove(l, c, p);
    }
    hide Above, Ruled;
  }

  lemma {:induction false} ShortOnly(r: seq<nat>, l: seq<nat>, c: nat)
    requires |r| == 1 && r[0] == Above(l, 0) + c
    ensures Ruled(r) && CutAt(r, l, c, 0)
  {
  }

  lemma {:induction false} OnlyStop(s: seq<nat>, l: seq<nat>, c: nat, p: nat)
    requires Ruled(l) && Collapsing(s, l, c, p, p + 1) && s[p] == l[p]
    requires s[p] > s[p + 1] && (p >= 1 ==> s[p - 1] > s[p] + s[p + 1])
    ensures Ruled(s)
  {
    StopRule(s, l, c, p, p + 1);
    hide Above, Decreasing;
    forall i: nat | i + 4 == |s|
      ensures RuleAt(s, i)
    {
      assert RuleAt(l, i);
    }
  }

  lemma {:induction false} OnlyTop(s: seq<nat>, l: seq<nat>, c: nat, p: nat) returns (k: nat)
    requires p < |l| && Ruled(l) && Collapsing(s, l, c, p, p + 1) && (|l| >= 2 ==> c <= l[|l| - 2])
    ensures Ruled(Collapsed(s)) && CutAt(Collapsed(s), l, c, k)
    decreases p
  {
    hide Collapsing, Collapsed, Above, Ruled, MergedAt;
    OnlyTopAt(s, l, c, p);
    CollapsedUnfold(s);
    if (p >= 1 && s[p - 1] <= s[p] + s[p + 1]) || s[p] <= s[p + 1] {
      TopCollapsing(s, l, c, p, p + 1);
      var r := MergedAt(s, p);
      if p == 0 {
        CollapsedUnfold(r);
        ShortOnly(r, l, c);
        k := 0;
      } else {
        k := OnlyTop(r, l, c, p - 1);
      }
    } else {
      OnlyStop(s, l, c, p);
      k := p + 1;
    }
  }

  /**
   * A run no longer than the second length never has the middle pair merged: from some place k on the lengths go
   * into the new run, the rest stay, and the rule holds.
   */
  lemma {:induction false} ShortPushKeepsRule(l: seq<nat>, c: nat) returns (k: nat)
    requires Ruled(l) && (|l| >= 2 ==> c <= l[|l| - 2])
    ensures Ruled(Collapsed(l + [c])) && CutAt(Collapsed(l + [c]), l, c, k)
  {
    hide Ruled, Collapsing, Collapsed, CutAt;
    if l == [] {
      CollapsedUnfold(l + [c]);
      ShortOnly(l + [c], l, c);
      k := 0;
    } else {
      PushCollapsing(l, c);
      k := OnlyTop(l + [c], l, c, |l| - 1);
    }
  }

  /** A longer run does merge the middle pair. */
  lemma {:induction false} LongPushMergesMiddle(l: seq<nat>, c: nat)
    requires |l| >= 2 && c > l[|l| - 2]
    ensures Collapsed(l + [c]) == Collapsed(l[..|l| - 2] + [l[|l| - 2] + l[|l| - 1], c])
  {
    CollapsedUnfold(l + [c]);
    assert MergedAt(l + [c], |l| - 2) == l[..|l| - 2] + [l[|l| - 2] + l[|l| - 1], c];
  }

  // ---- Any push ----

  /** Where the top run begins when the collapse has come down to entry p. */
  ghost function Joined(l: seq<nat>, c: nat, p: nat): (q: nat)
    requires p < |l|
    ensures p < q <= |l|
    decreases |l| - p
  {
    if p + 1 == |l| then |l|
    else
      var q := Joined(l, c, p + 1);
      if l[p] < Above(l, q) + c then q else p + 1
  }

  /**
   * The collapse may rest at entry p: what is in that entry by then exceeds the top, and the entry below exceeds both.
   */
  ghost predicate StopsAt(l: seq<nat>, c: nat, p: nat)
    requires p < |l|
  {
    Above(l, p) > 2 * Above(l, Joined(l, c, p)) + c && (p >= 1 ==> l[p - 1] > Above(l, p) + c)
  }

  /** It does rest at the first such place on its way down. */
  ghost predicate LastStop(l: seq<nat>, c: nat, p: nat) {
    p < |l| && StopsAt(l, c, p) && forall i :: p < i < |l| ==> !StopsAt(l, c, i)
  }

  /** The stack left by a collapse that rests at entry p. */
  ghost function Rested(l: seq<nat>, c: nat, p: nat): (r: seq<nat>)
    requires p < |l|
    ensures |r| == p + 2
  {
    var q := Joined(l, c, p);
    AboveFalls(l, p, q);
    l[..p] + [Above(l, p) - Above(l, q), Above(l, q) + c]
  }

  lemma {:induction false} CollapsingIs(s: seq<nat>, l: seq<nat>, c: nat, p: nat)
    requires p < |l| && Collapsing(s, l, c, p, Joined(l, c, p))
    ensures s == Rested(l, c, p) && Above(l, p) == s[p] + Above(l, Joined(l, c, p))
    ensures p >= 1 ==> s[p - 1] == l[p - 1]
  {
  }

  lemma {:induction false} JoinedTop(l: seq<nat>, c: nat)
    requires |l| >= 1
    ensures Joined(l, c, |l| - 1) == |l|
  {
  }

  lemma {:induction false} JoinedUnfold(l: seq<nat>, c: nat, p: nat)
    requires 1 <= p < |l|
    ensures Joined(l, c, p - 1) == if l[p - 1] < Above(l, Joined(l, c, p)) + c then Joined(l, c, p) else p
  {
  }

  ghost predicate NoStopFrom(l: seq<nat>, c: nat, p: nat) {
    forall i :: p <= i < |l| ==> !StopsAt(l, c, i)
  }

  /** Either the collapse rests at k, or k is -1 and one run is left. */
  ghost predicate RestsAt(r: seq<nat>, l: seq<nat>, c: nat, k: int) {
    if k >= 0 then LastStop(l, c, k) && r == Rested(l, c, k)
    else NoStopFrom(l, c, 0) && r == [Above(l, 0) + c]
  }

  lemma {:induction false} RestsHere(s: seq<nat>, l: seq<nat>, c: nat, p: nat)
    requires p < |l| && NoStopFrom(l, c, p + 1) && StopsAt(l, c, p) && s == Rested(l, c, p)
    ensures RestsAt(s, l, c, p)
  {
  }

  lemma {:induction false} NoStopHere(l: seq<nat>, c: nat, p: nat)
    requires p < |l| && NoStopFrom(l, c, p + 1) && !StopsAt(l, c, p)
    ensures NoStopFrom(l, c, p)
  {
  }

  lemma {:induction false} CollapsingTop(s: seq<nat>, l: seq<nat>, c: nat, p: nat, q: nat)
    requires Collapsing(s, l, c, p, q)
    ensures |s| == p + 2 && p < q <= |l| && s[p + 1] == Above(l, q) + c
  {
  }

  lemma {:induction false} OneRests(r: seq<nat>, l: seq<nat>, c: nat)
    requires |r| == 1 && r[0] == Above(l, 0) + c && NoStopFrom(l, c, 0)
    ensures RestsAt(Collapsed(r), l, c, -1)
  {
    CollapsedUnfold(r);
  }

  lemma {:induction false} CollapsedRests(s: seq<nat>, l: seq<nat>, c: nat, p: nat) returns (k: int)
    requires p < |l| && Collapsing(s, l, c, p, Joined(l, c, p)) && NoStopFrom(l, c, p + 1)
    ensures RestsAt(Collapsed(s), l, c, k)
    decreases p, 1
  {
    hide Collapsing, Collapsed, MergedAt, Joined, Rested, RestsAt, NoStopFrom, Above;
    var q := Joined(l, c, p);
    CollapsingSize(s, l, c, p, q);
    CollapsingTop(s, l, c, p, q);
    CollapsingIs(s, l, c, p);
    CollapsedUnfold(s);
    if StopsAt(l, c, p) {
      RestsHere(s, l, c, p);
      k := p;
    } else if p >= 1 {
      NoStopHere(l, c, p);
      JoinedUnfold(l, c, p);
      if s[p - 1] < s[p + 1] {
        MiddleCollapsing(s, l, c, p, q);
        k := CollapsedRests(MergedAt(s, p - 1), l, c, p - 1);
      } else {
        TopCollapsing(s, l, c, p, q);
        k := CollapsedRests(MergedAt(s, p), l, c, p - 1);
      }
    } else {
      NoStopHere(l, c, p);
      TopCollapsing(s, l, c, p, q);
      k := -1;
      OneRests(MergedAt(s, 0), l, c);
    }
  }

  lemma {:induction false} LastStopWithin(l: seq<nat>, c: nat, p: nat)
    requires LastStop(l, c, p)
    ensures p < |l|
  {
  }

  lemma {:induction false} RestsOnlyAt(r: seq<nat>, l: seq<nat>, c: nat, k: int, p: nat)
    requires RestsAt(r, l, c, k) && LastStop(l, c, p)
    ensures p == k && r == Rested(l, c, p)
  {
    hide StopsAt, Rested;
  }

  lemma {:induction false} RestsSomewhere(r: seq<nat>, l: seq<nat>, c: nat, k: int)
    requires RestsAt(r, l, c, k)
    ensures if k >= 0 then LastStop(l, c, k) else r == [Above(l, 0) + c]
  {
  }

  /** What a push leaves, read off the lengths before it: nothing else can come of the merges. */
  lemma {:induction false} PushLeaves(l: seq<nat>, c: nat)
    ensures forall p: nat :: LastStop(l, c, p) ==> Collapsed(l + [c]) == Rested(l, c, p)
    ensures (forall p: nat :: !LastStop(l, c, p)) ==> Collapsed(l + [c]) == [Above(l, 0) + c]
  {
    if l == [] {
      CollapsedUnfold(l + [c]);
    } else {
      hide Collapsed, Rested, LastStop, RestsAt, Joined, Collapsing, Above;
      PushCollapsing(l, c);
      JoinedTop(l, c);
      var k := CollapsedRests(l + [c], l, c, |l| - 1);
      var r := Collapsed(l + [c]);
      RestsSomewhere(r, l, c, k);
      forall p: nat | LastStop(l, c, p)
        ensures p < |l| && r == Rested(l, c, p)
      {
        RestsOnlyAt(r, l, c, k, p);
      }
    }
  }

  /** The entry below the one rested at exceeds that one and its neighbour. */
  ghost predicate FourthHolds(l: seq<nat>, c: nat, p: nat)
    requires p < |l|
  {
    var q := Joined(l, c, p);
    p >= 2 && q > p + 1 ==> l[p - 2] + Above(l, q) > l[p - 1] + Above(l, p)
  }

  lemma {:induction false} RestedRule(l: seq<nat>, c: nat, p: nat)
    requires Ruled(l) && p < |l|
    ensures var r := Rested(l, c, p);
      FourthHolds(l, c, p) <==> |r| < 4 || r[|r| - 4] > r[|r| - 3] + r[|r| - 2]
  {
    AboveUnfold(l, p);
    assert p >= 2 ==> RuleAt(l, p - 2);
    hide Ruled, Above, Joined;
  }

  /**
   * A push keeps the rule if and only if the collapse rests nowhere, or at an entry where no middle pair was merged
   * or the fourth length from the top stays above the sum.
   */
  lemma {:induction false} PushKeepsRule(l: seq<nat>, c: nat)
    requires Ruled(l)
    ensures Ruled(Collapsed(l + [c])) <==> forall p: nat :: LastStop(l, c, p) ==> FourthHolds(l, c, p)
  {
    hide Collapsed, Rested, LastStop, Ruled, RuledButFourth, FourthHolds, Above;
    BreaksAtFourth(l, c);
    PushLeaves(l, c);
    var r := Collapsed(l + [c]);
    forall p: nat | LastStop(l, c, p)
      ensures p < |l| && (FourthHolds(l, c, p) <==> Ruled(r))
    {
      LastStopWithin(l, c, p);
      RestedRule(l, c, p);
    }
  }
}

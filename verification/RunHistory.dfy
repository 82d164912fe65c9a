/**
 * How deep the run stack can get. Only the top three lengths are inspected, so deeper ones may break the sum
 * rule; what bounds them is remembering, for every entry, how long the run above it was when it was put there.
 */
module RunHistory {
  import opened RunStack

  /** A series has fewer than 2^31 bytes (m-pools.c), so no block has as many values of sixteen bytes as this. */
  const MOST_VALUES: nat := 0x800_0000

  ghost predicate Summed(l: seq<nat>, h: seq<nat>)
    requires |h| == |l|
  {
    forall i, j {:trigger l[i], h[j]} :: 0 <= i && j == i + 1 && j < |l| - 1 ==> l[i] > l[j] + h[j]
  }

  ghost predicate Remembered(l: seq<nat>, h: seq<nat>)
    requires |h| == |l|
  {
    && (forall i, j {:trigger h[i], l[j]} :: 0 <= i && j == i + 1 && j < |l| ==> h[i] <= l[j])
    && (forall i, j {:trigger h[i], l[j]} :: 0 <= i && j == i + 1 && j < |l| - 1 ==>
          l[j] == h[i] || (h[j] > h[i] && l[j] <= 7 * h[j]))
  }

  /**
   * h[i] is the length entry i + 1 had when it was last the top. It was below the difference of entries i - 1 and i
   * then, and has only grown since: by taking in runs that a new, longer top h[i + 1] exceeded.
   */
  ghost predicate History(l: seq<nat>, h: seq<nat>) {
    var n := |l|;
    && |h| == n && AtLeast(l, 1) && Decreasing(l)
    && Summed(l, h) && Remembered(l, h)
    && (n >= 2 ==> l[n - 1] == h[n - 2])
  }

  ghost predicate HasHistory(l: seq<nat>) {
    exists h: seq<nat> :: |h| == |l| && History(l, h)
  }

  /** Entry i has not grown since it was the top. */
  ghost predicate Fresh(l: seq<nat>, h: seq<nat>, i: nat)
    requires 1 <= i < |l| && |h| == |l|
  {
    l[i] == h[i - 1]
  }

  /** What History says of entries i - 1, i and i + 1. */
  lemma {:induction false} HistoryAt(l: seq<nat>, h: seq<nat>, i: nat)
    requires |h| == |l| && History(l, h) && 1 <= i < |l|
    ensures l[i] >= 1 && l[i - 1] > l[i] && h[i - 1] <= l[i]
    ensures i == |l| - 1 ==> Fresh(l, h, i)
    ensures i < |l| - 1 ==> l[i - 1] > l[i] + h[i] && l[i + 1] >= 1 && l[i] > l[i + 1] && h[i] <= l[i + 1]
    ensures i < |l| - 1 && !Fresh(l, h, i) ==> h[i] > h[i - 1] && l[i] <= 7 * h[i]
  {
  }

  /** What lies from entry i up. */
  ghost function Above(l: seq<nat>, i: nat): nat
    requires i <= |l|
    decreases |l| - i
  {
    if i == |l| then 0 else l[i] + Above(l, i + 1)
  }

  lemma {:induction false} AboveUnfold(l: seq<nat>, i: nat)
    requires i < |l|
    ensures Above(l, i) == l[i] + Above(l, i + 1)
    ensures i + 1 == |l| ==> Above(l, i + 1) == 0
  {
  }

  lemma {:induction false} AboveTotal(l: seq<nat>, i: nat)
    requires i <= |l|
    ensures Total(l[..i]) + Above(l, i) == Total(l)
    decreases |l| - i
  {
    if i == |l| {
      assert l[..i] == l;
    } else {
      assert l[..i + 1] == l[..i] + [l[i]];
      TotalSnoc(l[..i], l[i]);
      hide Total;
      AboveTotal(l, i + 1);
    }
  }

  lemma {:induction false} AboveFalls(l: seq<nat>, p: nat, q: nat)
    requires p <= q <= |l|
    ensures Above(l, p) >= Above(l, q)
    decreases q
  {
    if p < q {
      AboveFalls(l, p, q - 1);
    }
  }

  // ---- Entries that grew one on another shrink linearly ----

  ghost predicate Stepped(x: nat, k: nat, c: nat, base: nat) {
    x + k * c <= base && x <= (8 - k) * c
  }

  ghost predicate Shrunk(x: nat, k: nat, base: nat) {
    8 * x <= (8 - k) * base
  }

  /** Entries i + 1 to i + k have all grown: each is shorter than the one below by h[i + 1], an eighth of entry i. */
  ghost predicate Grown(l: seq<nat>, h: seq<nat>, i: nat, k: nat)
    requires |h| == |l|
  {
    && 1 <= k <= 7 && i + k < |l| - 1
    && h[i + k] >= h[i + 1] && Stepped(l[i + k], k, h[i + 1], l[i])
    && Shrunk(l[i + k], k, l[i]) && Shrunk(l[i + k - 1], k - 1, l[i])
  }

  lemma GrownAlgebra(x: nat, k: nat, c: nat, base: nat)
    requires 1 <= k <= 8 && Stepped(x, k, c, base)
    ensures Shrunk(x, k, base)
  {
    assert k == 1 || k == 2 || k == 3 || k == 4 || k == 5 || k == 6 || k == 7 || k == 8;
  }

  lemma {:induction false} GrownFirst(l: seq<nat>, h: seq<nat>, i: nat)
    requires |h| == |l| && History(l, h) && i + 1 < |l| && !Fresh(l, h, i + 1)
    ensures Grown(l, h, i, 1)
  {
    hide History;
    HistoryAt(l, h, i + 1);
    GrownAlgebra(l[i + 1], 1, h[i + 1], l[i]);
  }

  lemma {:induction false} GrownAt(l: seq<nat>, h: seq<nat>, i: nat, k: nat)
    requires |h| == |l| && Grown(l, h, i, k)
    ensures 1 <= k <= 7 && i + k < |l| - 1
    ensures h[i + k] >= h[i + 1] && Stepped(l[i + k], k, h[i + 1], l[i])
    ensures Shrunk(l[i + k], k, l[i]) && Shrunk(l[i + k - 1], k - 1, l[i])
  {
  }

  lemma GrownStep(y: nat, z: nat, x: nat, k: nat, c: nat, base: nat)
    requires 1 <= k <= 7 && Stepped(x, k, c, base) && x > y + z && z > c && y >= 1
    ensures k <= 6 && Stepped(y, k + 1, c, base) && Shrunk(y, k + 1, base)
  {
    assert (k + 1) * c == k * c + c && (8 - k) * c == (7 - k) * c + c;
    assert k == 7 ==> (7 - k) * c == 0;
    GrownAlgebra(y, k + 1, c, base);
  }

  lemma {:induction false} GrownNext(l: seq<nat>, h: seq<nat>, i: nat, k: nat)
    requires |h| == |l| && History(l, h) && i + k + 1 < |l| && Grown(l, h, i, k) && !Fresh(l, h, i + k + 1)
    ensures k <= 6 && Grown(l, h, i, k + 1)
  {
    var m := i + k + 1;
    hide History, Stepped, Shrunk;
    HistoryAt(l, h, m);
    GrownStep(l[m], h[m], l[m - 1], k, h[i + 1], l[i]);
  }

  // ---- What lies above an entry is at most six times as long ----

  lemma LightAlgebra(x: nat, y: nat, z: nat, above: nat, higher: nat)
    requires x > y + z && above == z + higher && above <= 6 * y && higher <= 6 * z
    ensures 13 * (y + above) <= 49 * x
  {
  }

  ghost predicate Covers(k: nat, above: nat, base: nat) {
    208 * above <= (236 + 13 * (8 - k) * (9 - k)) * base
  }

  lemma CoversFirst(above: nat, base: nat)
    requires Covers(1, above, base)
    ensures 208 * above <= 964 * base
  {
  }

  lemma CoversLast(k: nat, above: nat, x: nat, base: nat)
    requires 1 <= k <= 7 && 13 * above <= 49 * x && Shrunk(x, k - 1, base)
    ensures Covers(k, above, base)
  {
    assert k == 1 || k == 2 || k == 3 || k == 4 || k == 5 || k == 6 || k == 7;
  }

  lemma CoversNext(k: nat, above: nat, x: nat, base: nat)
    requires 1 <= k <= 6 && Covers(k + 1, above, base) && Shrunk(x, k, base)
    ensures Covers(k, x + above, base)
  {
    assert k == 1 || k == 2 || k == 3 || k == 4 || k == 5 || k == 6;
  }

  lemma {:induction false} Light(l: seq<nat>, h: seq<nat>, i: nat)
    requires |h| == |l| && History(l, h) && 1 <= i <= |l|
    ensures Above(l, i) <= 6 * l[i - 1]
    decreases |l| - i, 2, 0
  {
    hide History, Grown, Fresh, Covers;
    if i < |l| {
      HistoryAt(l, h, i);
      if i == |l| - 1 || Fresh(l, h, i + 1) {
        LightFresh(l, h, i);
      } else {
        GrownFirst(l, h, i);
        LightGrown(l, h, i, 1);
        CoversFirst(Above(l, i + 1), l[i]);
      }
    }
  }

  lemma {:induction false} LightFresh(l: seq<nat>, h: seq<nat>, i: nat)
    requires |h| == |l| && History(l, h) && 1 <= i < |l| && (i < |l| - 1 ==> Fresh(l, h, i + 1))
    ensures 13 * Above(l, i) <= 49 * l[i - 1]
    decreases |l| - i, 0, 0
  {
    hide History, Above;
    AboveUnfold(l, i);
    HistoryAt(l, h, i);
    if i < |l| - 1 {
      AboveUnfold(l, i + 1);
      Light(l, h, i + 1);
      Light(l, h, i + 2);
      LightAlgebra(l[i - 1], l[i], l[i + 1], Above(l, i + 1), Above(l, i + 2));
    }
  }

  lemma {:induction false} LightGrown(l: seq<nat>, h: seq<nat>, i: nat, k: nat)
    requires |h| == |l| && History(l, h) && 1 <= i && i + k < |l| && Grown(l, h, i, k)
    ensures Covers(k, Above(l, i + k), l[i])
    decreases |l| - i, 1, 8 - k
  {
    hide History, Grown, Covers, Above, Shrunk, Stepped;
    GrownAt(l, h, i, k);
    AboveUnfold(l, i + k);
    if Fresh(l, h, i + k + 1) {
      LightFresh(l, h, i + k);
      CoversLast(k, Above(l, i + k), l[i + k - 1], l[i]);
    } else {
      GrownNext(l, h, i, k);
      LightGrown(l, h, i, k + 1);
      CoversNext(k, Above(l, i + k + 1), l[i + k], l[i]);
    }
  }

  // ---- Collapsing keeps a history ----

  /**
   * The stack while l with a run of c on top is collapsed: entries p to q - 1 have become one, as have those from q
   * up and the new run; the former only did when the new top was longer than each.
   */
  ghost predicate Collapsing(s: seq<nat>, l: seq<nat>, c: nat, p: nat, q: nat) {
    && p < q <= |l| && |s| == p + 2
    && (forall i :: 0 <= i < p ==> s[i] == l[i])
    && s[p] + Above(l, q) == Above(l, p) && s[p + 1] == Above(l, q) + c
    && (q >= p + 2 ==> l[p] < s[p + 1])
  }

  lemma {:induction false} PushCollapsing(l: seq<nat>, c: nat)
    requires |l| >= 1
    ensures Collapsing(l + [c], l, c, |l| - 1, |l|)
  {
    assert Above(l, |l|) == 0 && Above(l, |l| - 1) == l[|l| - 1];
  }

  lemma OneHistory(s: seq<nat>)
    requires |s| == 1 && s[0] >= 1
    ensures HasHistory(Collapsed(s))
  {
    assert History(s, [0]);
  }

  lemma {:induction false} TopCollapsing(s: seq<nat>, l: seq<nat>, c: nat, p: nat, q: nat)
    requires Collapsing(s, l, c, p, q)
    ensures |MergedAt(s, p)| == p + 1 && MergedAt(s, p)[p] == Above(l, p) + c
    ensures p >= 1 ==> Collapsing(MergedAt(s, p), l, c, p - 1, p)
  {
    assert p >= 1 ==> Above(l, p - 1) == l[p - 1] + Above(l, p);
  }

  lemma {:induction false} MiddleCollapsing(s: seq<nat>, l: seq<nat>, c: nat, p: nat, q: nat)
    requires Collapsing(s, l, c, p, q) && p >= 1 && s[p - 1] < s[p + 1]
    ensures Collapsing(MergedAt(s, p - 1), l, c, p - 1, q)
  {
    assert Above(l, p - 1) == l[p - 1] + Above(l, p);
  }

  lemma {:induction false} StopRemembers(s: seq<nat>, g: seq<nat>, l: seq<nat>, h: seq<nat>, p: nat)
    requires |h| == |l| && History(l, h) && p < |l| && |s| == |g| == p + 2 && s[p] > s[p + 1]
    requires (forall i :: 0 <= i < p ==> s[i] == l[i] && g[i] == h[i]) && s[p] >= l[p] && g[p] == s[p + 1]
    requires p >= 1 ==> s[p - 1] > s[p] + s[p + 1]
    requires p >= 1 ==> s[p] == h[p - 1] || (s[p + 1] > h[p - 1] && s[p] <= 7 * s[p + 1])
    ensures Summed(s, g) && Remembered(s, g)
  {
    hide History;
    forall i, j | 0 <= i && j == i + 1 && j < p + 1
      ensures s[i] > s[j] + g[j]
      ensures g[i] <= s[j]
      ensures s[j] == g[i] || (g[j] > g[i] && s[j] <= 7 * g[j])
    {
      HistoryAt(l, h, j);
    }
  }

  lemma {:induction false} DecreasingAtLeast(s: seq<nat>)
    requires |s| >= 1 && Decreasing(s) && s[|s| - 1] >= 1
    ensures AtLeast(s, 1)
  {
  }

  lemma {:induction false} StopTop(s: seq<nat>, l: seq<nat>, h: seq<nat>, c: nat, p: nat, q: nat)
    requires |h| == |l| && History(l, h) && c >= 1 && Collapsing(s, l, c, p, q)
    ensures s[p] >= l[p] && s[p + 1] >= 1
    ensures p >= 1 ==> s[p] == h[p - 1] || (s[p + 1] > h[p - 1] && s[p] <= 7 * s[p + 1])
  {
    AboveFalls(l, p + 1, q);
    Light(l, h, p + 1);
    assert Above(l, p) == l[p] + Above(l, p + 1);
    if p >= 1 {
      HistoryAt(l, h, p);
      if q == p + 1 && q < |l| {
        assert Above(l, q) == l[q] + Above(l, q + 1);
      }
    }
  }

  /** Where collapsing stops, the new top is what the entry below it remembers. */
  lemma {:induction false} StopHistory(s: seq<nat>, l: seq<nat>, h: seq<nat>, c: nat, p: nat, q: nat)
    requires |h| == |l| && History(l, h) && c >= 1 && Collapsing(s, l, c, p, q)
    requires s[p] > s[p + 1] && (p >= 1 ==> s[p - 1] > s[p] + s[p + 1])
    ensures HasHistory(s)
  {
    var g := h[..p] + [s[p + 1], 0];
    assert Decreasing(s) by {
      StopSettled(s);
    }
    StopTop(s, l, h, c, p, q);
    StopRemembers(s, g, l, h, p);
    DecreasingAtLeast(s);
    hide Summed, Remembered, Decreasing, AtLeast;
    assert History(s, g);
  }

  lemma {:induction false} CollapsingSize(s: seq<nat>, l: seq<nat>, c: nat, p: nat, q: nat)
    requires Collapsing(s, l, c, p, q)
    ensures |s| == p + 2 && s[p + 1] >= c
  {
  }

  lemma {:induction false} CollapsedHistory(s: seq<nat>, l: seq<nat>, h: seq<nat>, c: nat, p: nat, q: nat)
    requires |h| == |l| && History(l, h) && c >= 1 && Collapsing(s, l, c, p, q)
    ensures HasHistory(Collapsed(s))
    decreases p, 1
  {
    hide History, HasHistory, Collapsing, Collapsed, MergedAt;
    CollapsingSize(s, l, c, p, q);
    CollapsedUnfold(s);
    if p >= 1 && s[p - 1] <= s[p] + s[p + 1] {
      if s[p - 1] < s[p + 1] {
        MiddleCollapsing(s, l, c, p, q);
        CollapsedHistory(MergedAt(s, p - 1), l, h, c, p - 1, q);
      } else {
        TopHistory(s, l, h, c, p, q);
      }
    } else if s[p] <= s[p + 1] {
      TopHistory(s, l, h, c, p, q);
    } else {
      StopHistory(s, l, h, c, p, q);
    }
  }

  lemma {:induction false} TopHistory(s: seq<nat>, l: seq<nat>, h: seq<nat>, c: nat, p: nat, q: nat)
    requires |h| == |l| && History(l, h) && c >= 1 && Collapsing(s, l, c, p, q)
    ensures HasHistory(Collapsed(MergedAt(s, p)))
    decreases p, 0
  {
    TopCollapsing(s, l, c, p, q);
    if p == 0 {
      OneHistory(MergedAt(s, p));
    } else {
      CollapsedHistory(MergedAt(s, p), l, h, c, p - 1, p);
    }
  }

  /** Pushing a run and collapsing keeps a history. */
  lemma {:induction false} PushHistory(l: seq<nat>, c: nat)
    requires HasHistory(l) && c >= 1
    ensures HasHistory(Collapsed(l + [c]))
  {
    hide History, Collapsing, Collapsed;
    var h :| |h| == |l| && History(l, h);
    if |l| == 0 {
      OneHistory(l + [c]);
    } else {
      PushCollapsing(l, c);
      CollapsedHistory(l + [c], l, h, c, |l| - 1, |l|);
    }
  }

  lemma EmptyHistory()
    ensures HasHistory([])
  {
    assert History([], []);
  }

  // ---- With sixteen or more in each, entries grow by more than a quarter from one to the next below ----

  /** A lower bound for an entry with a entries above it. */
  ghost function Level(a: nat): real {
    if a == 0 then 13.493 else 1.2599 * Level(a - 1)
  }

  lemma {:induction false} Sixteen(l: seq<nat>, i: nat)
    requires AtLeast(l, 16) && i < |l|
    ensures l[i] >= 16
  {
  }

  lemma LevelPositive(a: nat)
    ensures Level(a) >= Level(0) > 0.0
  {
  }

  lemma LevelSteps(a: nat)
    requires a >= 1
    ensures Level(a) == 1.2599 * Level(a - 1) && Level(a - 1) > 0.0 && Level(a + 1) == 1.2599 * Level(a)
    ensures a == 1 ==> Level(a) <= 17.0
  {
    LevelPositive(a - 1);
  }

  lemma LevelFour(a: nat)
    ensures Level(a + 1) == 1.2599 * Level(a) && 1.5873 * Level(a) <= Level(a + 2) <= 1.5874 * Level(a)
    ensures 1.9998 * Level(a) <= Level(a + 3) <= 2.0 * Level(a) &&
      2.5196 * Level(a) <= Level(a + 4) <= 2.5197 * Level(a)
  {
    LevelPositive(a);
    assert Level(a + 1) == 1.2599 * Level(a);
    assert Level(a + 2) == 1.2599 * Level(a + 1);
    assert Level(a + 3) == 1.2599 * Level(a + 2);
  }

  lemma LevelGain(a: nat, k: nat)
    requires 1 <= k <= 7
    ensures (9 - k) as real * Level(a + k + 1) <= 16.0 * Level(a)
  {
    LevelPositive(a);
    LevelFour(a);
    LevelFour(a + 4);
    assert k == 1 || k == 2 || k == 3 || k == 4 || k == 5 || k == 6 || k == 7;
  }

  lemma LevelGap(a: nat, k: nat, y: nat, base: nat)
    requires 1 <= k <= 7 && y as real >= 2.0 * Level(a) && Shrunk(y, k - 1, base)
    ensures base as real >= Level(a + k + 1)
  {
    LevelGain(a, k);
    hide Level;
    assert k == 1 || k == 2 || k == 3 || k == 4 || k == 5 || k == 6 || k == 7;
  }

  lemma {:induction false} Tall(l: seq<nat>, h: seq<nat>, i: nat)
    requires |h| == |l| && History(l, h) && AtLeast(l, 16) && i < |l|
    ensures l[i] as real >= Level(|l| - 1 - i)
    ensures i + 1 < |l| && !Fresh(l, h, i + 1) ==> l[i] as real >= Level(|l| - i)
    decreases |l| - i, 1, 0
  {
    hide History, AtLeast, Grown;
    Sixteen(l, i);
    if i + 1 < |l| {
      HistoryAt(l, h, i + 1);
      Sixteen(l, i + 1);
      Tall(l, h, i + 1);
      LevelSteps(|l| - 1 - i);
      if !Fresh(l, h, i + 1) {
        GrownFirst(l, h, i);
        TallGrown(l, h, i, 1);
      } else if i + 2 < |l| && Fresh(l, h, i + 2) {
        Tall(l, h, i + 2);
      }
    }
  }

  /** Below an entry that has grown and a fresh one. */
  lemma {:induction false} TallEnd(l: seq<nat>, h: seq<nat>, m: nat)
    requires |h| == |l| && History(l, h) && AtLeast(l, 16) && 1 <= m < |l| - 1 && Fresh(l, h, m + 1)
    ensures l[m - 1] as real >= 2.0 * Level(|l| - 1 - m)
    decreases |l| - m, 0, 0
  {
    hide History, AtLeast;
    HistoryAt(l, h, m);
    HistoryAt(l, h, m + 1);
    Sixteen(l, m + 1);
    Tall(l, h, m + 1);
    LevelSteps(|l| - 1 - m);
    if m + 2 < |l| && Fresh(l, h, m + 2) {
      Tall(l, h, m + 2);
      LevelSteps(|l| - 2 - m);
    }
  }

  lemma {:induction false} TallGrown(l: seq<nat>, h: seq<nat>, i: nat, k: nat)
    requires |h| == |l| && History(l, h) && AtLeast(l, 16) && i < |l| && Grown(l, h, i, k)
    ensures l[i] as real >= Level(|l| - i)
    decreases |l| - i, 0, 8 - k
  {
    var m := i + k;
    hide History, AtLeast, Grown, Shrunk, Stepped;
    GrownAt(l, h, i, k);
    if Fresh(l, h, m + 1) {
      TallEnd(l, h, m);
      LevelGap(|l| - 1 - m, k, l[m - 1], l[i]);
    } else {
      GrownNext(l, h, i, k);
      TallGrown(l, h, i, k + 1);
    }
  }

  lemma {:induction false} AboveTall(l: seq<nat>, h: seq<nat>, i: nat)
    requires |h| == |l| && History(l, h) && AtLeast(l, 16) && i <= |l|
    ensures 0.2599 * Above(l, i) as real >= Level(|l| - i) - Level(0)
    decreases |l| - i
  {
    hide History, AtLeast;
    if i < |l| {
      Tall(l, h, i);
      AboveTall(l, h, i + 1);
    }
  }

  /**
   * A stack of k runs of sixteen or more covers at least 13.493 / 0.2599 times (1.2599 to the k, less one) elements.
   */
  lemma {:induction false} DeepTotal(l: seq<nat>)
    requires HasHistory(l) && AtLeast(l, 16)
    ensures 0.2599 * Total(l) as real >= Level(|l|) - Level(0)
  {
    hide History, AtLeast;
    var h :| |h| == |l| && History(l, h);
    AboveTall(l, h, 0);
    AboveTotal(l, 0);
    assert l[..0] == [];
  }

  lemma LevelSixteen(a: nat)
    ensures Level(a + 16) >= 40.3 * Level(a)
  {
    LevelPositive(a);
    LevelFour(a);
    LevelFour(a + 4);
    LevelFour(a + 8);
    LevelFour(a + 12);
  }

  lemma LevelDeep(a: nat)
    requires a >= 64
    ensures Level(a) - Level(0) >= 0.2599 * MOST_VALUES as real
  {
    LevelPositive(a - 64);
    LevelSixteen(a - 64);
    LevelSixteen(a - 48);
    LevelSixteen(a - 32);
    LevelSixteen(a - 16);
  }

  /**
   * Before a push the stack has a free one of its 64 slots whenever at most MOST_VALUES elements are sorted.
   */
  lemma {:induction false} StackFits(l: seq<nat>, n: nat)
    requires HasHistory(l) && AtLeast(l, 16) && Total(l) < n <= MOST_VALUES
    ensures |l| < 64
  {
    hide HasHistory, AtLeast, Total;
    if |l| >= 64 {
      DeepTotal(l);
      LevelDeep(|l|);
    }
  }
}

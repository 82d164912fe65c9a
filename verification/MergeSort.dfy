/** The main loop of f-stablemerge-sort.c: finding runs, stacking them, collapsing the stack. */
module MergeSort {
  import opened Arithmetic
  import opened Ordering
  import opened RunStack
  import opened RunHistory
  import opened MergeSteps

  /** A pending run. */
  datatype Run = Run(start: nat, len: nat)

  ghost function Lens(stack: seq<Run>): (l: seq<nat>)
    ensures |l| == |stack| && forall i :: 0 <= i < |l| ==> l[i] == stack[i].len
  {
    seq(|stack|, i requires 0 <= i < |stack| => stack[i].len)
  }

  /** The runs cover the first `end` elements, in order and without gaps. */
  ghost predicate Tiles(stack: seq<Run>, end: nat) {
    && (|stack| == 0 ==> end == 0)
    && (|stack| > 0 ==> stack[0].start == 0 && stack[|stack| - 1].start + stack[|stack| - 1].len == end)
    && (forall i, j :: 0 <= i < j < |stack| ==> stack[i].start + stack[i].len <= stack[j].start)
    && (forall i, j :: 0 <= i < j < |stack| && j == i + 1 ==> stack[i].start + stack[i].len == stack[j].start)
  }

  ghost predicate RunsSorted<T(!new)>(cmp: (T, T) -> int, s: seq<T>, stack: seq<Run>) {
    forall i :: 0 <= i < |stack| ==>
      stack[i].start + stack[i].len <= |s| && Sorted(cmp, s[stack[i].start..stack[i].start + stack[i].len])
  }

  /** Runs p and p + 1 of the stack become one. */
  ghost function Joined(stack: seq<Run>, p: nat): seq<Run>
    requires p + 1 < |stack|
  {
    stack[..p] + [Run(stack[p].start, stack[p].len + stack[p + 1].len)] + stack[p + 2..]
  }

  lemma {:induction false} JoinedAt(stack: seq<Run>, p: nat)
    requires p + 1 < |stack|
    ensures |Joined(stack, p)| == |stack| - 1
    ensures forall i {:trigger Joined(stack, p)[i]} :: 0 <= i < p ==> Joined(stack, p)[i] == stack[i]
    ensures forall i {:trigger Joined(stack, p)[i]} :: p < i < |stack| - 1 ==> Joined(stack, p)[i] == stack[i + 1]
    ensures Joined(stack, p)[p] == Run(stack[p].start, stack[p].len + stack[p + 1].len)
  {
  }

  lemma {:induction false} JoinedPair(stack: seq<Run>, end: nat, p: nat, r: seq<Run>, i: nat, j: nat)
    requires Tiles(stack, end) && p + 1 < |stack| && r == Joined(stack, p) && i < j < |r|
    ensures r[i].start + r[i].len <= r[j].start
    ensures j == i + 1 ==> r[i].start + r[i].len == r[j].start
  {
    JoinedAt(stack, p);
    hide Joined;
    assert stack[p].start + stack[p].len == stack[p + 1].start;
    var i', j' := if i < p then i else i + 1, if j <= p then j else j + 1;
    assert r[i].start + r[i].len == stack[i'].start + stack[i'].len;
    assert r[j].start == stack[j'].start;
    assert j == i + 1 ==> j' == i' + 1;
  }

  lemma {:induction false} JoinedLens(stack: seq<Run>, p: nat)
    requires p + 1 < |stack|
    ensures Lens(Joined(stack, p)) == MergedAt(Lens(stack), p)
  {
    JoinedAt(stack, p);
    var u, v := Lens(Joined(stack, p)), MergedAt(Lens(stack), p);
    hide Joined;
    forall i | 0 <= i < |u|
      ensures u[i] == v[i]
    {
      assert i < p ==> v[i] == stack[i].len;
      assert i > p ==> v[i] == stack[i + 1].len;
    }
  }

  lemma {:induction false} JoinedTiles(stack: seq<Run>, end: nat, p: nat)
    requires Tiles(stack, end) && p + 1 < |stack|
    ensures Tiles(Joined(stack, p), end)
    ensures Lens(Joined(stack, p)) == MergedAt(Lens(stack), p)
  {
    JoinedLens(stack, p);
    var r := Joined(stack, p);
    JoinedAt(stack, p);
    assert stack[p].start + stack[p].len == stack[p + 1].start;
    hide Joined, MergedAt, Lens;
    forall i, j | 0 <= i < j < |r|
      ensures r[i].start + r[i].len <= r[j].start
      ensures j == i + 1 ==> r[i].start + r[i].len == r[j].start
    {
      JoinedPair(stack, end, p, r, i, j);
    }
    assert r[0].start == 0;
    assert r[|r| - 1].start + r[|r| - 1].len == end;
  }

  lemma {:induction false} TilesPair(stack: seq<Run>, end: nat, p: nat)
    requires Tiles(stack, end) && p + 1 < |stack|
    ensures stack[p].start + stack[p].len == stack[p + 1].start
    ensures forall j {:trigger stack[j]} :: 0 <= j < p ==> stack[j].start + stack[j].len <= stack[p].start
    ensures forall j {:trigger stack[j]} :: p + 1 < j < |stack| ==>
      stack[p + 1].start + stack[p + 1].len <= stack[j].start
  {
  }

  lemma {:induction false} OtherRun<T(!new)>(cmp: (T, T) -> int, s: seq<T>, t: seq<T>, stack: seq<Run>, end: nat,
      p: nat, j: nat)
    requires Tiles(stack, end) && RunsSorted(cmp, s, stack) && p + 1 < |stack| && |t| == |s|
    requires j < |stack| && j != p && j != p + 1
    requires var q := stack[p + 1].start + stack[p + 1].len;
             forall k {:trigger t[k]} :: 0 <= k < |s| && !(stack[p].start <= k < q) ==> t[k] == s[k]
    ensures stack[j].start + stack[j].len <= |t| && Sorted(cmp, t[stack[j].start..stack[j].start + stack[j].len])
  {
    hide Sorted, Tiles;
    TilesPair(stack, end, p);
    assert t[stack[j].start..stack[j].start + stack[j].len] == s[stack[j].start..stack[j].start + stack[j].len];
  }

  /** Merging the elements of runs p and p + 1 leaves the other runs as they were. */
  lemma {:induction false} JoinedSorted<T(!new)>(cmp: (T, T) -> int, s: seq<T>, t: seq<T>, stack: seq<Run>, end: nat,
      p: nat)
    requires Tiles(stack, end) && RunsSorted(cmp, s, stack) && p + 1 < |stack| && |t| == |s|
    requires var q := stack[p + 1].start + stack[p + 1].len;
             && Sorted(cmp, t[stack[p].start..q])
             && forall k {:trigger t[k]} :: 0 <= k < |s| && !(stack[p].start <= k < q) ==> t[k] == s[k]
    ensures RunsSorted(cmp, t, Joined(stack, p))
  {
    hide Sorted, Joined, Tiles;
    JoinedAt(stack, p);
    TilesPair(stack, end, p);
    var r := Joined(stack, p);
    forall i | 0 <= i < |r|
      ensures r[i].start + r[i].len <= |t| && Sorted(cmp, t[r[i].start..r[i].start + r[i].len])
    {
      if i != p {
        var j := if i < p then i else i + 1;
        assert r[i] == stack[j];
        OtherRun(cmp, s, t, stack, end, p, j);
      }
    }
  }

  lemma {:induction false} PairBounds<T(!new)>(cmp: (T, T) -> int, s: seq<T>, stack: seq<Run>, n: nat, end: nat)
    requires 2 <= n <= |stack| && Tiles(stack, end) && RunsSorted(cmp, s, stack)
    ensures stack[n - 2].start + stack[n - 2].len == stack[n - 1].start
    ensures stack[n - 1].start + stack[n - 1].len <= end && stack[n - 1].start + stack[n - 1].len <= |s|
  {
    hide Sorted;
    assert n < |stack| ==> stack[n - 1].start + stack[n - 1].len <= stack[|stack| - 1].start;
  }

  lemma {:induction false} MergedSlices<T(!new)>(cmp: (T, T) -> int, s: seq<T>, left: nat, mid: nat, right: nat,
      stack: seq<Run>, n: nat)
    requires TotalPreorder(cmp) && RunsSorted(cmp, s, stack) && 2 <= n <= |stack|
    requires left == stack[n - 2].start && mid == stack[n - 1].start && right == mid + stack[n - 1].len
    requires left + stack[n - 2].len == mid && right <= |s|
    ensures Sorted(cmp, Merged(cmp, s[left..mid], s[mid..right]))
    ensures Stable(cmp, s[left..right], Merged(cmp, s[left..mid], s[mid..right]))
  {
    MergedStable(cmp, s[left..mid], s[mid..right]);
    assert s[left..right] == s[left..mid] + s[mid..right];
  }

  /** sm_merge_at: merges runs n - 2 and n - 1 and lengthens entry n - 2; the caller drops entry n - 1. */
  method MergeAt<T(!new)>(a: array<T>, stack: seq<Run>, n: nat, cmp: (T, T) -> int, tmp: array<T>, ghost end: nat)
    returns (r: seq<Run>)
    requires TotalPreorder(cmp) && a != tmp && tmp.Length >= a.Length
    requires 2 <= n <= |stack| && Tiles(stack, end) && RunsSorted(cmp, a[..], stack)
    modifies a, tmp
    ensures r == stack[n - 2 := Run(stack[n - 2].start, stack[n - 2].len + stack[n - 1].len)]
    ensures Stable(cmp, old(a[..]), a[..])
    ensures RunsSorted(cmp, a[..], Joined(stack, n - 2))
    ensures forall k {:trigger a[k]} :: end <= k < a.Length ==> a[k] == old(a[k])
  {
    var left, mid := stack[n - 2].start, stack[n - 1].start;
    var right := mid + stack[n - 1].len;
    PairBounds(cmp, a[..], stack, n, end);
    MergedSlices(cmp, a[..], left, mid, right, stack, n);
    hide Sorted, Stable, Same, Merged, RunsSorted, Tiles, Joined, Compare, TotalPreorder;
    Merge(a, left, mid, right, cmp, tmp);
    StableSlice(cmp, old(a[..]), a[..], left, right);
    JoinedSorted(cmp, old(a[..]), a[..], stack, end, n - 2);
    r := stack[n - 2 := Run(stack[n - 2].start, stack[n - 2].len + stack[n - 1].len)];
  }

  lemma {:induction false} JoinedTop(stack: seq<Run>, r: seq<Run>)
    requires |stack| >= 2 && |r| == |stack| - 1
    requires var n := |stack|;
             r == stack[n - 2 := Run(stack[n - 2].start, stack[n - 2].len + stack[n - 1].len)][..n - 1]
    ensures r == Joined(stack, |stack| - 2)
  {
  }

  /** One step of sm_collapse on the top pair. */
  method CollapseTop<T(!new)>(a: array<T>, stack: seq<Run>, cmp: (T, T) -> int, tmp: array<T>, ghost end: nat)
    returns (r: seq<Run>)
    requires TotalPreorder(cmp) && a != tmp && tmp.Length >= a.Length
    requires |stack| >= 2 && Tiles(stack, end) && RunsSorted(cmp, a[..], stack)
    modifies a, tmp
    ensures |r| == |stack| - 1 && Tiles(r, end) && RunsSorted(cmp, a[..], r)
    ensures Lens(r) == MergedAt(Lens(stack), |stack| - 2)
    ensures Stable(cmp, old(a[..]), a[..])
    ensures forall k {:trigger a[k]} :: end <= k < a.Length ==> a[k] == old(a[k])
  {
    hide Sorted, Stable, Same, RunsSorted, Tiles, Joined, TotalPreorder, Compare, MergedAt;
    var n := |stack|;
    r := MergeAt(a, stack, n, cmp, tmp, end);
    r := r[..n - 1];
    JoinedTop(stack, r);
    JoinedTiles(stack, end, n - 2);
  }

  lemma {:induction false} JoinedBelowTop(stack: seq<Run>, r: seq<Run>)
    requires |stack| >= 3 && |r| == |stack| - 1
    requires var n := |stack|;
             && r[n - 2] == stack[n - 1]
             && r[n - 3] == Run(stack[n - 3].start, stack[n - 3].len + stack[n - 2].len)
             && forall i :: 0 <= i < n - 3 ==> r[i] == stack[i]
    ensures r == Joined(stack, |stack| - 3)
  {
  }

  /** One step of sm_collapse on the pair below the top: the top run moves down into the freed entry. */
  method CollapseMiddle<T(!new)>(a: array<T>, stack: seq<Run>, cmp: (T, T) -> int, tmp: array<T>, ghost end: nat)
    returns (r: seq<Run>)
    requires TotalPreorder(cmp) && a != tmp && tmp.Length >= a.Length
    requires |stack| >= 3 && Tiles(stack, end) && RunsSorted(cmp, a[..], stack)
    modifies a, tmp
    ensures |r| == |stack| - 1 && Tiles(r, end) && RunsSorted(cmp, a[..], r)
    ensures Lens(r) == MergedAt(Lens(stack), |stack| - 3)
    ensures Stable(cmp, old(a[..]), a[..])
    ensures forall k {:trigger a[k]} :: end <= k < a.Length ==> a[k] == old(a[k])
  {
    hide Sorted, Stable, Same, RunsSorted, Tiles, Joined, TotalPreorder, Compare, MergedAt;
    var n := |stack|;
    r := MergeAt(a, stack, n - 1, cmp, tmp, end);
    r := r[n - 2 := r[n - 1]];
    r := r[..n - 1];
    JoinedBelowTop(stack, r);
    JoinedTiles(stack, end, n - 3);
  }

  /** sm_collapse: merges runs until the three topmost lengths obey the rules, or, when forced, down to one run. */
  method Collapse<T(!new)>(a: array<T>, stack: seq<Run>, cmp: (T, T) -> int, tmp: array<T>, force: bool, ghost end: nat)
    returns (r: seq<Run>)
    requires TotalPreorder(cmp) && a != tmp && tmp.Length >= a.Length
    requires Tiles(stack, end) && RunsSorted(cmp, a[..], stack)
    modifies a, tmp
    ensures Tiles(r, end) && RunsSorted(cmp, a[..], r)
    ensures Stable(cmp, old(a[..]), a[..])
    ensures !force ==> Lens(r) == Collapsed(Lens(stack))
    ensures force ==> |r| <= 1
    ensures forall k {:trigger a[k]} :: end <= k < a.Length ==> a[k] == old(a[k])
  {
    assert Stable(cmp, a[..], a[..]);
    hide Sorted, Stable, Same, RunsSorted, Tiles, Joined, TotalPreorder, Compare, MergedAt, Collapsed;
    r := stack;
    while |r| > 1
      invariant Tiles(r, end) && RunsSorted(cmp, a[..], r)
      invariant Stable(cmp, old(a[..]), a[..])
      invariant !force ==> Collapsed(Lens(r)) == Collapsed(Lens(stack))
      invariant forall k {:trigger a[k]} :: end <= k < a.Length ==> a[k] == old(a[k])
      decreases |r|
    {
      var n := |r|;
      ghost var s := a[..];
      CollapsedUnfold(Lens(r));
      if !force {
        if n >= 3 && r[n - 3].len <= r[n - 2].len + r[n - 1].len {
          if r[n - 3].len < r[n - 1].len {
            r := CollapseMiddle(a, r, cmp, tmp, end);
          } else {
            r := CollapseTop(a, r, cmp, tmp, end);
          }
        } else if r[n - 2].len <= r[n - 1].len {
          r := CollapseTop(a, r, cmp, tmp, end);
        } else {
          break;
        }
      } else {
        r := CollapseTop(a, r, cmp, tmp, end);
      }
      StableTransitive(cmp, old(a[..]), s, a[..]);
    }
    CollapsedUnfold(Lens(r));
  }

  ghost predicate Falls<T>(cmp: (T, T) -> int, s: seq<T>, pos: nat, end: nat) {
    end <= |s| && forall k :: pos < k < end ==> Compare(cmp, s[k - 1], s[k]) > 0
  }

  ghost predicate Climbs<T>(cmp: (T, T) -> int, s: seq<T>, pos: nat, end: nat) {
    end <= |s| && forall k :: pos < k < end ==> Compare(cmp, s[k - 1], s[k]) <= 0
  }

  lemma {:induction false} RunOfOne<T>(cmp: (T, T) -> int, s: seq<T>, pos: nat)
    requires pos < |s|
    ensures Falls(cmp, s, pos, pos + 1) && Climbs(cmp, s, pos, pos + 1)
  {
  }

  lemma {:induction false} FallsOn<T>(cmp: (T, T) -> int, s: seq<T>, pos: nat, end: nat)
    requires Falls(cmp, s, pos, end) && 0 < end < |s| && Compare(cmp, s[end - 1], s[end]) > 0
    ensures Falls(cmp, s, pos, end + 1)
  {
  }

  /** The first loop of sm_find_run: the longest strictly descending run at pos. */
  method DescentEnd<T>(a: array<T>, pos: nat, nmemb: nat, cmp: (T, T) -> int) returns (end: nat)
    requires pos + 1 < nmemb <= a.Length
    ensures pos < end <= nmemb && Falls(cmp, a[..], pos, end)
    ensures end < nmemb ==> Compare(cmp, a[end - 1], a[end]) <= 0
  {
    RunOfOne(cmp, a[..], pos);
    hide Compare, Falls;
    end := pos + 1;
    while end < nmemb && Compare(cmp, a[end - 1], a[end]) > 0
      invariant pos < end <= nmemb && Falls(cmp, a[..], pos, end)
    {
      FallsOn(cmp, a[..], pos, end);
      end := end + 1;
    }
  }

  lemma {:induction false} ClimbsOn<T>(cmp: (T, T) -> int, s: seq<T>, pos: nat, end: nat)
    requires Climbs(cmp, s, pos, end) && 0 < end < |s| && Compare(cmp, s[end - 1], s[end]) <= 0
    ensures Climbs(cmp, s, pos, end + 1)
  {
  }

  /** The second loop of sm_find_run: the longest ascending run at pos. */
  method AscentEnd<T>(a: array<T>, pos: nat, nmemb: nat, cmp: (T, T) -> int) returns (end: nat)
    requires pos + 1 < nmemb <= a.Length
    ensures pos < end <= nmemb && Climbs(cmp, a[..], pos, end)
    ensures end < nmemb ==> Compare(cmp, a[end - 1], a[end]) > 0
  {
    RunOfOne(cmp, a[..], pos);
    hide Compare, Climbs;
    end := pos + 1;
    while end < nmemb && Compare(cmp, a[end - 1], a[end]) <= 0
      invariant pos < end <= nmemb && Climbs(cmp, a[..], pos, end)
    {
      ClimbsOn(cmp, a[..], pos, end);
      end := end + 1;
    }
  }

  lemma {:induction false} Descent<T(!new)>(cmp: (T, T) -> int, s: seq<T>, pos: nat, end: nat)
    requires TotalPreorder(cmp) && pos < end && Falls(cmp, s, pos, end)
    ensures IsStableSort(cmp, s[pos..end], Reversed(s[pos..end]))
  {
    var r := s[pos..end];
    forall i | 0 < i < |r|
      ensures Compare(cmp, r[i - 1], r[i]) > 0
    {
      assert r[i] == s[pos + i] && r[i - 1] == s[pos + i - 1];
    }
    ReversedStable(cmp, r);
  }

  lemma {:induction false} Ascent<T(!new)>(cmp: (T, T) -> int, s: seq<T>, pos: nat, end: nat)
    requires TotalPreorder(cmp) && pos < end && Climbs(cmp, s, pos, end)
    ensures IsStableSort(cmp, s[pos..end], s[pos..end])
  {
    var r := s[pos..end];
    forall i | 0 < i < |r|
      ensures Compare(cmp, r[i - 1], r[i]) <= 0
    {
      assert r[i] == s[pos + i] && r[i - 1] == s[pos + i - 1];
    }
    ChainSorted(cmp, r);
  }

  /** A strict descent if the first two values fall, otherwise an ascent, and in either case as long as it goes. */
  ghost predicate IsNaturalRun<T>(cmp: (T, T) -> int, s: seq<T>, pos: nat, nmemb: nat, len: nat)
    requires pos < nmemb <= |s|
  {
    && 0 < len <= nmemb - pos
    && if pos + 1 < nmemb && Compare(cmp, s[pos], s[pos + 1]) > 0 then
         Falls(cmp, s, pos, pos + len) && (pos + len < nmemb ==> Compare(cmp, s[pos + len - 1], s[pos + len]) <= 0)
       else
         Climbs(cmp, s, pos, pos + len) && (pos + len < nmemb ==> Compare(cmp, s[pos + len - 1], s[pos + len]) > 0)
  }

  /** sm_find_run: the natural run at pos, reversed in place when it descends strictly. */
  method FindRun<T(!new)>(a: array<T>, pos: nat, nmemb: nat, cmp: (T, T) -> int) returns (len: nat)
    requires TotalPreorder(cmp) && pos < nmemb <= a.Length
    modifies a
    ensures IsNaturalRun(cmp, old(a[..]), pos, nmemb, len)
    ensures IsStableSort(cmp, old(a[pos..pos + len]), a[pos..pos + len])
    ensures forall k {:trigger a[k]} :: 0 <= k < a.Length && !(pos <= k < pos + len) ==> a[k] == old(a[k])
  {
    hide Compare, Sorted, Stable, Same, IsStableSort, Reversed, Falls, Climbs, TotalPreorder;
    RunOfOne(cmp, a[..], pos);
    if pos + 1 >= nmemb {
      Ascent(cmp, a[..], pos, nmemb);
      return nmemb - pos;
    }
    if Compare(cmp, a[pos], a[pos + 1]) > 0 {
      var end := DescentEnd(a, pos, nmemb, cmp);
      Descent(cmp, a[..], pos, end);
      Reverse(a, pos, end - pos);
      len := end - pos;
    } else {
      var end := AscentEnd(a, pos, nmemb, cmp);
      Ascent(cmp, a[..], pos, end);
      len := end - pos;
    }
  }

  lemma {:induction false} PushLens(stack: seq<Run>, run: Run)
    ensures Lens(stack + [run]) == Lens(stack) + [run.len]
  {
  }

  /** A settled stack with one more run on top is where a collapse may start. */
  lemma {:induction false} PushUnsettled(stack: seq<Run>, run: Run, m: nat)
    requires Settled(Lens(stack)) && AtLeast(Lens(stack), m) && run.len >= m
    ensures Unsettled(Lens(stack + [run])) && AtLeast(Lens(stack + [run]), m)
    ensures Total(Lens(stack + [run])) == Total(Lens(stack)) + run.len
  {
    PushLens(stack, run);
    TotalSnoc(Lens(stack), run.len);
    hide Lens, Total;
    var l, r := Lens(stack), Lens(stack + [run]);
    assert forall i :: 0 <= i < |l| ==> r[i] == l[i];
  }

  lemma {:induction false} PushTiles<T(!new)>(cmp: (T, T) -> int, s: seq<T>, t: seq<T>, stack: seq<Run>, pos: nat,
      len: nat)
    requires Tiles(stack, pos) && RunsSorted(cmp, s, stack) && pos + len <= |s| && |t| == |s|
    requires forall k {:trigger t[k]} :: 0 <= k < pos ==> t[k] == s[k]
    requires Sorted(cmp, t[pos..pos + len])
    ensures Tiles(stack + [Run(pos, len)], pos + len)
    ensures RunsSorted(cmp, t, stack + [Run(pos, len)])
  {
    hide Sorted;
    forall i | 0 <= i < |stack|
      ensures stack[i].start + stack[i].len <= pos
      ensures Sorted(cmp, t[stack[i].start..stack[i].start + stack[i].len])
    {
      assert i < |stack| - 1 ==> stack[i].start + stack[i].len <= stack[|stack| - 1].start;
      assert t[stack[i].start..stack[i].start + stack[i].len] == s[stack[i].start..stack[i].start + stack[i].len];
    }
  }

  /** m is nmemb over the unit, rounded up, for the unit that leaves 16 to 31 whole ones. */
  predicate Rounded(nmemb: nat, unit: nat, m: nat) {
    16 * unit <= nmemb < 32 * unit && (m - 1) * unit < nmemb <= m * unit
  }

  /** n whole units, and r says whether there is more. */
  predicate Halved(nmemb: nat, n: nat, unit: nat, r: nat) {
    n * unit <= nmemb < (n + 1) * unit && r <= 1 && (r == 1 <==> nmemb > n * unit)
  }

  lemma HalvedNot(nmemb: nat)
    ensures Halved(nmemb, nmemb, Power(2, 0), 0)
  {
  }

  lemma HalveUnit(nmemb: nat, n: nat, unit: nat, r: nat)
    requires Halved(nmemb, n, unit, r)
    ensures Halved(nmemb, n / 2, 2 * unit, if n % 2 == 1 then 1 else r)
  {
    var h := n / 2;
    MulAssoc(h, 2, unit);
    MulAssoc(h + 1, 2, unit);
    assert n == 2 * h || n == 2 * h + 1;
    assert (2 * h + 1) * unit == (2 * h) * unit + unit && (2 * h + 2) * unit == (2 * h) * unit + 2 * unit;
  }

  lemma HalveStep(nmemb: nat, n: nat, k: nat, r: nat)
    requires Halved(nmemb, n, Power(2, k), r)
    ensures Halved(nmemb, n / 2, Power(2, k + 1), if n % 2 == 1 then 1 else r)
  {
    hide Halved;
    HalveUnit(nmemb, n, Power(2, k), r);
  }

  lemma HalvedRounds(nmemb: nat, n: nat, unit: nat, r: nat)
    requires Halved(nmemb, n, unit, r) && 16 <= n < 32
    ensures Rounded(nmemb, unit, n + r)
  {
    MulMono(unit, 16, n);
    MulMono(unit, n + 1, 32);
  }

  /** The minimum run length: the five topmost bits of nmemb, rounded up. */
  method MinRun(nmemb: nat) returns (minRun: nat)
    requires nmemb > MIN_RUN
    ensures 16 <= minRun <= MIN_RUN
    ensures exists k: nat :: Rounded(nmemb, Power(2, k), minRun)
  {
    hide Halved, Rounded, Power;
    var n, r := nmemb, 0;
    ghost var k: nat := 0;
    HalvedNot(nmemb);
    while n >= MIN_RUN
      invariant 16 <= n && 0 <= r <= 1 && Halved(nmemb, n, Power(2, k), r)
    {
      HalveStep(nmemb, n, k, r);
      r := if n % 2 == 1 then 1 else r;
      n := n / 2;
      k := k + 1;
    }
    HalvedRounds(nmemb, n, Power(2, k), r);
    minRun := n + r;
  }

  /** The body of the main loop up to the push: a run found at pos and, when short, extended by insertion. */
  method NextRun<T(!new)>(a: array<T>, pos: nat, minRun: nat, cmp: (T, T) -> int) returns (len: nat)
    requires TotalPreorder(cmp) && pos < a.Length
    modifies a
    ensures 0 < len <= a.Length - pos && (len < minRun ==> pos + len == a.Length)
    ensures exists n: nat {:trigger IsNaturalRun(cmp, old(a[..]), pos, a.Length, n)} ::
      IsNaturalRun(cmp, old(a[..]), pos, a.Length, n) &&
      len == if n >= minRun then n else if pos + minRun < a.Length then minRun else a.Length - pos
    ensures Sorted(cmp, a[pos..pos + len])
    ensures Stable(cmp, old(a[..]), a[..])
    ensures forall k {:trigger a[k]} :: 0 <= k < pos ==> a[k] == old(a[k])
  {
    hide Sorted, Stable, Same, Compare, TotalPreorder, Falls, Climbs;
    len := FindRun(a, pos, a.Length, cmp);
    assert IsNaturalRun(cmp, old(a[..]), pos, a.Length, len);
    ghost var s := a[..];
    StableSlice(cmp, old(a[..]), s, pos, pos + len);
    if len < minRun {
      var extend := if pos + minRun < a.Length then minRun else a.Length - pos;
      InsertionSort(a, pos, len, extend, cmp);
      len := extend;
      StableSlice(cmp, s, a[..], pos, pos + len);
      StableTransitive(cmp, old(a[..]), s, a[..]);
    }
  }

  /** What holds of the stack before every push of the main loop. */
  ghost predicate StackAt(stack: seq<Run>, pos: nat, n: nat) {
    && Tiles(stack, pos)
    && Settled(Lens(stack)) && Total(Lens(stack)) == pos && HasHistory(Lens(stack))
    && (pos < n ==> AtLeast(Lens(stack), 16))
  }

  lemma {:induction false} EmptyStack<T(!new)>(cmp: (T, T) -> int, s: seq<T>)
    ensures StackAt([], 0, |s|) && RunsSorted(cmp, s, []) && Stable(cmp, s, s)
    ensures forall n {:trigger s[..n]} :: 0 <= n <= |s| && n <= 1 ==> Sorted(cmp, s[..n])
  {
    hide HasHistory;
    assert Lens([]) == [];
    EmptyHistory();
  }

  lemma {:induction false} Nonnegative(l: seq<nat>)
    ensures AtLeast(l, 0)
  {
  }

  /** The push fits the 64 slots of the source, and what is pushed may be collapsed. */
  lemma {:induction false} PushFits(stack: seq<Run>, pos: nat, n: nat, len: nat, minRun: nat)
    requires StackAt(stack, pos, n) && pos < n && minRun >= 16 && len >= 1 && (len < minRun ==> pos + len == n)
    ensures n <= MOST_VALUES ==> |stack| < MAX_RUNS
    ensures var l := Lens(stack + [Run(pos, len)]);
      && Unsettled(l) && Total(l) == pos + len && AtLeast(l, 0) && (pos + len < n ==> AtLeast(l, 16))
      && HasHistory(Collapsed(l))
  {
    hide Lens, Tiles, Settled, Unsettled, AtLeast, Total, HasHistory, Collapsed;
    if n <= MOST_VALUES {
      StackFits(Lens(stack), n);
    }
    PushLens(stack, Run(pos, len));
    PushHistory(Lens(stack), len);
    if len >= 16 {
      PushUnsettled(stack, Run(pos, len), 16);
    }
    assert AtLeast(Lens(stack), 0) by {
      Nonnegative(Lens(stack));
    }
    PushUnsettled(stack, Run(pos, len), 0);
  }

  lemma {:induction false} CollapsedStack(stack: seq<Run>, r: seq<Run>, pos: nat, n: nat)
    requires Unsettled(Lens(stack)) && Total(Lens(stack)) == pos
    requires AtLeast(Lens(stack), 0) && (pos < n ==> AtLeast(Lens(stack), 16))
    requires Lens(r) == Collapsed(Lens(stack)) && Tiles(r, pos) && HasHistory(Lens(r))
    ensures StackAt(r, pos, n)
  {
    hide Lens, Tiles, Settled, Unsettled, AtLeast, Total, Collapsed, HasHistory;
    CollapsedSettled(Lens(stack), 0);
    if pos < n {
      CollapsedSettled(Lens(stack), 16);
    }
  }

  lemma {:induction false} StackTiles(stack: seq<Run>, pos: nat, n: nat)
    requires StackAt(stack, pos, n)
    ensures Tiles(stack, pos)
  {
  }

  /** One turn of the main loop: the next run is found, pushed, and the stack collapsed. */
  method PushRun<T(!new)>(a: array<T>, stack: seq<Run>, pos: nat, minRun: nat, cmp: (T, T) -> int, tmp: array<T>)
    returns (r: seq<Run>, len: nat)
    requires TotalPreorder(cmp) && a != tmp && tmp.Length >= a.Length && minRun >= 16
    requires pos < a.Length && StackAt(stack, pos, a.Length) && RunsSorted(cmp, a[..], stack)
    modifies a, tmp
    ensures 0 < len <= a.Length - pos
    ensures StackAt(r, pos + len, a.Length) && RunsSorted(cmp, a[..], r)
    ensures Stable(cmp, old(a[..]), a[..])
    ensures a.Length <= MOST_VALUES ==> |stack| < MAX_RUNS
  {
    hide Sorted, Stable, Same, Compare, TotalPreorder, RunsSorted, StackAt, Tiles, Lens, Settled, Unsettled, AtLeast,
      HasHistory;
    StackTiles(stack, pos, a.Length);
    len := NextRun(a, pos, minRun, cmp);
    ghost var s := a[..];
    PushFits(stack, pos, a.Length, len, minRun);
    PushTiles(cmp, old(a[..]), s, stack, pos, len);
    ghost var pushed := stack + [Run(pos, len)];
    r := Collapse(a, stack + [Run(pos, len)], cmp, tmp, false, pos + len);
    CollapsedStack(pushed, r, pos + len, a.Length);
    StableTransitive(cmp, old(a[..]), s, a[..]);
  }

  lemma {:induction false} OneRun<T(!new)>(cmp: (T, T) -> int, s: seq<T>, stack: seq<Run>)
    requires |stack| <= 1 && Tiles(stack, |s|) && RunsSorted(cmp, s, stack)
    ensures Sorted(cmp, s)
  {
    if |stack| == 1 {
      assert s[stack[0].start..stack[0].start + stack[0].len] == s;
    }
  }

  /**
   * sm_mergesort sorts stably for every length and every total preorder. The stack is a sequence here;
   * `deepest` is the greatest depth a push reaches, at most the source's 64 slots for every block: see MOST_VALUES.
   */
  method Sort<T(!new)>(a: array<T>, cmp: (T, T) -> int) returns (ghost deepest: nat)
    requires TotalPreorder(cmp)
    modifies a
    ensures IsStableSort(cmp, old(a[..]), a[..])
    ensures a.Length <= MOST_VALUES ==> deepest <= MAX_RUNS
  {
    hide Sorted, Stable, Same, Compare, TotalPreorder, RunsSorted, StackAt, Tiles;
    EmptyStack(cmp, a[..]);
    deepest := 0;
    if a.Length <= 1 {
      assert a[..] == a[..][..a.Length];
      return;
    }
    if a.Length <= MIN_RUN {
      assert a[0..1] == a[..][..1];
      InsertionSort(a, 0, 1, a.Length, cmp);
      assert a[0..a.Length] == a[..] && old(a[0..a.Length]) == old(a[..]);
      return;
    }
    var minRun := MinRun(a.Length);
    var first := a[0];
    var tmp := new T[a.Length](_ => first);
    assert a[..] == old(a[..]);
    var stack: seq<Run> := [];
    var pos := 0;
    while pos < a.Length
      invariant 0 <= pos <= a.Length
      invariant StackAt(stack, pos, a.Length) && RunsSorted(cmp, a[..], stack)
      invariant Stable(cmp, old(a[..]), a[..])
      invariant a.Length <= MOST_VALUES ==> deepest <= MAX_RUNS
    {
      ghost var s := a[..];
      deepest := if |stack| + 1 > deepest then |stack| + 1 else deepest;
      var r, len := PushRun(a, stack, pos, minRun, cmp, tmp);
      StableTransitive(cmp, old(a[..]), s, a[..]);
      stack := r;
      pos := pos + len;
    }
    ghost var s := a[..];
    StackTiles(stack, pos, a.Length);
    stack := Collapse(a, stack, cmp, tmp, true, a.Length);
    StableTransitive(cmp, old(a[..]), s, a[..]);
    OneRun(cmp, a[..], stack);
  }

  /** stable_sort: the array becomes the one stable sort of what it held, hence a permutation of it. */
  method StableSort<T(!new)>(a: array<T>, cmp: (T, T) -> int)
    requires TotalPreorder(cmp)
    modifies a
    ensures IsStableSort(cmp, old(a[..]), a[..])
    ensures forall t :: IsStableSort(cmp, old(a[..]), t) ==> t == a[..]
    ensures multiset(a[..]) == multiset(old(a[..]))
  {
    if a.Length > 1 {
      ghost var deepest := Sort(a, cmp);
    }
    StableIsPermutation(cmp, old(a[..]), a[..]);
    forall t | IsStableSort(cmp, old(a[..]), t)
      ensures t == a[..]
    {
      StableTransitive(cmp, a[..], old(a[..]), t);
      StableSortUnique(cmp, a[..], t);
    }
  }
}

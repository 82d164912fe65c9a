/** The element moves of f-stablemerge-sort.c: insertion, reversal, merging. */
module MergeSteps {
  import opened Ordering

  const MIN_RUN := 32
  const MAX_RUNS := 64

  // ---- Facts about sequences the steps below rely on ----

  lemma {:induction false} ChainBelow<T(!new)>(cmp: (T, T) -> int, s: seq<T>, i: nat, j: nat)
    requires TotalPreorder(cmp)
    requires forall k :: 0 < k < |s| ==> Compare(cmp, s[k - 1], s[k]) <= 0
    requires i < j < |s|
    ensures Compare(cmp, s[i], s[j]) <= 0
    decreases j
  {
    assert Compare(cmp, s[j - 1], s[j]) <= 0;
    if i < j - 1 {
      ChainBelow(cmp, s, i, j - 1);
    }
  }

  lemma {:induction false} ChainSorted<T(!new)>(cmp: (T, T) -> int, s: seq<T>)
    requires TotalPreorder(cmp)
    requires forall i :: 0 < i < |s| ==> Compare(cmp, s[i - 1], s[i]) <= 0
    ensures Sorted(cmp, s)
  {
    forall i, j | 0 <= i < j < |s|
      ensures Compare(cmp, s[i], s[j]) <= 0
    {
      ChainBelow(cmp, s, i, j);
    }
  }

  /** Replacing a slice by a stable rearrangement of it rearranges the whole sequence stably. */
  lemma {:induction false} StableSlice<T(!new)>(cmp: (T, T) -> int, s: seq<T>, t: seq<T>, lo: nat, hi: nat)
    requires lo <= hi <= |s| && |t| == |s|
    requires forall k :: 0 <= k < |s| && !(lo <= k < hi) ==> s[k] == t[k]
    requires Stable(cmp, s[lo..hi], t[lo..hi])
    ensures Stable(cmp, s, t)
  {
    assert s[..lo] == t[..lo] && s[hi..] == t[hi..];
    StableConcat(cmp, s[..lo], t[..lo], s[lo..hi], t[lo..hi]);
    StableConcat(cmp, s[..lo] + s[lo..hi], t[..lo] + t[lo..hi], s[hi..], t[hi..]);
    assert s == s[..lo] + s[lo..hi] + s[hi..];
    assert t == t[..lo] + t[lo..hi] + t[hi..];
  }

  lemma {:induction false} InsertSorted<T(!new)>(cmp: (T, T) -> int, s: seq<T>, x: T, j: nat)
    requires TotalPreorder(cmp) && Sorted(cmp, s) && j <= |s|
    requires j > 0 ==> Compare(cmp, s[j - 1], x) <= 0
    requires forall k :: j <= k < |s| ==> Compare(cmp, s[k], x) > 0
    ensures Sorted(cmp, s[..j] + [x] + s[j..])
  {
    var t := s[..j] + [x] + s[j..];
    forall i | 0 < i < |t|
      ensures Compare(cmp, t[i - 1], t[i]) <= 0
    {
      if i > j + 1 {
        assert t[i] == s[i - 1] && t[i - 1] == s[i - 2];
      } else if i == j + 1 {
        assert t[i - 1] == x && t[i] == s[j];
      } else if i == j {
        assert t[i] == x && t[i - 1] == s[j - 1];
      } else {
        assert t[i] == s[i] && t[i - 1] == s[i - 1];
      }
    }
    ChainSorted(cmp, t);
  }

  /** Inserting x after the elements not above it and before those above it. */
  lemma {:induction false} InsertStable<T(!new)>(cmp: (T, T) -> int, s: seq<T>, x: T, j: nat)
    requires TotalPreorder(cmp) && Sorted(cmp, s) && j <= |s|
    requires j > 0 ==> Compare(cmp, s[j - 1], x) <= 0
    requires forall k :: j <= k < |s| ==> Compare(cmp, s[k], x) > 0
    ensures IsStableSort(cmp, s + [x], s[..j] + [x] + s[j..])
  {
    var t := s[..j] + [x] + s[j..];
    InsertSorted(cmp, s, x, j);
    hide Same, Sorted;
    StableMove(cmp, s[j..], x);
    StableConcat(cmp, s[..j], s[..j], s[j..] + [x], [x] + s[j..]);
    assert s[..j] + (s[j..] + [x]) == s + [x];
    assert s[..j] + ([x] + s[j..]) == t;
  }

  // ---- Insertion sort ----

  lemma {:induction false} Inserted<T(!new)>(cmp: (T, T) -> int, b: seq<T>, c: seq<T>, base: nat, i: nat, j: nat, x: T)
    requires base + i < |b| && |c| == |b| && j <= i && b[base + i] == x
    requires TotalPreorder(cmp) && Sorted(cmp, b[base..base + i])
    requires j > 0 ==> Compare(cmp, c[base + j - 1], x) <= 0
    requires forall q :: base + j <= q < base + i ==> Compare(cmp, b[q], x) > 0
    requires forall q {:trigger c[q]} :: base <= q < base + j ==> c[q] == b[q]
    requires forall q :: base + j < q <= base + i ==> c[q] == b[q - 1]
    requires c[base + j] == x
    ensures IsStableSort(cmp, b[base..base + i + 1], c[base..base + i + 1])
  {
    hide TotalPreorder, Compare, Same, Sorted, Stable, IsStableSort;
    var s := b[base..base + i];
    assert s + [x] == b[base..base + i + 1];
    assert forall k :: j <= k < i ==> s[k] == b[base + k];
    InsertStable(cmp, s, x, j);
    assert c[base..base + i + 1] == s[..j] + [x] + s[j..];
  }

  /** The inner loop of sm_insertion_sort: element i moves down past the larger elements below it. */
  method InsertLast<T(!new)>(a: array<T>, base: nat, i: nat, cmp: (T, T) -> int)
    requires TotalPreorder(cmp)
    requires base + i < a.Length && Sorted(cmp, a[base..base + i])
    modifies a
    ensures IsStableSort(cmp, old(a[base..base + i + 1]), a[base..base + i + 1])
    ensures forall q {:trigger a[q]} :: 0 <= q < a.Length && !(base <= q <= base + i) ==> a[q] == old(a[q])
  {
    hide TotalPreorder, Compare, Same, Sorted, Stable, IsStableSort;
    var x := a[base + i];
    var j := i;
    while j > 0 && Compare(cmp, a[base + j - 1], x) > 0
      invariant 0 <= j <= i
      invariant forall q {:trigger a[q]} :: 0 <= q < a.Length && !(base + j <= q <= base + i) ==> a[q] == old(a[q])
      invariant forall q {:trigger a[q]} :: base + j < q <= base + i ==> a[q] == old(a[q - 1])
      invariant forall q {:trigger old(a[q])} :: base + j <= q < base + i ==> Compare(cmp, old(a[q]), x) > 0
    {
      a[base + j] := a[base + j - 1];
      j := j - 1;
    }
    a[base + j] := x;
    Inserted(cmp, old(a[..]), a[..], base, i, j, x);
  }

  lemma {:induction false} StableSortSorted<T(!new)>(cmp: (T, T) -> int, s: seq<T>, t: seq<T>)
    requires IsStableSort(cmp, s, t)
    ensures Sorted(cmp, t)
  {
  }

  lemma {:induction false} StartSorted<T(!new)>(cmp: (T, T) -> int, s: seq<T>, base: nat, sorted: nat, start: nat)
    requires sorted <= start && (start == sorted || start == 1) && base + start <= |s|
    requires Sorted(cmp, s[base..base + sorted])
    ensures IsStableSort(cmp, s[base..base + start], s[base..base + start])
  {
  }

  /** One more element sorted in: was is the original, s the state before the insertion, t the state after. */
  lemma {:induction false} InsertNext<T(!new)>(cmp: (T, T) -> int, was: seq<T>, s: seq<T>, t: seq<T>, base: nat, i: nat)
    requires base + i < |was| && |s| == |t| == |was| && s[base + i] == was[base + i]
    requires IsStableSort(cmp, was[base..base + i], s[base..base + i])
    requires IsStableSort(cmp, s[base..base + i + 1], t[base..base + i + 1])
    ensures IsStableSort(cmp, was[base..base + i + 1], t[base..base + i + 1])
  {
    var x := [was[base + i]];
    StableConcat(cmp, was[base..base + i], s[base..base + i], x, x);
    assert was[base..base + i + 1] == was[base..base + i] + x;
    assert s[base..base + i + 1] == s[base..base + i] + x;
    StableTransitive(cmp, was[base..base + i + 1], s[base..base + i + 1], t[base..base + i + 1]);
  }

  /** sm_insertion_sort: the first `sorted` elements at base are in order, the rest are inserted one by one. */
  method InsertionSort<T(!new)>(a: array<T>, base: nat, sorted: nat, n: nat, cmp: (T, T) -> int)
    requires TotalPreorder(cmp)
    requires sorted <= n && base + n <= a.Length
    requires Sorted(cmp, a[base..base + sorted])
    modifies a
    ensures IsStableSort(cmp, old(a[base..base + n]), a[base..base + n])
    ensures forall k {:trigger a[k]} :: 0 <= k < a.Length && !(base <= k < base + n) ==> a[k] == old(a[k])
  {
    var start := if sorted < 1 then 1 else sorted;
    if n <= start {
      return;
    }
    StartSorted(cmp, a[..], base, sorted, start);
    hide TotalPreorder, Compare, Same, Sorted, Stable, IsStableSort;
    var i := start;
    while i < n
      invariant start <= i <= n
      invariant forall q {:trigger a[q]} :: 0 <= q < a.Length && !(base <= q < base + i) ==> a[q] == old(a[q])
      invariant IsStableSort(cmp, old(a[base..base + i]), a[base..base + i])
    {
      StableSortSorted(cmp, old(a[base..base + i]), a[base..base + i]);
      ghost var s := a[..];
      InsertLast(a, base, i, cmp);
      InsertNext(cmp, old(a[..]), s, a[..], base, i);
      i := i + 1;
    }
  }

  // ---- Reversing a strictly descending run ----

  ghost function Reversed<T>(s: seq<T>): (r: seq<T>)
    ensures |r| == |s|
  {
    if |s| == 0 then [] else [s[|s| - 1]] + Reversed(s[..|s| - 1])
  }

  lemma {:induction false} ReversedAt<T>(s: seq<T>, k: nat)
    requires k < |s|
    ensures Reversed(s)[k] == s[|s| - 1 - k]
  {
    if k > 0 {
      ReversedAt(s[..|s| - 1], k - 1);
    }
  }

  lemma AboveAbove<T(!new)>(cmp: (T, T) -> int, x: T, y: T, z: T)
    requires TotalPreorder(cmp) && Compare(cmp, x, y) > 0 && Compare(cmp, y, z) > 0
    ensures Compare(cmp, x, z) > 0
  {
    assert Compare(cmp, x, z) <= 0 && Compare(cmp, z, y) <= 0 ==> Compare(cmp, x, y) <= 0;
  }

  lemma {:induction false} DescendsTo<T(!new)>(cmp: (T, T) -> int, s: seq<T>, i: nat, j: nat)
    requires TotalPreorder(cmp)
    requires forall k :: 0 < k < |s| ==> Compare(cmp, s[k - 1], s[k]) > 0
    requires i < j < |s|
    ensures Compare(cmp, s[i], s[j]) > 0
    decreases j
  {
    assert Compare(cmp, s[j - 1], s[j]) > 0;
    if i < j - 1 {
      DescendsTo(cmp, s, i, j - 1);
      AboveAbove(cmp, s[i], s[j - 1], s[j]);
    }
  }

  lemma {:induction false} ReversedKeeps<T(!new)>(cmp: (T, T) -> int, s: seq<T>)
    requires TotalPreorder(cmp)
    requires forall i :: 0 < i < |s| ==> Compare(cmp, s[i - 1], s[i]) > 0
    ensures Stable(cmp, s, Reversed(s))
  {
    if |s| > 0 {
      var n := |s| - 1;
      var r, x := s[..n], s[n];
      ReversedKeeps(cmp, r);
      forall i | 0 <= i < n
        ensures Compare(cmp, r[i], x) > 0
      {
        DescendsTo(cmp, s, i, n);
      }
      StableMove(cmp, r, x);
      StableConcat(cmp, [x], [x], r, Reversed(r));
      assert s == r + [x];
      StableTransitive(cmp, s, [x] + r, Reversed(s));
    }
  }

  /** Reversing a strictly descending run sorts it, and stably: it holds no two equal elements. */
  lemma {:induction false} ReversedStable<T(!new)>(cmp: (T, T) -> int, s: seq<T>)
    requires TotalPreorder(cmp)
    requires forall i :: 0 < i < |s| ==> Compare(cmp, s[i - 1], s[i]) > 0
    ensures IsStableSort(cmp, s, Reversed(s))
  {
    forall i | 0 < i < |s|
      ensures Compare(cmp, Reversed(s)[i - 1], Reversed(s)[i]) <= 0
    {
      ReversedAt(s, i - 1);
      ReversedAt(s, i);
      assert Compare(cmp, s[|s| - 1 - i], s[|s| - i]) > 0;
    }
    ChainSorted(cmp, Reversed(s));
    ReversedKeeps(cmp, s);
  }

  /** sm_reverse. */
  method Reverse<T>(a: array<T>, base: nat, n: nat)
    requires base + n <= a.Length
    modifies a
    ensures a[base..base + n] == Reversed(old(a[base..base + n]))
    ensures forall k {:trigger a[k]} :: 0 <= k < a.Length && !(base <= k < base + n) ==> a[k] == old(a[k])
  {
    ghost var was := a[base..base + n];
    if n <= 1 {
      return;
    }
    var lo, hi := 0, n - 1;
    while lo < hi
      invariant 0 <= lo <= n && lo + hi == n - 1
      invariant forall q {:trigger a[q]} :: 0 <= q < a.Length && !(base <= q < base + n) ==> a[q] == old(a[q])
      invariant forall q :: base <= q < base + lo ==> a[q] == was[n - 1 - (q - base)]
      invariant forall q :: base + hi < q < base + n ==> a[q] == was[n - 1 - (q - base)]
      invariant forall q :: base + lo <= q <= base + hi ==> a[q] == was[q - base]
    {
      a[base + lo], a[base + hi] := a[base + hi], a[base + lo];
      lo := lo + 1;
      hi := hi - 1;
    }
    forall k | 0 <= k < n
      ensures a[base..base + n][k] == Reversed(was)[k]
    {
      ReversedAt(was, k);
    }
  }

  // ---- Merging two adjacent runs ----

  /** The left-biased merge of two runs. */
  ghost function Merged<T>(cmp: (T, T) -> int, u: seq<T>, v: seq<T>): (r: seq<T>)
    ensures |r| == |u| + |v|
  {
    if |u| == 0 then v
    else if |v| == 0 then u
    else if Compare(cmp, u[0], v[0]) <= 0 then [u[0]] + Merged(cmp, u[1..], v)
    else [v[0]] + Merged(cmp, u, v[1..])
  }

  /** Every element of the merge is below whatever both runs are below. */
  lemma {:induction false} MergedAbove<T(!new)>(cmp: (T, T) -> int, u: seq<T>, v: seq<T>, x: T)
    requires forall i :: 0 <= i < |u| ==> Compare(cmp, x, u[i]) <= 0
    requires forall i :: 0 <= i < |v| ==> Compare(cmp, x, v[i]) <= 0
    ensures forall i :: 0 <= i < |Merged(cmp, u, v)| ==> Compare(cmp, x, Merged(cmp, u, v)[i]) <= 0
    decreases |u| + |v|
  {
    if |u| > 0 && |v| > 0 {
      if Compare(cmp, u[0], v[0]) <= 0 {
        MergedAbove(cmp, u[1..], v, x);
      } else {
        MergedAbove(cmp, u, v[1..], x);
      }
    }
  }

  lemma {:induction false} TakeLeft<T(!new)>(cmp: (T, T) -> int, u: seq<T>, v: seq<T>, m: seq<T>)
    requires |u| > 0 && Stable(cmp, u[1..] + v, m)
    ensures Stable(cmp, u + v, [u[0]] + m)
  {
    StableConcat(cmp, [u[0]], [u[0]], u[1..] + v, m);
    assert u + v == [u[0]] + (u[1..] + v);
  }

  lemma AboveThrough<T(!new)>(cmp: (T, T) -> int, x: T, y: T, z: T)
    requires TotalPreorder(cmp) && Compare(cmp, x, y) <= 0 && Compare(cmp, x, z) > 0
    ensures Compare(cmp, y, z) > 0
  {
    assert Compare(cmp, x, y) <= 0 && Compare(cmp, y, z) <= 0 ==> Compare(cmp, x, z) <= 0;
  }

  lemma {:induction false} GreaterStays<T(!new)>(cmp: (T, T) -> int, u: seq<T>, x: T, i: nat)
    requires TotalPreorder(cmp) && Sorted(cmp, u) && i < |u| && Compare(cmp, u[0], x) > 0
    ensures Compare(cmp, u[i], x) > 0
  {
    if i > 0 {
      AboveThrough(cmp, u[0], u[i], x);
    }
  }

  lemma {:induction false} TakeRight<T(!new)>(cmp: (T, T) -> int, u: seq<T>, v: seq<T>, m: seq<T>)
    requires TotalPreorder(cmp) && Sorted(cmp, u)
    requires |u| > 0 && |v| > 0 && Compare(cmp, u[0], v[0]) > 0
    requires Stable(cmp, u + v[1..], m)
    ensures Stable(cmp, u + v, [v[0]] + m)
  {
    var x := v[0];
    forall i | 0 <= i < |u|
      ensures Compare(cmp, u[i], x) > 0
    {
      GreaterStays(cmp, u, x, i);
    }
    assert Stable(cmp, v[1..], v[1..]) && Stable(cmp, [x], [x]);
    hide Same, Stable;
    StableMove(cmp, u, x);
    StableConcat(cmp, u + [x], [x] + u, v[1..], v[1..]);
    StableConcat(cmp, [x], [x], u + v[1..], m);
    assert u + v == u + [x] + v[1..];
    assert [x] + u + v[1..] == [x] + (u + v[1..]);
    StableTransitive(cmp, u + v, [x] + (u + v[1..]), [x] + m);
  }

  lemma {:induction false} SortedCons<T>(cmp: (T, T) -> int, x: T, s: seq<T>)
    requires Sorted(cmp, s)
    requires forall i :: 0 <= i < |s| ==> Compare(cmp, x, s[i]) <= 0
    ensures Sorted(cmp, [x] + s)
  {
    var t := [x] + s;
    forall i, j | 0 <= i < j < |t|
      ensures Compare(cmp, t[i], t[j]) <= 0
    {
      assert t[j] == s[j - 1];
    }
  }

  /** Merging two sorted runs is the stable sort of their concatenation. */
  lemma {:induction false} MergedStable<T(!new)>(cmp: (T, T) -> int, u: seq<T>, v: seq<T>)
    requires TotalPreorder(cmp) && Sorted(cmp, u) && Sorted(cmp, v)
    ensures IsStableSort(cmp, u + v, Merged(cmp, u, v))
    decreases |u| + |v|
  {
    if |u| == 0 {
      assert u + v == v;
    } else if |v| == 0 {
      assert u + v == u;
    } else if Compare(cmp, u[0], v[0]) <= 0 {
      MergedStable(cmp, u[1..], v);
      TakeLeft(cmp, u, v, Merged(cmp, u[1..], v));
      forall i | 0 <= i < |v|
        ensures Compare(cmp, u[0], v[i]) <= 0
      {
        assert i > 0 ==> Compare(cmp, v[0], v[i]) <= 0;
      }
      MergedAbove(cmp, u[1..], v, u[0]);
      SortedCons(cmp, u[0], Merged(cmp, u[1..], v));
    } else {
      MergedStable(cmp, u, v[1..]);
      TakeRight(cmp, u, v, Merged(cmp, u, v[1..]));
      forall i | 0 <= i < |u|
        ensures Compare(cmp, v[0], u[i]) <= 0
      {
        GreaterStays(cmp, u, v[0], i);
      }
      MergedAbove(cmp, u, v[1..], v[0]);
      SortedCons(cmp, v[0], Merged(cmp, u, v[1..]));
    }
  }

  /** What the loop of sm_merge still has to write: the merge of what is left of both runs. */
  ghost predicate MergedFrom<T>(cmp: (T, T) -> int, s: seq<T>, i: nat, mid: nat, j: nat, right: nat, m: seq<T>,
      k: nat) {
    && i <= mid <= j <= right <= |s| && k <= |m|
    && m[k..] == Merged(cmp, s[i..mid], s[j..right])
  }

  lemma {:induction false} MergedStart<T>(cmp: (T, T) -> int, s: seq<T>, left: nat, mid: nat, right: nat)
    requires left <= mid <= right <= |s|
    ensures MergedFrom(cmp, s, left, mid, mid, right, Merged(cmp, s[left..mid], s[mid..right]), 0)
  {
    var m := Merged(cmp, s[left..mid], s[mid..right]);
    assert m[0..] == m;
  }

  lemma {:induction false} MergedStep<T>(cmp: (T, T) -> int, s: seq<T>, i: nat, mid: nat, j: nat, right: nat,
      m: seq<T>, k: nat)
    requires MergedFrom(cmp, s, i, mid, j, right, m, k) && i < mid && j < right
    ensures k < |m|
    ensures Compare(cmp, s[i], s[j]) <= 0 ==> m[k] == s[i] && MergedFrom(cmp, s, i + 1, mid, j, right, m, k + 1)
    ensures Compare(cmp, s[i], s[j]) > 0 ==> m[k] == s[j] && MergedFrom(cmp, s, i, mid, j + 1, right, m, k + 1)
  {
    assert s[i..mid][1..] == s[i + 1..mid] && s[j..right][1..] == s[j + 1..right];
    assert m[k] == m[k..][0] && m[k + 1..] == m[k..][1..];
  }

  lemma {:induction false} MergedEnd<T>(cmp: (T, T) -> int, s: seq<T>, i: nat, mid: nat, j: nat, right: nat, m: seq<T>,
      k: nat)
    requires MergedFrom(cmp, s, i, mid, j, right, m, k) && (i == mid || j == right)
    ensures |m| == k + (mid - i) + (right - j)
    ensures i < mid ==> forall q {:trigger m[q]} :: k <= q < |m| ==> m[q] == s[i + (q - k)]
    ensures i == mid ==> forall q {:trigger m[q]} :: k <= q < |m| ==> m[q] == s[j + (q - k)]
  {
    assert forall q {:trigger m[q]} :: k <= q < |m| ==> m[q] == m[k..][q - k];
    assert i == mid ==> m[k..] == s[j..right];
    assert i < mid ==> m[k..] == s[i..mid];
  }

  /** The loop of sm_merge, up to the point where one run is used up; i left elements went out, k is the next slot. */
  method MergeBack<T>(a: array<T>, left: nat, mid: nat, right: nat, cmp: (T, T) -> int, tmp: array<T>, ghost m: seq<T>)
    returns (i: nat, k: nat)
    requires left <= mid <= right <= a.Length && tmp.Length >= mid - left && a != tmp
    requires forall q {:trigger tmp[q]} :: 0 <= q < mid - left ==> tmp[q] == a[left + q]
    requires m == Merged(cmp, a[left..mid], a[mid..right])
    modifies a
    ensures i <= mid - left && left <= k <= right && (i < mid - left ==> right - k == mid - left - i)
    ensures forall q {:trigger a[q]} :: 0 <= q < a.Length && !(left <= q < right) ==> a[q] == old(a[q])
    ensures forall q {:trigger a[q]} :: left <= q < k ==> a[q] == m[q - left]
    ensures i == mid - left ==> forall q {:trigger a[q]} :: k <= q < right ==> a[q] == m[q - left]
    ensures i < mid - left ==> forall q {:trigger m[q]} :: k - left <= q < |m| ==> m[q] == tmp[i + (q - (k - left))]
  {
    hide Merged, MergedFrom, Compare;
    var nLeft := mid - left;
    MergedStart(cmp, a[..], left, mid, right);
    var j := mid;
    i, k := 0, left;
    while i < nLeft && j < right
      invariant i <= nLeft && mid <= j <= right && k == i + j - nLeft
      invariant forall q {:trigger a[q]} :: 0 <= q < a.Length && !(left <= q < j) ==> a[q] == old(a[q])
      invariant forall q {:trigger a[q]} :: left <= q < k ==> a[q] == m[q - left]
      invariant MergedFrom(cmp, old(a[..]), left + i, mid, j, right, m, k - left)
    {
      MergedStep(cmp, old(a[..]), left + i, mid, j, right, m, k - left);
      if Compare(cmp, tmp[i], a[j]) <= 0 {
        a[k] := tmp[i];
        i := i + 1;
      } else {
        a[k] := a[j];
        j := j + 1;
      }
      k := k + 1;
    }
    MergedEnd(cmp, old(a[..]), left + i, mid, j, right, m, k - left);
  }

  lemma {:induction false} SliceIs<T>(s: seq<T>, lo: nat, hi: nat, m: seq<T>)
    requires lo <= hi <= |s| && |m| == hi - lo
    requires forall q {:trigger s[q]} :: lo <= q < hi ==> s[q] == m[q - lo]
    ensures s[lo..hi] == m
  {
  }

  /** sm_merge: the left run is copied out, then both are merged back over it in place. */
  method Merge<T>(a: array<T>, left: nat, mid: nat, right: nat, cmp: (T, T) -> int, tmp: array<T>)
    requires left <= mid <= right <= a.Length && tmp.Length >= mid - left && a != tmp
    modifies a, tmp
    ensures a[left..right] == Merged(cmp, old(a[left..mid]), old(a[mid..right]))
    ensures forall k {:trigger a[k]} :: 0 <= k < a.Length && !(left <= k < right) ==> a[k] == old(a[k])
  {
    hide Merged, Compare;
    var nLeft := mid - left;
    forall q | 0 <= q < nLeft {
      tmp[q] := a[left + q];
    }
    ghost var m := Merged(cmp, old(a[left..mid]), old(a[mid..right]));
    assert a[left..mid] == old(a[left..mid]) && a[mid..right] == old(a[mid..right]);
    var i, k := MergeBack(a, left, mid, right, cmp, tmp, m);
    if i < nLeft {
      forall q | k <= q < right {
        a[q] := tmp[i + (q - k)];
      }
    }
    SliceIs(a[..], left, right, m);
  }
}

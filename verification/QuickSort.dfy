/**
 * The Bentley-McIlroy quicksort of f-qsort.c: equal keys parked at both ends, recursion on one side, a loop on the
 * other.
 */
module QuickSort {
  import opened Ordering

  // ---- Rearranging a range ----

  /** t is s with the elements of [lo, hi) in another order. */
  ghost predicate Shuffled<T>(s: seq<T>, t: seq<T>, lo: nat, hi: nat) {
    && lo <= hi <= |s| && |t| == |s|
    && (forall k {:trigger t[k]} :: 0 <= k < |s| && !(lo <= k < hi) ==> t[k] == s[k])
    && multiset(s[lo..hi]) == multiset(t[lo..hi])
  }

  ghost function Swapped<T>(s: seq<T>, i: nat, j: nat): (t: seq<T>)
    requires i < |s| && j < |s|
    ensures |t| == |s| && t[i] == s[j] && t[j] == s[i]
    ensures forall k {:trigger t[k]} :: 0 <= k < |s| && k != i && k != j ==> t[k] == s[k]
  {
    s[i := s[j]][j := s[i]]
  }

  lemma {:induction false} SwapMultiset<T>(s: seq<T>, i: nat, j: nat)
    requires i < |s| && j < |s|
    ensures multiset(Swapped(s, i, j)) == multiset(s)
  {
  }

  lemma {:induction false} SwapSlice<T>(s: seq<T>, i: nat, j: nat, lo: nat, hi: nat)
    requires lo <= i < hi <= |s| && lo <= j < hi
    ensures Swapped(s, i, j)[lo..hi] == Swapped(s[lo..hi], i - lo, j - lo)
  {
  }

  lemma {:induction false} SwapShuffles<T>(s: seq<T>, i: nat, j: nat, lo: nat, hi: nat)
    requires lo <= i < hi <= |s| && lo <= j < hi
    ensures Shuffled(s, Swapped(s, i, j), lo, hi)
  {
    hide Swapped;
    SwapMultiset(s[lo..hi], i - lo, j - lo);
    SwapSlice(s, i, j, lo, hi);
  }

  lemma {:induction false} ShuffledRefl<T>(s: seq<T>, lo: nat, hi: nat)
    requires lo <= hi <= |s|
    ensures Shuffled(s, s, lo, hi)
  {
  }

  lemma {:induction false} ShuffledTrans<T>(s: seq<T>, t: seq<T>, u: seq<T>, lo: nat, hi: nat)
    requires Shuffled(s, t, lo, hi) && Shuffled(t, u, lo, hi)
    ensures Shuffled(s, u, lo, hi)
  {
  }

  lemma {:induction false} ShuffledWiden<T>(s: seq<T>, t: seq<T>, lo: nat, hi: nat, lo': nat, hi': nat)
    requires Shuffled(s, t, lo, hi) && lo' <= lo && hi <= hi' <= |s|
    ensures Shuffled(s, t, lo', hi')
  {
    assert s[lo'..lo] == t[lo'..lo] && s[hi..hi'] == t[hi..hi'];
    assert s[lo'..hi'] == s[lo'..lo] + s[lo..hi] + s[hi..hi'];
    assert t[lo'..hi'] == t[lo'..lo] + t[lo..hi] + t[hi..hi'];
  }

  /** Every element of the shuffled range comes from that range. */
  lemma {:induction false} ShuffledFrom<T>(s: seq<T>, t: seq<T>, lo: nat, hi: nat, j: nat) returns (k: nat)
    requires Shuffled(s, t, lo, hi) && lo <= j < hi
    ensures lo <= k < hi && t[j] == s[k]
  {
    assert t[j] == t[lo..hi][j - lo];
    assert t[j] in multiset(t[lo..hi]);
    assert t[j] in s[lo..hi];
    var r := s[lo..hi];
    var q :| 0 <= q < |r| && r[q] == t[j];
    k := lo + q;
  }

  method SwapAt<T>(a: array<T>, i: nat, j: nat)
    requires i < a.Length && j < a.Length
    modifies a
    ensures a[..] == Swapped(old(a[..]), i, j)
  {
    a[i], a[j] := a[j], a[i];
  }

  // ---- The insertion sort by neighbour swaps ----

  /** [base, end) is sorted but for the element at hole, which may be too small for its place. */
  ghost predicate SortedBut<T>(cmp: (T, T) -> int, s: seq<T>, base: nat, end: nat, hole: nat) {
    end <= |s| && forall i, j :: base <= i < j < end && j != hole ==> Compare(cmp, s[i], s[j]) <= 0
  }

  ghost predicate SortedRange<T>(cmp: (T, T) -> int, s: seq<T>, base: nat, end: nat) {
    end <= |s| && forall i, j :: base <= i < j < end ==> Compare(cmp, s[i], s[j]) <= 0
  }

  lemma {:induction false} SwapDown<T(!new)>(cmp: (T, T) -> int, s: seq<T>, base: nat, end: nat, hole: nat)
    requires TotalPreorder(cmp) && SortedBut(cmp, s, base, end, hole) && base < hole < end
    requires Compare(cmp, s[hole - 1], s[hole]) > 0
    ensures SortedBut(cmp, Swapped(s, hole - 1, hole), base, end, hole - 1)
  {
    var t := Swapped(s, hole - 1, hole);
    assert Compare(cmp, s[hole], s[hole - 1]) < 0;
    hide TotalPreorder, Compare, Swapped;
    forall i, j | base <= i < j < end && j != hole - 1
      ensures Compare(cmp, t[i], t[j]) <= 0
    {
      var i' := if i == hole then hole - 1 else if i == hole - 1 then hole else i;
      var j' := if j == hole then hole - 1 else j;
      assert t[i] == s[i'] && t[j] == s[j'];
    }
  }

  lemma {:induction false} HoleFits<T(!new)>(cmp: (T, T) -> int, s: seq<T>, base: nat, end: nat, hole: nat)
    requires TotalPreorder(cmp) && SortedBut(cmp, s, base, end, hole) && base <= hole < end
    requires hole > base ==> Compare(cmp, s[hole - 1], s[hole]) <= 0
    ensures SortedRange(cmp, s, base, end)
  {
    forall i | base <= i < hole
      ensures Compare(cmp, s[i], s[hole]) <= 0
    {
      if i < hole - 1 {
        assert Compare(cmp, s[i], s[hole - 1]) <= 0;
      }
    }
  }

  lemma {:induction false} OpenHole<T>(cmp: (T, T) -> int, s: seq<T>, base: nat, end: nat)
    requires SortedRange(cmp, s, base, end) && end < |s|
    ensures SortedBut(cmp, s, base, end + 1, end)
  {
  }

  lemma {:induction false} OneSorted<T>(cmp: (T, T) -> int, s: seq<T>, base: nat, end: nat)
    requires end <= |s| && end <= base + 1
    ensures SortedRange(cmp, s, base, end)
  {
  }

  /** The inner loop: the last element changes places with its left neighbour while that one is larger. */
  method SinkLast<T(!new)>(a: array<T>, base: nat, pm: nat, cmp: (T, T) -> int)
    requires TotalPreorder(cmp) && base < pm < a.Length && SortedRange(cmp, a[..], base, pm)
    modifies a
    ensures SortedRange(cmp, a[..], base, pm + 1)
    ensures Shuffled(old(a[..]), a[..], base, pm + 1)
  {
    hide TotalPreorder, Compare, SortedBut, SortedRange, Shuffled, Swapped;
    ShuffledRefl(a[..], base, pm + 1);
    OpenHole(cmp, a[..], base, pm);
    var pl := pm;
    while pl > base && Compare(cmp, a[pl - 1], a[pl]) > 0
      invariant base <= pl <= pm
      invariant SortedBut(cmp, a[..], base, pm + 1, pl)
      invariant Shuffled(old(a[..]), a[..], base, pm + 1)
    {
      ghost var s := a[..];
      SwapDown(cmp, s, base, pm + 1, pl);
      SwapShuffles(s, pl - 1, pl, base, pm + 1);
      SwapAt(a, pl - 1, pl);
      ShuffledTrans(old(a[..]), s, a[..], base, pm + 1);
      pl := pl - 1;
    }
    HoleFits(cmp, a[..], base, pm + 1, pl);
  }

  /** The insertion sort used for fewer than seven elements and when partitioning swapped nothing. */
  method InsertionSort<T(!new)>(a: array<T>, base: nat, n: nat, cmp: (T, T) -> int)
    requires TotalPreorder(cmp) && base + n <= a.Length
    modifies a
    ensures SortedRange(cmp, a[..], base, base + n)
    ensures Shuffled(old(a[..]), a[..], base, base + n)
  {
    hide TotalPreorder, Compare, SortedBut, SortedRange, Shuffled, Swapped;
    ShuffledRefl(a[..], base, base + n);
    if n == 0 {
      OneSorted(cmp, a[..], base, base);
      return;
    }
    OneSorted(cmp, a[..], base, base + 1);
    var pm := base + 1;
    while pm < base + n
      invariant base < pm <= base + n
      invariant SortedRange(cmp, a[..], base, pm)
      invariant Shuffled(old(a[..]), a[..], base, base + n)
    {
      ghost var s := a[..];
      SinkLast(a, base, pm, cmp);
      ShuffledWiden(s, a[..], base, pm + 1, base, base + n);
      ShuffledTrans(old(a[..]), s, a[..], base, base + n);
      pm := pm + 1;
    }
  }

  // ---- Choosing the pivot ----

  /** One of the three is neither above nor below both others. */
  ghost predicate Median<T>(cmp: (T, T) -> int, x: T, m: T, y: T) {
    || (Compare(cmp, x, m) <= 0 && Compare(cmp, m, y) <= 0)
    || (Compare(cmp, y, m) <= 0 && Compare(cmp, m, x) <= 0)
  }

  ghost predicate MedianOf<T>(cmp: (T, T) -> int, s: seq<T>, i: nat, j: nat, k: nat, m: nat)
    requires i < |s| && j < |s| && k < |s|
  {
    || (m == i && Median(cmp, s[j], s[m], s[k]))
    || (m == j && Median(cmp, s[i], s[m], s[k]))
    || (m == k && Median(cmp, s[i], s[m], s[j]))
  }

  lemma Opposite<T(!new)>(cmp: (T, T) -> int, x: T, y: T)
    requires TotalPreorder(cmp)
    ensures Compare(cmp, x, y) > 0 <==> Compare(cmp, y, x) < 0
    ensures Compare(cmp, x, y) < 0 <==> Compare(cmp, y, x) > 0
  {
  }

  /** med3: the place of the median of three elements. */
  method Med3<T(!new)>(a: array<T>, i: nat, j: nat, k: nat, cmp: (T, T) -> int) returns (m: nat)
    requires TotalPreorder(cmp) && i < a.Length && j < a.Length && k < a.Length
    ensures MedianOf(cmp, a[..], i, j, k, m)
  {
    Opposite(cmp, a[i], a[j]);
    Opposite(cmp, a[j], a[k]);
    Opposite(cmp, a[i], a[k]);
    hide TotalPreorder, Compare;
    m := if Compare(cmp, a[i], a[j]) < 0 then
           (if Compare(cmp, a[j], a[k]) < 0 then j else if Compare(cmp, a[i], a[k]) < 0 then k else i)
         else
           (if Compare(cmp, a[j], a[k]) > 0 then j else if Compare(cmp, a[i], a[k]) < 0 then i else k);
  }

  /** The place of the pivot: the middle, a median of three, or for more than 40 elements a median of three medians. */
  method ChoosePivot<T(!new)>(a: array<T>, base: nat, n: nat, cmp: (T, T) -> int) returns (pm: nat)
    requires TotalPreorder(cmp) && n >= 7 && base + n <= a.Length
    ensures base <= pm < base + n
    ensures n == 7 ==> pm == base + 3
    ensures 7 < n <= 40 ==> MedianOf(cmp, a[..], base, base + n / 2, base + (n - 1), pm)
  {
    hide TotalPreorder, Compare, Median;
    pm := base + n / 2;
    if n > 7 {
      var pl, pn := base, base + (n - 1);
      if n > 40 {
        var d := n / 8;
        pl := Med3(a, pl, pl + d, pl + 2 * d, cmp);
        pm := Med3(a, pm - d, pm, pm + d, cmp);
        pn := Med3(a, pn - 2 * d, pn - d, pn, cmp);
      }
      pm := Med3(a, pl, pm, pn, cmp);
    }
  }

  // ---- The partition ----

  /**
   * The five regions around the pivot p at base: equal in [base, pa), less in [pa, pb), unseen in [pb, pc],
   * greater in (pc, pd], equal in (pd, end).
   */
  ghost predicate Regions<T>(cmp: (T, T) -> int, s: seq<T>, p: T, base: nat, pa: nat, pb: nat, pc: int, pd: int,
      end: nat) {
    && base < pa <= pb <= pc + 1 && pc <= pd < end <= |s|
    && s[base] == p
    && (forall q {:trigger s[q]} :: base <= q < pa ==> Compare(cmp, s[q], p) == 0)
    && (forall q {:trigger s[q]} :: pa <= q < pb ==> Compare(cmp, s[q], p) < 0)
    && (forall q {:trigger s[q]} :: pc < q <= pd ==> Compare(cmp, s[q], p) > 0)
    && (forall q {:trigger s[q]} :: pd < q < end ==> Compare(cmp, s[q], p) == 0)
  }

  lemma {:induction false} RegionsStart<T(!new)>(cmp: (T, T) -> int, s: seq<T>, base: nat, end: nat)
    requires TotalPreorder(cmp) && base + 1 < end <= |s|
    ensures Regions(cmp, s, s[base], base, base + 1, base + 1, end - 1, end - 1, end)
  {
    assert Compare(cmp, s[base], s[base]) == 0;
  }

  lemma {:induction false} LessLeft<T>(cmp: (T, T) -> int, s: seq<T>, p: T, base: nat, pa: nat, pb: nat, pc: int,
      pd: int, end: nat)
    requires Regions(cmp, s, p, base, pa, pb, pc, pd, end) && pb <= pc && Compare(cmp, s[pb], p) < 0
    ensures Regions(cmp, s, p, base, pa, pb + 1, pc, pd, end)
  {
  }

  lemma {:induction false} EqualLeft<T>(cmp: (T, T) -> int, s: seq<T>, p: T, base: nat, pa: nat, pb: nat, pc: int,
      pd: int, end: nat)
    requires Regions(cmp, s, p, base, pa, pb, pc, pd, end) && pb <= pc && Compare(cmp, s[pb], p) == 0
    ensures Regions(cmp, Swapped(s, pa, pb), p, base, pa + 1, pb + 1, pc, pd, end)
  {
    hide Compare;
    assert pa < pb ==> Compare(cmp, s[pa], p) < 0;
  }

  lemma {:induction false} GreaterRight<T>(cmp: (T, T) -> int, s: seq<T>, p: T, base: nat, pa: nat, pb: nat, pc: int,
      pd: int, end: nat)
    requires Regions(cmp, s, p, base, pa, pb, pc, pd, end) && pb <= pc && Compare(cmp, s[pc], p) > 0
    ensures Regions(cmp, s, p, base, pa, pb, pc - 1, pd, end)
  {
  }

  lemma {:induction false} EqualRight<T>(cmp: (T, T) -> int, s: seq<T>, p: T, base: nat, pa: nat, pb: nat, pc: int,
      pd: int, end: nat)
    requires Regions(cmp, s, p, base, pa, pb, pc, pd, end) && pb <= pc && Compare(cmp, s[pc], p) == 0
    ensures Regions(cmp, Swapped(s, pc, pd), p, base, pa, pb, pc - 1, pd - 1, end)
  {
    hide Compare;
    assert pc < pd ==> Compare(cmp, s[pd], p) > 0;
  }

  lemma {:induction false} SwapMiddle<T>(cmp: (T, T) -> int, s: seq<T>, p: T, base: nat, pa: nat, pb: nat, pc: int,
      pd: int, end: nat)
    requires Regions(cmp, s, p, base, pa, pb, pc, pd, end) && pb <= pc
    requires Compare(cmp, s[pb], p) > 0 && Compare(cmp, s[pc], p) < 0
    ensures pb < pc
    ensures Regions(cmp, Swapped(s, pb, pc), p, base, pa, pb + 1, pc - 1, pd, end)
  {
    hide Compare;
  }

  lemma {:induction false} RegionBounds<T>(cmp: (T, T) -> int, s: seq<T>, p: T, base: nat, pa: nat, pb: nat, pc: int,
      pd: int, end: nat)
    requires Regions(cmp, s, p, base, pa, pb, pc, pd, end)
    ensures base < pa <= pb <= pc + 1 && pc <= pd < end <= |s| && s[base] == p
  {
  }

  /** The first inner scan: past elements not above the pivot, parking the equal ones at the left end. */
  method ScanLeft<T(!new)>(a: array<T>, base: nat, n: nat, cmp: (T, T) -> int, swapped0: bool,
      pa0: nat, pb0: nat, pc: int, pd: int, ghost p: T, ghost was: seq<T>)
    returns (swapped: bool, pa: nat, pb: nat)
    requires base + n <= a.Length && Regions(cmp, a[..], p, base, pa0, pb0, pc, pd, base + n)
    requires Shuffled(was, a[..], base, base + n) && (!swapped0 ==> a[..] == was)
    modifies a
    ensures base < pa <= pb <= pc + 1 && pc <= pd < base + n && pb0 <= pb
    ensures Regions(cmp, a[..], p, base, pa, pb, pc, pd, base + n)
    ensures Shuffled(was, a[..], base, base + n) && (!swapped ==> a[..] == was)
    ensures pb <= pc ==> Compare(cmp, a[pb], p) > 0
  {
    hide Compare, Regions, Shuffled, Swapped;
    RegionBounds(cmp, a[..], p, base, pa0, pb0, pc, pd, base + n);
    swapped, pa, pb := swapped0, pa0, pb0;
    while pb <= pc
      invariant base < pa <= pb <= pc + 1 && pb0 <= pb
      invariant Regions(cmp, a[..], p, base, pa, pb, pc, pd, base + n)
      invariant Shuffled(was, a[..], base, base + n) && (!swapped ==> a[..] == was)
      decreases pc - pb
    {
      ghost var s := a[..];
      RegionBounds(cmp, s, p, base, pa, pb, pc, pd, base + n);
      var c := Compare(cmp, a[pb], a[base]);
      if c > 0 {
        break;
      }
      if c == 0 {
        EqualLeft(cmp, s, p, base, pa, pb, pc, pd, base + n);
        SwapShuffles(s, pa, pb, base, base + n);
        swapped := true;
        SwapAt(a, pa, pb);
        ShuffledTrans(was, s, a[..], base, base + n);
        pa := pa + 1;
      } else {
        LessLeft(cmp, s, p, base, pa, pb, pc, pd, base + n);
      }
      pb := pb + 1;
    }
    RegionBounds(cmp, a[..], p, base, pa, pb, pc, pd, base + n);
  }

  /** The second inner scan: down past elements not below the pivot, parking the equal ones at the right end. */
  method ScanRight<T(!new)>(a: array<T>, base: nat, n: nat, cmp: (T, T) -> int, swapped0: bool,
      pa: nat, pb: nat, pc0: int, pd0: int, ghost p: T, ghost was: seq<T>)
    returns (swapped: bool, pc: int, pd: int)
    requires base + n <= a.Length && Regions(cmp, a[..], p, base, pa, pb, pc0, pd0, base + n)
    requires Shuffled(was, a[..], base, base + n) && (!swapped0 ==> a[..] == was)
    requires pb <= pc0 ==> Compare(cmp, a[pb], p) > 0
    modifies a
    ensures base < pa <= pb <= pc + 1 && pc <= pd < base + n && pc <= pc0
    ensures Regions(cmp, a[..], p, base, pa, pb, pc, pd, base + n)
    ensures Shuffled(was, a[..], base, base + n) && (!swapped ==> a[..] == was)
    ensures pb <= pc ==> Compare(cmp, a[pb], p) > 0 && Compare(cmp, a[pc], p) < 0
  {
    hide Compare, Regions, Shuffled, Swapped;
    RegionBounds(cmp, a[..], p, base, pa, pb, pc0, pd0, base + n);
    swapped, pc, pd := swapped0, pc0, pd0;
    while pb <= pc
      invariant pb <= pc + 1 && pc <= pd < base + n && pc <= pc0
      invariant Regions(cmp, a[..], p, base, pa, pb, pc, pd, base + n)
      invariant Shuffled(was, a[..], base, base + n) && (!swapped ==> a[..] == was)
      invariant pb <= pc ==> Compare(cmp, a[pb], p) > 0
      decreases pc - pb
    {
      ghost var s := a[..];
      RegionBounds(cmp, s, p, base, pa, pb, pc, pd, base + n);
      var c := Compare(cmp, a[pc], a[base]);
      if c < 0 {
        break;
      }
      if c == 0 {
        EqualRight(cmp, s, p, base, pa, pb, pc, pd, base + n);
        SwapShuffles(s, pc, pd, base, base + n);
        swapped := true;
        SwapAt(a, pc, pd);
        ShuffledTrans(was, s, a[..], base, base + n);
        pd := pd - 1;
      } else {
        GreaterRight(cmp, s, p, base, pa, pb, pc, pd, base + n);
      }
      pc := pc - 1;
    }
    RegionBounds(cmp, a[..], p, base, pa, pb, pc, pd, base + n);
  }

  /** The partition loop: both scans, each parking keys equal to the pivot at its end, until the two meet. */
  method Partition<T(!new)>(a: array<T>, base: nat, n: nat, cmp: (T, T) -> int)
    returns (swapped: bool, pa: nat, pb: nat, pc: int, pd: int)
    requires TotalPreorder(cmp) && n >= 2 && base + n <= a.Length
    modifies a
    ensures pb == pc + 1 && Regions(cmp, a[..], old(a[base]), base, pa, pb, pc, pd, base + n)
    ensures Shuffled(old(a[..]), a[..], base, base + n)
    ensures !swapped ==> a[..] == old(a[..])
  {
    hide Compare, Regions, Shuffled, Swapped, TotalPreorder;
    ghost var p := a[base];
    RegionsStart(cmp, a[..], base, base + n);
    ShuffledRefl(a[..], base, base + n);
    swapped, pa, pb, pc, pd := false, base + 1, base + 1, base + n - 1, base + n - 1;
    while true
      invariant base < pa <= pb <= pc + 1 && pc <= pd < base + n
      invariant Regions(cmp, a[..], p, base, pa, pb, pc, pd, base + n)
      invariant Shuffled(old(a[..]), a[..], base, base + n)
      invariant !swapped ==> a[..] == old(a[..])
      decreases pc - pb
    {
      swapped, pa, pb := ScanLeft(a, base, n, cmp, swapped, pa, pb, pc, pd, p, old(a[..]));
      swapped, pc, pd := ScanRight(a, base, n, cmp, swapped, pa, pb, pc, pd, p, old(a[..]));
      if pb > pc {
        break;
      }
      ghost var s := a[..];
      SwapMiddle(cmp, s, p, base, pa, pb, pc, pd, base + n);
      SwapShuffles(s, pb, pc, base, base + n);
      SwapAt(a, pb, pc);
      ShuffledTrans(old(a[..]), s, a[..], base, base + n);
      swapped := true;
      pb := pb + 1;
      pc := pc - 1;
    }
  }

  // ---- Bringing the parked keys to the middle ----

  /** t is s with the r elements at x and the r elements at y exchanged. */
  ghost predicate Exchanged<T>(s: seq<T>, t: seq<T>, x: nat, y: nat, r: nat) {
    && x + r <= y && y + r <= |s| && |t| == |s|
    && (forall k {:trigger t[k]} :: x <= k < x + r ==> t[k] == s[y + (k - x)])
    && (forall k {:trigger t[k]} :: y <= k < y + r ==> t[k] == s[x + (k - y)])
    && (forall k {:trigger t[k]} :: 0 <= k < |s| && !(x <= k < x + r) && !(y <= k < y + r) ==> t[k] == s[k])
  }

  lemma {:induction false} ExchangedNone<T>(s: seq<T>, x: nat, y: nat)
    requires x <= y <= |s|
    ensures Exchanged(s, s, x, y, 0)
  {
  }

  lemma {:induction false} ExchangedNext<T>(s: seq<T>, t: seq<T>, x: nat, y: nat, i: nat)
    requires Exchanged(s, t, x, y, i) && x + i < y && y + i < |s|
    ensures Exchanged(s, Swapped(t, x + i, y + i), x, y, i + 1)
  {
  }

  /** vecswap: the r elements at x and the r elements at y change places. */
  method VecSwap<T>(a: array<T>, x: nat, y: nat, r: nat, ghost base: nat, ghost end: nat)
    requires base <= x && x + r <= y && y + r <= end <= a.Length
    modifies a
    ensures Exchanged(old(a[..]), a[..], x, y, r)
    ensures Shuffled(old(a[..]), a[..], base, end)
  {
    hide Exchanged, Shuffled, Swapped;
    ExchangedNone(a[..], x, y);
    ShuffledRefl(a[..], base, end);
    var i := 0;
    while i < r
      invariant 0 <= i <= r
      invariant Exchanged(old(a[..]), a[..], x, y, i)
      invariant Shuffled(old(a[..]), a[..], base, end)
    {
      ghost var s := a[..];
      ExchangedNext(old(a[..]), s, x, y, i);
      SwapShuffles(s, x + i, y + i, base, end);
      SwapAt(a, x + i, y + i);
      ShuffledTrans(old(a[..]), s, a[..], base, end);
      i := i + 1;
    }
  }

  function Min(x: int, y: int): (r: int)
    ensures r <= x && r <= y && (r == x || r == y)
  {
    if x < y then x else y
  }

  /** Less than, equal to and greater than p, in this order. */
  ghost predicate Parted<T>(cmp: (T, T) -> int, s: seq<T>, p: T, base: nat, mid1: nat, mid2: nat, end: nat) {
    && base <= mid1 < mid2 <= end <= |s|
    && (forall q {:trigger s[q]} :: base <= q < mid1 ==> Compare(cmp, s[q], p) < 0)
    && (forall q {:trigger s[q]} :: mid1 <= q < mid2 ==> Compare(cmp, s[q], p) == 0)
    && (forall q {:trigger s[q]} :: mid2 <= q < end ==> Compare(cmp, s[q], p) > 0)
  }

  ghost predicate HalfParted<T>(cmp: (T, T) -> int, s: seq<T>, p: T, base: nat, mid1: nat, pb: nat, pd: int, end: nat) {
    && base <= mid1 < pb <= pd + 1 && pd < end <= |s|
    && (forall q {:trigger s[q]} :: base <= q < mid1 ==> Compare(cmp, s[q], p) < 0)
    && (forall q {:trigger s[q]} :: mid1 <= q < pb ==> Compare(cmp, s[q], p) == 0)
    && (forall q {:trigger s[q]} :: pb <= q <= pd ==> Compare(cmp, s[q], p) > 0)
    && (forall q {:trigger s[q]} :: pd < q < end ==> Compare(cmp, s[q], p) == 0)
  }

  lemma {:induction false} GatherLeft<T>(cmp: (T, T) -> int, s: seq<T>, t: seq<T>, p: T, base: nat, pa: nat, pb: nat,
      pc: int, pd: int, end: nat, r: nat)
    requires pb == pc + 1 && Regions(cmp, s, p, base, pa, pb, pc, pd, end)
    requires r <= pb - base && Exchanged(s, t, base, pb - r, r)
    requires r == Min(pa - base, pb - pa)
    ensures HalfParted(cmp, t, p, base, base + (pb - pa), pb, pd, end)
  {
    hide Compare;
  }

  lemma {:induction false} GatherRight<T>(cmp: (T, T) -> int, s: seq<T>, t: seq<T>, p: T, base: nat, mid1: nat,
      pb: nat, pc: int, pd: int, end: nat, r: nat)
    requires pb == pc + 1 && HalfParted(cmp, s, p, base, mid1, pb, pd, end)
    requires r <= end - pb && Exchanged(s, t, pb, end - r, r)
    requires r == Min(pd - pc, end - pd - 1)
    ensures Parted(cmp, t, p, base, mid1, end - (pd - pc), end)
  {
    hide Compare;
  }

  method GatherLess<T(!new)>(a: array<T>, base: nat, cmp: (T, T) -> int, pa: nat, pb: nat, pc: int, pd: int, pn: nat,
      ghost p: T)
    requires pn <= a.Length && pb == pc + 1 && Regions(cmp, a[..], p, base, pa, pb, pc, pd, pn)
    modifies a
    ensures pa <= pb && HalfParted(cmp, a[..], p, base, base + (pb - pa), pb, pd, pn)
    ensures Shuffled(old(a[..]), a[..], base, pn)
  {
    RegionBounds(cmp, a[..], p, base, pa, pb, pc, pd, pn);
    hide Compare, Regions, Shuffled, Exchanged, HalfParted, Min;
    var r := Min(pa - base, pb - pa);
    VecSwap(a, base, pb - r, r, base, pn);
    GatherLeft(cmp, old(a[..]), a[..], p, base, pa, pb, pc, pd, pn, r);
  }

  method GatherGreater<T(!new)>(a: array<T>, base: nat, cmp: (T, T) -> int, mid1: nat, pb: nat, pc: int, pd: int,
      pn: nat, ghost p: T)
    requires pn <= a.Length && pb == pc + 1 && HalfParted(cmp, a[..], p, base, mid1, pb, pd, pn)
    modifies a
    ensures pc <= pd < pn && base <= mid1 && Parted(cmp, a[..], p, base, mid1, pn - (pd - pc), pn)
    ensures Shuffled(old(a[..]), a[..], base, pn)
  {
    assert base <= mid1 < pb <= pd + 1 && pd < pn;
    hide Compare, Shuffled, Exchanged, HalfParted, Parted, Min;
    var r := Min(pd - pc, pn - pd - 1);
    VecSwap(a, pb, pn - r, r, base, pn);
    GatherRight(cmp, old(a[..]), a[..], p, base, mid1, pb, pc, pd, pn, r);
  }

  /** The two block swaps after the partition. */
  method Gather<T(!new)>(a: array<T>, base: nat, n: nat, cmp: (T, T) -> int, pa: nat, pb: nat, pc: int, pd: int,
      ghost p: T)
    requires base + n <= a.Length
    requires pb == pc + 1 && Regions(cmp, a[..], p, base, pa, pb, pc, pd, base + n)
    modifies a
    ensures Parted(cmp, a[..], p, base, base + (pb - pa), base + n - (pd - pc), base + n)
    ensures Shuffled(old(a[..]), a[..], base, base + n)
  {
    hide Compare, Regions, Shuffled, HalfParted, Parted;
    GatherLess(a, base, cmp, pa, pb, pc, pd, base + n, p);
    ghost var s := a[..];
    GatherGreater(a, base, cmp, base + (pb - pa), pb, pc, pd, base + n, p);
    ShuffledTrans(old(a[..]), s, a[..], base, base + n);
  }

  // ---- The recursion ----

  /** Every element of [base, done) is in its final place as far as the elements up to end go. */
  ghost predicate Done<T>(cmp: (T, T) -> int, s: seq<T>, base: nat, done: nat, end: nat) {
    end <= |s| && forall i, j :: base <= i < done && i < j < end ==> Compare(cmp, s[i], s[j]) <= 0
  }

  lemma {:induction false} DoneShuffled<T>(cmp: (T, T) -> int, s: seq<T>, t: seq<T>, base: nat, done: nat, end: nat)
    requires Done(cmp, s, base, done, end) && Shuffled(s, t, done, end)
    ensures Done(cmp, t, base, done, end)
  {
    forall i, j | base <= i < done && i < j < end
      ensures Compare(cmp, t[i], t[j]) <= 0
    {
      if j >= done {
        var k := ShuffledFrom(s, t, done, end, j);
        assert Compare(cmp, s[i], s[k]) <= 0;
      } else {
        assert Compare(cmp, s[i], s[j]) <= 0;
      }
    }
  }

  lemma {:induction false} PartedShuffled<T>(cmp: (T, T) -> int, s: seq<T>, t: seq<T>, p: T, base: nat, mid1: nat,
      mid2: nat, end: nat)
    requires Parted(cmp, s, p, base, mid1, mid2, end) && Shuffled(s, t, base, mid1)
    ensures Parted(cmp, t, p, base, mid1, mid2, end)
  {
    hide Compare;
    forall q | base <= q < mid1
      ensures Compare(cmp, t[q], p) < 0
    {
      var k := ShuffledFrom(s, t, base, mid1, q);
    }
  }

  lemma SameSide<T(!new)>(cmp: (T, T) -> int, x: T, y: T, p: T)
    requires TotalPreorder(cmp) && Compare(cmp, y, p) == 0
    ensures Compare(cmp, x, y) < 0 <==> Compare(cmp, x, p) < 0
    ensures Compare(cmp, x, y) == 0 <==> Compare(cmp, x, p) == 0
  {
    Opposite(cmp, y, p);
    Opposite(cmp, x, y);
    Opposite(cmp, x, p);
    assert Compare(cmp, x, y) <= 0 ==> Compare(cmp, x, p) <= 0;
    assert Compare(cmp, x, p) <= 0 ==> Compare(cmp, x, y) <= 0;
    assert Compare(cmp, y, x) <= 0 ==> Compare(cmp, p, x) <= 0;
    assert Compare(cmp, p, x) <= 0 ==> Compare(cmp, y, x) <= 0;
  }

  /** Any element of the equal part would do as the pivot. */
  lemma {:induction false} PivotAny<T(!new)>(cmp: (T, T) -> int, s: seq<T>, p: T, base: nat, mid1: nat, mid2: nat,
      end: nat)
    requires TotalPreorder(cmp) && Parted(cmp, s, p, base, mid1, mid2, end)
    ensures Parted(cmp, s, s[mid1], base, mid1, mid2, end)
  {
    forall q | base <= q < end
      ensures Compare(cmp, s[q], s[mid1]) < 0 <==> Compare(cmp, s[q], p) < 0
      ensures Compare(cmp, s[q], s[mid1]) == 0 <==> Compare(cmp, s[q], p) == 0
    {
      SameSide(cmp, s[q], s[mid1], p);
    }
  }

  lemma {:induction false} NotBelow<T(!new)>(cmp: (T, T) -> int, s: seq<T>, p: T, base: nat, mid1: nat, mid2: nat,
      end: nat, j: nat)
    requires TotalPreorder(cmp) && Parted(cmp, s, p, base, mid1, mid2, end) && mid1 <= j < end
    ensures Compare(cmp, p, s[j]) <= 0
  {
    assert Compare(cmp, s[j], p) >= 0;
    Opposite(cmp, p, s[j]);
  }

  /** A sorted less part followed by the equal part is final. */
  lemma {:induction false} DoneParted<T(!new)>(cmp: (T, T) -> int, s: seq<T>, p: T, base: nat, b: nat, mid1: nat,
      mid2: nat, end: nat)
    requires TotalPreorder(cmp) && base <= b && Done(cmp, s, base, b, end)
    requires Parted(cmp, s, p, b, mid1, mid2, end) && SortedRange(cmp, s, b, mid1)
    ensures Done(cmp, s, base, mid2, end)
  {
    forall i, j | base <= i < mid2 && i < j < end
      ensures Compare(cmp, s[i], s[j]) <= 0
    {
      if i >= b && j >= mid1 {
        assert Compare(cmp, s[i], p) <= 0;
        NotBelow(cmp, s, p, b, mid1, mid2, end, j);
      }
    }
  }

  lemma {:induction false} DoneSorted<T>(cmp: (T, T) -> int, s: seq<T>, base: nat, done: nat, end: nat)
    requires Done(cmp, s, base, done, end) && (end <= done + 1 || SortedRange(cmp, s, done, end))
    ensures SortedRange(cmp, s, base, end)
  {
  }

  lemma {:induction false} NothingDone<T>(cmp: (T, T) -> int, s: seq<T>, base: nat, end: nat)
    requires base <= end <= |s|
    ensures Done(cmp, s, base, base, end)
  {
  }

  lemma {:induction false} PartedBounds<T>(cmp: (T, T) -> int, s: seq<T>, p: T, base: nat, mid1: nat, mid2: nat,
      end: nat)
    requires Parted(cmp, s, p, base, mid1, mid2, end)
    ensures base <= mid1 < mid2 <= end <= |s|
  {
  }

  /** The same from the point where the pivot stands first. */
  method PartOrSort<T(!new)>(a: array<T>, base: nat, n: nat, cmp: (T, T) -> int)
    returns (parted: bool, left: nat, right: nat)
    requires TotalPreorder(cmp) && n >= 7 && base + n <= a.Length
    modifies a
    ensures Shuffled(old(a[..]), a[..], base, base + n)
    ensures !parted ==> SortedRange(cmp, a[..], base, base + n)
    ensures parted ==> left + right < n
    ensures parted ==> Parted(cmp, a[..], a[base + left], base, base + left, base + n - right, base + n)
  {
    hide TotalPreorder, Compare, SortedRange, Shuffled, Swapped, Parted, Regions;
    ghost var p := a[base];
    var swapped, pa, pb, pc, pd := Partition(a, base, n, cmp);
    ghost var s := a[..];
    if swapped {
      RegionBounds(cmp, s, p, base, pa, pb, pc, pd, base + n);
      Gather(a, base, n, cmp, pa, pb, pc, pd, p);
      parted, left, right := true, pb - pa, pd - pc;
      PartedBounds(cmp, a[..], p, base, base + left, base + n - right, base + n);
      PivotAny(cmp, a[..], p, base, base + left, base + n - right, base + n);
    } else {
      InsertionSort(a, base, n, cmp);
      parted, left, right := false, 0, 0;
    }
    ShuffledTrans(old(a[..]), s, a[..], base, base + n);
  }

  /**
   * One turn of the loop up to the recursive call: insertion sort, and done, for short ranges and when
   * nothing was swapped; otherwise the range parted around a pivot.
   */
  method QSortStep<T(!new)>(a: array<T>, base: nat, n: nat, cmp: (T, T) -> int)
    returns (parted: bool, left: nat, right: nat)
    requires TotalPreorder(cmp) && base + n <= a.Length
    modifies a
    ensures Shuffled(old(a[..]), a[..], base, base + n)
    ensures !parted ==> SortedRange(cmp, a[..], base, base + n)
    ensures parted ==> left + right < n
    ensures parted ==> Parted(cmp, a[..], a[base + left], base, base + left, base + n - right, base + n)
  {
    hide TotalPreorder, Compare, SortedRange, Shuffled, Swapped, Parted, Regions;
    parted, left, right := false, 0, 0;
    if n < 7 {
      InsertionSort(a, base, n, cmp);
      return;
    }
    var pm := ChoosePivot(a, base, n, cmp);
    SwapShuffles(a[..], base, pm, base, base + n);
    SwapAt(a, base, pm);
    ghost var s := a[..];
    parted, left, right := PartOrSort(a, base, n, cmp);
    ShuffledTrans(old(a[..]), s, a[..], base, base + n);
  }

  /**
   * qsort on the n elements at base: sorted, and a rearrangement. The less part is sorted by recursion,
   * the greater part by going round the loop; both leave out the pivot.
   */
  method QSort<T(!new)>(a: array<T>, base: nat, n: nat, cmp: (T, T) -> int)
    requires TotalPreorder(cmp) && base + n <= a.Length
    modifies a
    ensures SortedRange(cmp, a[..], base, base + n)
    ensures Shuffled(old(a[..]), a[..], base, base + n)
    decreases n, 1
  {
    hide TotalPreorder, Compare, SortedRange, Shuffled, Parted, Regions, Done;
    var b, end := base, base + n;
    ShuffledRefl(a[..], base, end);
    NothingDone(cmp, a[..], base, end);
    var more := true;
    while more
      invariant base <= b <= end
      invariant Done(cmp, a[..], base, b, end)
      invariant Shuffled(old(a[..]), a[..], base, end)
      invariant !more ==> SortedRange(cmp, a[..], base, end)
      decreases end - b, more
    {
      ghost var s := a[..];
      var left, right;
      more, left, right := QSortStep(a, b, end - b, cmp);
      ShuffledWiden(s, a[..], b, end, base, end);
      ShuffledTrans(old(a[..]), s, a[..], base, end);
      DoneShuffled(cmp, s, a[..], base, b, end);
      if !more {
        DoneSorted(cmp, a[..], base, b, end);
      } else {
        ghost var s1 := a[..];
        QSortLess(a, base, b, left, end - right, end, cmp);
        ShuffledTrans(old(a[..]), s1, a[..], base, end);
        b := end - right;
        if right <= 1 {
          DoneSorted(cmp, a[..], base, b, end);
          more := false;
        }
      }
    }
  }

  /** The recursive call on the less part, after which everything before the greater part is final. */
  method QSortLess<T(!new)>(a: array<T>, ghost base: nat, b: nat, left: nat, ghost mid2: nat, ghost end: nat, cmp: (T,
      T) -> int)
    requires TotalPreorder(cmp) && base <= b && b + left < mid2 <= end <= a.Length
    requires Done(cmp, a[..], base, b, end)
    requires Parted(cmp, a[..], a[b + left], b, b + left, mid2, end)
    modifies a
    ensures Done(cmp, a[..], base, mid2, end)
    ensures Shuffled(old(a[..]), a[..], base, end)
    decreases left, 2
  {
    hide TotalPreorder, Compare, SortedRange, Shuffled, Parted, Done;
    ghost var p, mid1 := a[b + left], b + left;
    if left > 1 {
      QSort(a, b, left, cmp);
    } else {
      OneSorted(cmp, a[..], b, mid1);
      ShuffledRefl(a[..], b, mid1);
    }
    PartedShuffled(cmp, old(a[..]), a[..], p, b, mid1, mid2, end);
    ShuffledWiden(old(a[..]), a[..], b, mid1, b, end);
    DoneShuffled(cmp, old(a[..]), a[..], base, b, end);
    DoneParted(cmp, a[..], p, base, b, mid1, mid2, end);
    ShuffledWiden(old(a[..]), a[..], b, end, base, end);
  }

  /** The whole array: sorted, and a permutation of what it was, for every length and total preorder. */
  method Sort<T(!new)>(a: array<T>, cmp: (T, T) -> int)
    requires TotalPreorder(cmp)
    modifies a
    ensures Sorted(cmp, a[..])
    ensures multiset(a[..]) == multiset(old(a[..]))
  {
    QSort(a, 0, a.Length, cmp);
    assert a[0..a.Length] == a[..] && old(a[..])[0..a.Length] == old(a[..]);
  }
}

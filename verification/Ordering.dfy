/** Comparators, sortedness, and the one stable sort of a sequence (shared by both sorts). */
module Ordering {
  /** One call of the comparator; named so that its value is visibly independent of the heap. */
  function Compare<T>(cmp: (T, T) -> int, x: T, y: T): int {
    cmp(x, y)
  }

  /** The comparator of the sorts is any total preorder: negative, zero or positive like C's `cmp_t`. */
  ghost predicate TotalPreorder<T(!new)>(cmp: (T, T) -> int) {
    && (forall x, y :: Compare(cmp, x, y) > 0 <==> Compare(cmp, y, x) < 0)
    && (forall x, y, z :: Compare(cmp, x, y) <= 0 && Compare(cmp, y, z) <= 0 ==> Compare(cmp, x, z) <= 0)
  }

  ghost predicate Sorted<T>(cmp: (T, T) -> int, s: seq<T>) {
    forall i, j :: 0 <= i < j < |s| ==> Compare(cmp, s[i], s[j]) <= 0
  }

  /** The elements of s that compare equal to x, in the order of s. */
  ghost function Same<T>(cmp: (T, T) -> int, x: T, s: seq<T>): seq<T> {
    if |s| == 0 then []
    else Same(cmp, x, s[..|s| - 1]) + if Compare(cmp, x, s[|s| - 1]) == 0 then [s[|s| - 1]] else []
  }

  /** Both sequences keep equal elements in the same order. */
  ghost predicate Stable<T(!new)>(cmp: (T, T) -> int, s: seq<T>, t: seq<T>) {
    forall x :: Same(cmp, x, s) == Same(cmp, x, t)
  }

  /** t is the stable sort of s. */
  ghost predicate IsStableSort<T(!new)>(cmp: (T, T) -> int, s: seq<T>, t: seq<T>) {
    Sorted(cmp, t) && Stable(cmp, s, t)
  }

  lemma {:induction false} SameConcat<T>(cmp: (T, T) -> int, x: T, s: seq<T>, t: seq<T>)
    ensures Same(cmp, x, s + t) == Same(cmp, x, s) + Same(cmp, x, t)
  {
    if |t| == 0 {
      assert s + t == s;
    } else {
      SameConcat(cmp, x, s, t[..|t| - 1]);
      assert (s + t)[..|s + t| - 1] == s + t[..|t| - 1];
    }
  }

  lemma {:induction false} SameEmpty<T>(cmp: (T, T) -> int, x: T, s: seq<T>)
    requires forall i :: 0 <= i < |s| ==> Compare(cmp, x, s[i]) != 0
    ensures Same(cmp, x, s) == []
  {
    if |s| > 0 {
      SameEmpty(cmp, x, s[..|s| - 1]);
    }
  }

  lemma {:induction false} StableConcat<T(!new)>(cmp: (T, T) -> int, s: seq<T>, s': seq<T>, t: seq<T>, t': seq<T>)
    requires Stable(cmp, s, s') && Stable(cmp, t, t')
    ensures Stable(cmp, s + t, s' + t')
  {
    forall x
      ensures Same(cmp, x, s + t) == Same(cmp, x, s' + t')
    {
      SameConcat(cmp, x, s, t);
      SameConcat(cmp, x, s', t');
    }
  }

  lemma {:induction false} StableTransitive<T(!new)>(cmp: (T, T) -> int, s: seq<T>, t: seq<T>, u: seq<T>)
    requires Stable(cmp, s, t) && Stable(cmp, t, u)
    ensures Stable(cmp, s, u)
  {
    forall x
      ensures Same(cmp, x, s) == Same(cmp, x, u)
    {
      assert Same(cmp, x, s) == Same(cmp, x, t);
    }
  }

  lemma EqualNotGreater<T(!new)>(cmp: (T, T) -> int, y: T, x: T, z: T)
    requires TotalPreorder(cmp) && Compare(cmp, y, x) == 0 && Compare(cmp, z, x) > 0
    ensures Compare(cmp, y, z) != 0
  {
    assert Compare(cmp, z, y) <= 0 && Compare(cmp, y, x) <= 0 ==> Compare(cmp, z, x) <= 0;
    assert Compare(cmp, y, z) == 0 ==> Compare(cmp, z, y) <= 0;
  }

  /** Moving an element past larger ones changes no group of equal elements. */
  lemma {:induction false} StableMove<T(!new)>(cmp: (T, T) -> int, s: seq<T>, x: T)
    requires TotalPreorder(cmp)
    requires forall i :: 0 <= i < |s| ==> Compare(cmp, s[i], x) > 0
    ensures Stable(cmp, s + [x], [x] + s)
  {
    forall y
      ensures Same(cmp, y, s + [x]) == Same(cmp, y, [x] + s)
    {
      SameConcat(cmp, y, s, [x]);
      SameConcat(cmp, y, [x], s);
      if Compare(cmp, y, x) == 0 {
        forall i | 0 <= i < |s|
          ensures Compare(cmp, y, s[i]) != 0
        {
          EqualNotGreater(cmp, y, x, s[i]);
        }
        SameEmpty(cmp, y, s);
      } else {
        assert Same(cmp, y, [x]) == [] by {
          SameEmpty(cmp, y, [x]);
        }
      }
    }
  }

  // ---- The stable sort is unique, and a permutation ----

  lemma {:induction false} SameCount<T>(cmp: (T, T) -> int, x: T, s: seq<T>)
    requires Compare(cmp, x, x) == 0
    ensures multiset(s)[x] == multiset(Same(cmp, x, s))[x]
  {
    if |s| > 0 {
      SameCount(cmp, x, s[..|s| - 1]);
      assert s == s[..|s| - 1] + [s[|s| - 1]];
    }
  }

  /** Keeping every group of equal elements is being a permutation. */
  lemma {:induction false} StableIsPermutation<T(!new)>(cmp: (T, T) -> int, s: seq<T>, t: seq<T>)
    requires TotalPreorder(cmp) && Stable(cmp, s, t)
    ensures multiset(s) == multiset(t)
  {
    forall x: T
      ensures multiset(s)[x] == multiset(t)[x]
    {
      assert Compare(cmp, x, x) == 0;
      SameCount(cmp, x, s);
      SameCount(cmp, x, t);
      assert Same(cmp, x, s) == Same(cmp, x, t);
    }
  }

  lemma {:induction false} SameMember<T>(cmp: (T, T) -> int, x: T, s: seq<T>, i: nat)
    requires i < |s| && Compare(cmp, x, s[i]) == 0
    ensures |Same(cmp, x, s)| > 0
  {
    if i < |s| - 1 {
      SameMember(cmp, x, s[..|s| - 1], i);
    }
  }

  lemma {:induction false} SameWitness<T>(cmp: (T, T) -> int, x: T, s: seq<T>) returns (i: nat)
    requires |Same(cmp, x, s)| > 0
    ensures i < |s| && Compare(cmp, x, s[i]) == 0
  {
    if Compare(cmp, x, s[|s| - 1]) == 0 {
      i := |s| - 1;
    } else {
      i := SameWitness(cmp, x, s[..|s| - 1]);
    }
  }

  lemma LastEqual<T(!new)>(cmp: (T, T) -> int, x: T, y: T, ti: T, sj: T)
    requires TotalPreorder(cmp)
    requires Compare(cmp, x, ti) == 0 && Compare(cmp, ti, y) <= 0 && Compare(cmp, y, sj) == 0 &&
      Compare(cmp, sj, x) <= 0
    ensures Compare(cmp, x, y) == 0
  {
    assert Compare(cmp, x, y) <= 0;
    assert Compare(cmp, y, x) <= 0;
  }

  /** The last elements of two stable sorts of the same sequence are the same element. */
  lemma {:induction false} LastAgrees<T(!new)>(cmp: (T, T) -> int, s: seq<T>, t: seq<T>)
    requires TotalPreorder(cmp) && Sorted(cmp, s) && Sorted(cmp, t) && Stable(cmp, s, t) && |s| > 0
    ensures |t| > 0 && s[|s| - 1] == t[|t| - 1]
  {
    var x := s[|s| - 1];
    assert Compare(cmp, x, x) == 0;
    assert Same(cmp, x, s) == Same(cmp, x, t);
    SameMember(cmp, x, s, |s| - 1);
    var i := SameWitness(cmp, x, t);
    var y := t[|t| - 1];
    assert Compare(cmp, y, y) == 0 && Same(cmp, y, s) == Same(cmp, y, t);
    SameMember(cmp, y, t, |t| - 1);
    var j := SameWitness(cmp, y, s);
    LastEqual(cmp, x, y, t[i], s[j]);
    var g := Same(cmp, x, s);
    assert g[|g| - 1] == x;
    assert Compare(cmp, x, y) == 0;
  }

  lemma {:induction false} SnocCancel<T>(u: seq<T>, v: seq<T>, x: T)
    requires u + [x] == v + [x]
    ensures u == v
  {
    assert |u + [x]| == |v + [x]|;
    forall i | 0 <= i < |u|
      ensures u[i] == v[i]
    {
      assert (u + [x])[i] == (v + [x])[i];
    }
  }

  lemma {:induction false} SameSnoc<T>(cmp: (T, T) -> int, y: T, s: seq<T>, x: T)
    ensures Same(cmp, y, s + [x]) == Same(cmp, y, s) + if Compare(cmp, y, x) == 0 then [x] else []
  {
    assert (s + [x])[..|s|] == s;
  }

  lemma {:induction false} SamePrefix<T>(cmp: (T, T) -> int, y: T, s: seq<T>, t: seq<T>, x: T)
    requires Same(cmp, y, s + [x]) == Same(cmp, y, t + [x])
    ensures Same(cmp, y, s) == Same(cmp, y, t)
  {
    SameSnoc(cmp, y, s, x);
    SameSnoc(cmp, y, t, x);
    hide Same;
    assert Same(cmp, y, s) + [] == Same(cmp, y, s) && Same(cmp, y, t) + [] == Same(cmp, y, t);
    if Compare(cmp, y, x) == 0 {
      SnocCancel(Same(cmp, y, s), Same(cmp, y, t), x);
    }
  }

  /** There is only one stable sort of a sequence. */
  lemma {:induction false} StableSortUnique<T(!new)>(cmp: (T, T) -> int, s: seq<T>, t: seq<T>)
    requires TotalPreorder(cmp) && Sorted(cmp, s) && Sorted(cmp, t) && Stable(cmp, s, t)
    ensures s == t
  {
    if |s| == 0 {
      if |t| > 0 {
        LastAgrees(cmp, t, s);
      }
    } else {
      LastAgrees(cmp, s, t);
      var s', t', x := s[..|s| - 1], t[..|t| - 1], s[|s| - 1];
      assert s == s' + [x] && t == t' + [x];
      forall y
        ensures Same(cmp, y, s') == Same(cmp, y, t')
      {
        SamePrefix(cmp, y, s', t', x);
      }
      StableSortUnique(cmp, s', t');
    }
  }
}

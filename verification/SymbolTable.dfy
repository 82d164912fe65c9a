/** The operations on the word table: Init_Words, Make_Word, Expand_Word_Table and Get_Sym_Name. */
module SymbolTable {
  import opened HashProbe
  import opened WordHash
  import opened WordTable

  // ---- What interning means ----

  ghost predicate Known(names: seq<Name>, x: Name) {
    exists i {:trigger names[i]} :: 1 <= i < |names| && names[i] == x
  }

  ghost function PlaceOf(names: seq<Name>, x: Name): nat
    requires Known(names, x)
  {
    var i: nat :| 1 <= i < |names| && names[i] == x; i
  }

  /** Interning on the plain list of spellings; place 0 is never used. */
  ghost function Interned(names: seq<Name>, x: Name): (r: (seq<Name>, nat)) {
    if Known(names, x) then (names, PlaceOf(names, x)) else (names + [x], |names|)
  }

  ghost predicate Distinct(names: seq<Name>) {
    forall i, j {:trigger names[i], names[j]} :: 1 <= i < j < |names| ==> names[i] != names[j]
  }

  lemma {:induction false} PlaceUnique(names: seq<Name>, x: Name, i: nat)
    requires Distinct(names) && 1 <= i < |names| && names[i] == x
    ensures Known(names, x) && PlaceOf(names, x) == i
  {
  }

  /** Interning a list of spellings one after the other. */
  ghost function InternAll(names: seq<Name>, xs: seq<Name>): (r: (seq<Name>, seq<nat>))
    ensures |r.1| == |xs|
    decreases |xs|
  {
    if |xs| == 0 then (names, [])
    else
      var n := |xs| - 1;
      var before := InternAll(names, xs[..n]);
      var last := Interned(before.0, xs[n]);
      (last.0, before.1 + [last.1])
  }

  lemma {:induction false} InternedOk(names: seq<Name>, x: Name)
    requires Distinct(names) && |names| >= 1
    ensures var r := Interned(names, x); names <= r.0 && Distinct(r.0) && 1 <= r.1 < |r.0| && r.0[r.1] == x
  {
  }

  /** ids[k] is a place of the spelling xs[k]. */
  ghost predicate NamedBy(names: seq<Name>, ids: seq<nat>, xs: seq<Name>) {
    |ids| == |xs| && forall k {:trigger ids[k]} :: 0 <= k < |xs| ==> 1 <= ids[k] < |names| && names[ids[k]] == xs[k]
  }

  /** Over any run a number names the spelling it was given out for, and keeps naming it. */
  lemma {:induction false} InternAllNames(names: seq<Name>, xs: seq<Name>)
    requires Distinct(names) && |names| >= 1
    ensures names <= InternAll(names, xs).0 && Distinct(InternAll(names, xs).0)
    ensures NamedBy(InternAll(names, xs).0, InternAll(names, xs).1, xs)
    decreases |xs|
  {
    if |xs| > 0 {
      var n := |xs| - 1;
      InternAllNames(names, xs[..n]);
      var before := InternAll(names, xs[..n]);
      InternedOk(before.0, xs[n]);
      var last := Interned(before.0, xs[n]);
      hide Interned, Distinct;
      var ids := before.1 + [last.1];
      forall k {:trigger ids[k]} | 0 <= k < |xs|
        ensures 1 <= ids[k] < |last.0| && last.0[ids[k]] == xs[k]
      {
        if k < n {
          assert ids[k] == before.1[k];
        }
      }
    }
  }

  lemma {:induction false} InternAllGrows(names: seq<Name>, xs: seq<Name>)
    ensures names <= InternAll(names, xs).0 && |InternAll(names, xs).0| <= |names| + |xs|
    decreases |xs|
  {
    hide Known;
    if |xs| > 0 {
      InternAllGrows(names, xs[..|xs| - 1]);
    }
  }

  /** Whatever a run adds to the list is one of the spellings interned. */
  lemma {:induction false} InternAllAdds(names: seq<Name>, xs: seq<Name>, i: nat)
    requires |names| <= i < |InternAll(names, xs).0|
    ensures InternAll(names, xs).0[i] in xs
    decreases |xs|
  {
    hide Known;
    if |xs| > 0 {
      if i < |InternAll(names, xs[..|xs| - 1]).0| {
        InternAllAdds(names, xs[..|xs| - 1], i);
      }
    }
  }

  /** Over any run equal spellings get equal numbers and distinct spellings distinct ones. */
  lemma {:induction false} InternAllInjective(names: seq<Name>, xs: seq<Name>, k: nat, l: nat)
    requires Distinct(names) && |names| >= 1 && k < |xs| && l < |xs|
    ensures InternAll(names, xs).1[k] == InternAll(names, xs).1[l] <==> xs[k] == xs[l]
  {
    InternAllNames(names, xs);
    hide InternAll;
    var r := InternAll(names, xs);
    var i, j := r.1[k], r.1[l];
    assert r.0[i] == xs[k] && r.0[j] == xs[l];
  }

  /** The next larger table size, if there is one, has the covering property. */
  ghost predicate NextCovers(len: nat) {
    forall p: nat {:trigger IsSize(p)} ::
      IsSize(p) && p > len && (forall q: nat :: IsSize(q) && q > len ==> p <= q) ==> Covering(p)
  }

  lemma NextSizeCovers(len: nat, p: nat)
    requires IsSize(p) && p > len && forall q: nat :: IsSize(q) && q > len ==> p <= q
    ensures NextCovers(len) ==> Covering(p)
  {
  }

  lemma NextSmallCovers(len: nat)
    requires len < NO_WRAP
    ensures NextCovers(len)
  {
    assert PRIMES[7] == NO_WRAP;
    assert IsSize(NO_WRAP);
    forall p: nat | IsSize(p) && p > len && (forall q: nat :: IsSize(q) && q > len ==> p <= q)
      ensures Covering(p)
    {
      SmallSizesCover(p);
    }
  }

  /** Every size that a table of fewer than n symbols is expanded to has the covering property. */
  ghost predicate GrowthCovers(n: nat) {
    forall len: nat {:trigger NextCovers(len)} :: IsSize(len) && len / 2 < n ==> NextCovers(len)
  }

  lemma SmallGrowthCovers(n: nat)
    requires n <= NO_WRAP / 2
    ensures GrowthCovers(n)
  {
    forall len: nat | IsSize(len) && len / 2 < n
      ensures NextCovers(len)
    {
      NextSmallCovers(len);
    }
  }

  /** The hash agrees on the case variants met during a run. */
  lemma {:induction false} RunAgrees(t: Tables, names: seq<Name>, xs: seq<Name>, k: nat)
    requires |t.crc24| == 256 && |names| >= 1 && AllKeysAgree(t, names + xs) && k < |xs|
    ensures KeysAgree(t, InternAll(names, xs[..k]).0, xs[k])
  {
    var m, all := InternAll(names, xs[..k]).0, names + xs;
    InternAllGrows(names, xs[..k]);
    assert all[|names| + k] == xs[k];
    hide Key, CaseEqual, InternAll;
    forall i {:trigger m[i]} | 1 <= i < |m| && CaseEqual(t, m[i], xs[k])
      ensures Key(t, m[i]) == Key(t, xs[k])
    {
      if i < |names| {
        assert all[i] == m[i];
      } else {
        InternAllAdds(names, xs[..k], i);
        var j :| 0 <= j < k && xs[..k][j] == m[i];
        assert all[|names| + j] == m[i];
      }
    }
  }

  /** A table in the middle of a run is one whose expansion is known to cover. */
  lemma {:induction false} RunGrowth(names: seq<Name>, xs: seq<Name>, k: nat, len: nat)
    requires GrowthCovers(|names| + |xs|) && IsSize(len) && k < |xs|
    ensures |InternAll(names, xs[..k]).0| > len / 2 ==> NextCovers(len)
  {
    InternAllGrows(names, xs[..k]);
  }

  /** On ASCII names the hash always agrees. */
  lemma {:induction false} AsciiRunAgrees(t: Tables, xs: seq<Name>)
    requires |t.crc24| == 256 && forall k :: 0 <= k < |xs| ==> IsAscii(xs[k])
    ensures AllKeysAgree(t, [[]] + xs)
  {
    var all: seq<Name> := [[]] + xs;
    hide Key, CaseEqual, IsAscii;
    forall i, j | 1 <= i < |all| && 1 <= j < |all| && CaseEqual(t, all[i], all[j])
      ensures Key(t, all[i]) == Key(t, all[j])
    {
      assert all[i] == xs[i - 1] && all[j] == xs[j - 1];
      AsciiAgrees(t, all[i], all[j]);
    }
  }

  /** ids[k] and ids[l] have one canon exactly when the spellings they were given out for differ at most in case. */
  ghost predicate KindsShared(t: Tables, syms: seq<Sym>, ids: seq<nat>, xs: seq<Name>) {
    && |ids| == |xs| && (forall k {:trigger ids[k]} :: 0 <= k < |ids| ==> ids[k] < |syms|)
    && forall k, l {:trigger ids[k], ids[l]} :: 0 <= k < |ids| && 0 <= l < |ids| ==>
         (syms[ids[k]].canon == syms[ids[l]].canon <==> CaseEqual(t, xs[k], xs[l]))
  }

  lemma {:induction false} RunKinds(t: Tables, syms: seq<Sym>, names: seq<Name>, ids: seq<nat>, xs: seq<Name>)
    requires SymsOk(t, syms, names) && NamedBy(names, ids, xs)
    ensures KindsShared(t, syms, ids, xs)
  {
    hide CaseEqual;
    forall k, l {:trigger ids[k], ids[l]} | 0 <= k < |ids| && 0 <= l < |ids|
      ensures syms[ids[k]].canon == syms[ids[l]].canon <==> CaseEqual(t, xs[k], xs[l])
    {
      assert names[ids[k]] == xs[k] && names[ids[l]] == xs[l];
    }
  }

  /** Two symbols have one canon exactly when their spellings differ at most in case. */
  ghost predicate CanonIsKind(t: Tables, syms: seq<Sym>, names: seq<Name>) {
    |syms| == |names| && forall i, j {:trigger syms[i], syms[j]} :: 1 <= i < |syms| && 1 <= j < |syms| ==>
      (syms[i].canon == syms[j].canon <==> CaseEqual(t, names[i], names[j]))
  }

  lemma {:induction false} SharedCanon(t: Tables, syms: seq<Sym>, names: seq<Name>)
    requires SymsOk(t, syms, names)
    ensures CanonIsKind(t, syms, names)
  {
  }

  /** No symbol matches x but for case. */
  ghost predicate NoKin(t: Tables, names: seq<Name>, x: Name) {
    forall s {:trigger names[s]} :: 1 <= s < |names| ==> !CaseEqual(t, names[s], x)
  }

  lemma {:induction false} NoKinUnknown(t: Tables, names: seq<Name>, x: Name)
    requires forall s {:trigger names[s]} :: 1 <= s < |names| ==> !CaseEqual(t, names[s], x)
    ensures NoKin(t, names, x) && !Known(names, x)
  {
    CaseEqualEquivalence(t, x, x, x);
    hide CaseEqual;
  }

  lemma {:induction false} NamesDiffer(names: seq<Name>, x: Name)
    requires !Known(names, x)
    ensures forall s {:trigger names[s]} :: 1 <= s < |names| ==> names[s] != x
  {
  }

  lemma {:induction false} KeysAgreeAdded(t: Tables, names: seq<Name>, x: Name)
    requires |t.crc24| == 256 && |names| >= 1 && AllKeysAgree(t, names) && KeysAgree(t, names, x)
    ensures AllKeysAgree(t, names + [x])
  {
    var m := names + [x];
    hide Key, CaseEqual;
    forall i {:trigger m[i]} | 1 <= i < |m|
      ensures KeysAgree(t, m, m[i])
    {
      forall j {:trigger m[j]} | 1 <= j < |m| && CaseEqual(t, m[j], m[i])
        ensures Key(t, m[j]) == Key(t, m[i])
      {
        CaseEqualEquivalence(t, m[j], m[i], m[j]);
        if i < |names| && j < |names| {
          assert KeysAgree(t, names, names[i]);
          assert names[j] == m[j];
        }
      }
    }
  }

  lemma {:induction false} CanonBelow(t: Tables, syms: seq<Sym>, names: seq<Name>, k: nat)
    requires SymsOk(t, syms, names) && 1 <= k < |syms|
    ensures 1 <= syms[k].canon <= k
  {
    hide CaseEqual;
  }

  lemma {:induction false} SymsNamed(t: Tables, syms: seq<Sym>, names: seq<Name>)
    requires SymsOk(t, syms, names)
    ensures |syms| == |names|
  {
  }

  /** Everything that holds of the table holds of it with a case variant added. */
  lemma {:induction false} AliasWhole(t: Tables, h: seq<nat>, syms: seq<Sym>, names: seq<Name>, pool: seq<nat>,
      r: seq<Sym>, k: nat, x: Name)
    requires |t.crc24| == 256 && |h| > 0 && SymsOk(t, syms, names) && AliasOk(syms) && HashOk(t, h, syms, names)
    requires PoolOk(pool, syms, names) && AllKeysAgree(t, names) && KeysAgree(t, names, x)
    requires 0 !in x && !Known(names, x) && 1 <= k < |syms| && CaseEqual(t, names[k], x) && syms[k].alias == 0
    requires r == syms[k := syms[k].(alias := |syms|)] + [Sym(syms[k].canon, 0, |pool|)]
    ensures SymsOk(t, r, names + [x]) && AliasOk(r) && HashOk(t, h, r, names + [x])
    ensures PoolOk(pool + x + [0], r, names + [x]) && AllKeysAgree(t, names + [x])
  {
    hide Key, CaseEqual, AllKeysAgree, KeysAgree, AliasOk, HashOk, PoolOk, SymsOk, Known;
    SymsNamed(t, syms, names);
    CanonBelow(t, syms, names, k);
    NamesDiffer(names, x);
    KeysAgreeAdded(t, names, x);
    assert forall i {:trigger r[i]} :: 0 <= i < |syms| ==> r[i].canon == syms[i].canon && r[i].nindex == syms[i].nindex;
    PoolGrows(pool, syms, names, r, x);
    AliasAdded(t, syms, names, k, x, |pool|);
    AliasHash(t, h, syms, names, r, x);
  }

  /** Everything that holds of the table holds of it with a new kind of word added. */
  lemma {:induction false} CanonWhole(t: Tables, h: seq<nat>, syms: seq<Sym>, names: seq<Name>, pool: seq<nat>,
      r: seq<Sym>, x: Name, at: nat)
    requires |t.crc24| == 256 && |h| > 0 && SymsOk(t, syms, names) && AliasOk(syms) && HashOk(t, h, syms, names)
    requires PoolOk(pool, syms, names) && AllKeysAgree(t, names) && KeysAgree(t, names, x)
    requires 0 !in x && NoKin(t, names, x) && r == syms + [Sym(|syms|, 0, |pool|)]
    requires at < |h| && h[Probe(Key(t, x), at, |h|)] == 0 && Missed(t, h, names, x, Key(t, x), at)
    ensures SymsOk(t, r, names + [x]) && AliasOk(r)
    ensures HashOk(t, h[Probe(Key(t, x), at, |h|) := |syms|], r, names + [x])
    ensures PoolOk(pool + x + [0], r, names + [x]) && AllKeysAgree(t, names + [x])
  {
    hide Key, Probe, CaseEqual, AllKeysAgree, KeysAgree, AliasOk, HashOk, PoolOk, Missed;
    KeysAgreeAdded(t, names, x);
    PoolGrows(pool, syms, names, r, x);
    CanonAdded(t, syms, names, x, |pool|);
    CanonHash(t, h, syms, names, r, x, Key(t, x), at);
  }

  lemma {:induction false} SymsDistinct(t: Tables, syms: seq<Sym>, names: seq<Name>)
    requires SymsOk(t, syms, names)
    ensures Distinct(names)
  {
  }

  lemma {:induction false} HashSlots(t: Tables, h: seq<nat>, syms: seq<Sym>, names: seq<Name>)
    requires |t.crc24| == 256 && |syms| == |names| && |h| > 0 && HashOk(t, h, syms, names)
    ensures SlotsOk(h, |syms|)
  {
  }

  lemma {:induction false} MissedNone(t: Tables, h: seq<nat>, names: seq<Name>, x: Name, key: nat)
    requires |h| > 0
    ensures Missed(t, h, names, x, key, 0)
  {
  }

  lemma {:induction false} MissedNext(t: Tables, h: seq<nat>, names: seq<Name>, x: Name, key: nat, i: nat)
    requires |h| > 0 && Missed(t, h, names, x, key, i) && i < |h|
    requires var s := h[Probe(key, i, |h|)]; s != 0 && s < |names| && !CaseEqual(t, names[s], x)
    ensures Missed(t, h, names, x, key, i + 1)
  {
    hide Probe;
  }

  lemma {:induction false} RehashedSlots(t: Tables, g: seq<nat>, names: seq<Name>, n: nat)
    requires |t.crc24| == 256 && |g| > 0 && n <= |names| && Rehashed(t, g, names, n)
    ensures SlotsOk(g, n)
  {
  }

  lemma {:induction false} NoneTaken(g: seq<nat>, key: nat)
    requires |g| > 0
    ensures AllTaken(g, key, 0)
  {
  }

  lemma {:induction false} TakenNext(g: seq<nat>, key: nat, i: nat)
    requires |g| > 0 && AllTaken(g, key, i) && g[Probe(key, i, |g|)] != 0
    ensures AllTaken(g, key, i + 1)
  {
    hide Probe;
  }

  lemma {:induction false} RehashStart(t: Tables, g: seq<nat>, names: seq<Name>)
    requires |t.crc24| == 256 && |g| > 0 && |names| >= 1 && forall k :: 0 <= k < |g| ==> g[k] == 0
    ensures Rehashed(t, g, names, 1)
  {
  }

  lemma {:induction false} BelowCanon(t: Tables, syms: seq<Sym>, names: seq<Name>, c: nat, x: Name)
    requires SymsOk(t, syms, names) && 1 <= c < |syms| && syms[c].canon == c && CaseEqual(t, names[c], x)
    ensures forall s {:trigger names[s]} :: 1 <= s < c ==> names[s] != x
  {
    forall s {:trigger names[s]} | 1 <= s < c
      ensures names[s] != x
    {
      var u, v := syms[c].canon, syms[s].canon;
    }
  }

  lemma {:induction false} PoolName(pool: seq<nat>, syms: seq<Sym>, names: seq<Name>, h: nat)
    requires PoolOk(pool, syms, names) && 1 <= h < |syms|
    ensures NameAt(pool, syms[h].nindex) == names[h]
  {
    assert NamePlaced(pool, syms[h].nindex, names[h]);
    NameAtIs(pool, syms[h].nindex, names[h]);
  }

  /** Past the end of an alias chain no symbol has the name sought. */
  lemma {:induction false} NoLaterKin(t: Tables, syms: seq<Sym>, names: seq<Name>, h: nat, x: Name)
    requires SymsOk(t, syms, names) && AliasOk(syms) && 1 <= h < |syms| && syms[h].alias == 0
    requires CaseEqual(t, names[h], x) && names[h] != x
    requires forall s {:trigger names[s]} :: 1 <= s < h ==> names[s] != x
    ensures !Known(names, x)
  {
    forall s {:trigger names[s]} | 1 <= s < |names|
      ensures names[s] != x
    {
      var u, v := syms[h].canon, syms[s].canon;
    }
  }

  lemma {:induction false} SameCanon(t: Tables, syms: seq<Sym>, names: seq<Name>, i: nat, j: nat)
    requires SymsOk(t, syms, names) && 1 <= i < |syms| && 1 <= j < |syms|
    ensures syms[i].canon == syms[j].canon <==> CaseEqual(t, names[i], names[j])
  {
    hide CaseEqual;
    var u, v := syms[i].canon, syms[j].canon;
  }

  lemma {:induction false} AliasNext(syms: seq<Sym>, h: nat, s: nat)
    requires AliasOk(syms) && 1 <= h < |syms|
    ensures syms[h].alias != 0 ==> h < syms[h].alias < |syms| && syms[syms[h].alias].canon == syms[h].canon
    ensures h < s < |syms| && syms[s].canon == syms[h].canon ==> syms[h].alias != 0 && syms[h].alias <= s
  {
  }

  /** An alias link skips no symbol of the same kind. */
  lemma {:induction false} KinBetween(t: Tables, syms: seq<Sym>, names: seq<Name>, h: nat, x: Name)
    requires SymsOk(t, syms, names) && AliasOk(syms) && 1 <= h < |syms| && syms[h].alias != 0
    requires CaseEqual(t, names[h], x) && names[h] != x
    requires forall s {:trigger names[s]} :: 1 <= s < h ==> names[s] != x
    ensures h < syms[h].alias < |syms| && syms[syms[h].alias].canon == syms[h].canon
    ensures CaseEqual(t, names[syms[h].alias], x)
    ensures forall s {:trigger names[s]} :: 1 <= s < syms[h].alias ==> names[s] != x
  {
    hide SymsOk, AliasOk, CaseEqual;
    SymsNamed(t, syms, names);
    AliasNext(syms, h, h);
    var a := syms[h].alias;
    SameCanon(t, syms, names, a, h);
    CaseEqualEquivalence(t, names[a], names[h], x);
    forall s {:trigger names[s]} | 1 <= s < a
      ensures names[s] != x
    {
      if h < s {
        SameCanon(t, syms, names, h, s);
        AliasNext(syms, h, s);
      }
    }
  }

  // ---- What holds whatever the hash does ----

  /** Canons lie at or before their symbols and aliases after them. */
  ghost predicate LinksOk(syms: seq<Sym>) {
    forall i {:trigger syms[i]} :: 1 <= i < |syms| ==>
      1 <= syms[i].canon <= i && (syms[i].alias == 0 || i < syms[i].alias < |syms|)
  }

  lemma {:induction false} LinksAdded(syms: seq<Sym>, r: seq<Sym>)
    requires LinksOk(syms) && |r| == |syms| + 1 && 1 <= |syms|
    requires forall i {:trigger r[i]} :: 1 <= i < |syms| ==>
      r[i].canon == syms[i].canon && (r[i].alias == syms[i].alias || r[i].alias == |syms|)
    requires 1 <= r[|syms|].canon <= |syms| && r[|syms|].alias == 0
    ensures LinksOk(r)
  {
  }

  lemma {:induction false} LinkAt(syms: seq<Sym>, h: nat)
    requires LinksOk(syms) && 1 <= h < |syms|
    ensures 1 <= syms[h].canon <= h && (syms[h].alias == 0 || h < syms[h].alias < |syms|)
  {
  }

  ghost predicate SlotsBelow(h: seq<nat>, n: nat) {
    forall k {:trigger h[k]} :: 0 <= k < |h| ==> h[k] < n
  }

  /** names has grown by x at most. */
  ghost predicate Grown(was: seq<Name>, now: seq<Name>, x: Name, id: nat) {
    (now == was || (now == was + [x] && id == |was|)) && 1 <= id < |now| && now[id] == x
  }

  lemma {:induction false} NamedGrows(was: seq<Name>, now: seq<Name>, ids: seq<nat>, xs: seq<Name>, x: Name, id: nat)
    requires NamedBy(was, ids, xs) && Grown(was, now, x, id)
    ensures NamedBy(now, ids + [id], xs + [x])
  {
  }

  /** How a walk along an alias chain ends: at the spelling, at the end of the chain, or off it. */
  datatype Walk = Hit | EndOfChain | OffChain

  lemma NothingNamed(names: seq<Name>)
    ensures NamedBy(names, [], [])
  {
  }

  class Table {
    const t: Tables
    var hashes: array<nat>
    var syms: seq<Sym>
    var pool: seq<nat>
    /** The spelling of every symbol, as the pool holds it. */
    ghost var names: seq<Name>

    /** What every operation keeps, however the hash behaves. */
    ghost predicate Valid()
      reads this, hashes
    {
      && |t.crc24| == 256 && IsSize(hashes.Length)
      && 1 <= |syms| == |names| && |syms| <= hashes.Length / 2 + 1
      && LinksOk(syms) && SlotsBelow(hashes[..], |syms|) && PoolOk(pool, syms, names)
    }

    /** What holds besides as long as the hash agrees on case variants and the table sizes cover. */
    ghost predicate Exact()
      reads this, hashes
    {
      && |t.crc24| == 256 && |syms| == |names| && Covering(hashes.Length)
      && SymsOk(t, syms, names) && AliasOk(syms) && HashOk(t, hashes[..], syms, names) && AllKeysAgree(t, names)
    }

    /** Init_Words: 8191 hash slots and one symbol that is never given out. */
    constructor (tables: Tables)
      requires |tables.crc24| == 256
      ensures Valid() && Exact() && fresh(hashes) && t == tables && names == [[]]
      ensures hashes.Length == 8191 && |syms| == 1 && forall k :: 0 <= k < hashes.Length ==> hashes[k] == 0
    {
      t := tables;
      hashes := new nat[8191](_ => 0);
      syms := [Sym(0, 0, 0)];
      pool := [];
      names := [[]];
      new;
      assert PRIMES[5] == 8191;
      SmallSizesCover(8191);
    }

    /** Get_Sym_Name. */
    method GetSymName(num: nat) returns (name: seq<nat>)
      requires Valid()
      ensures 1 <= num < |names| ==> name == names[num]
      ensures num == 0 || num >= |names| ==> name == ['?' as nat, '?' as nat, '?' as nat]
    {
      if num == 0 || num >= |syms| {
        return ['?' as nat, '?' as nat, '?' as nat];
      }
      hide PoolOk, LinksOk, NameAt;
      PoolName(pool, syms, names, num);
      name := NameAt(pool, syms[num].nindex);
    }

    /** The inner loop of the search: along the alias chain from the symbol in a slot. */
    method WalkChain(x: Name, start: nat) returns (h: nat, end: Walk)
      requires Valid() && 1 <= start < |syms|
      ensures start <= h < |syms|
      ensures match end
        case Hit => names[h] == x
        case EndOfChain => CaseEqual(t, names[h], x) && syms[h].alias == 0
        case OffChain => !CaseEqual(t, names[h], x)
      ensures end == OffChain && h == start <==> !CaseEqual(t, names[start], x)
      ensures Exact() && syms[start].canon == start && CaseEqual(t, names[start], x) ==>
        end != OffChain && (end == EndOfChain ==> !Known(names, x))
    {
      hide CaseEqual, HashOk, AllKeysAgree, PoolOk, SymsOk, AliasOk, LinksOk, Covering, SlotsBelow, IsSize;
      h := start;
      ghost var exact := Exact() && syms[start].canon == start && CaseEqual(t, names[start], x);
      CaseEqualEquivalence(t, x, x, x);
      if exact {
        BelowCanon(t, syms, names, start, x);
      }
      while true
        invariant start <= h < |syms| && (h > start ==> CaseEqual(t, names[start], x))
        invariant exact ==> CaseEqual(t, names[h], x)
        invariant exact ==> forall s {:trigger names[s]} :: 1 <= s < h ==> names[s] != x
        decreases |syms| - h
      {
        PoolName(pool, syms, names, h);
        LinkAt(syms, h);
        var n := Compare(t, NameAt(pool, syms[h].nindex), x);
        if n == 0 {
          return h, Hit;
        } else if n < 0 {
          return h, OffChain;
        } else if syms[h].alias == 0 {
          if exact {
            NoLaterKin(t, syms, names, h, x);
          }
          return h, EndOfChain;
        }
        if exact {
          KinBetween(t, syms, names, h, x);
        }
        h := syms[h].alias;
      }
    }

    /** No symbol matches x but for case, and the search for one ended at this empty slot. */
    ghost predicate FreeAt(x: Name, slot: nat, at: nat)
      requires |t.crc24| == 256
      reads this, hashes
    {
      && NoKin(t, names, x) && at < hashes.Length && slot == Probe(Key(t, x), at, hashes.Length)
      && Missed(t, hashes[..], names, x, Key(t, x), at)
    }

    /**
     * The search of Make_Word: the symbol with this name; or the symbol it is to be linked to; or neither, and the
     * empty slot the probes ended at. An exact table links it to the end of the alias chain of its kind, if there is
     * one.
     */
    method Search(x: Name) returns (h: nat, slot: nat, hit: bool, ghost at: nat)
      requires Valid()
      ensures h < |syms| && (hit ==> h >= 1 && names[h] == x)
      ensures h == 0 ==> slot < hashes.Length && hashes[slot] == 0
      ensures hashes[Probe(Key(t, x), 0, hashes.Length)] == 0 ==> h == 0 && slot == Probe(Key(t, x), 0, hashes.Length)
      ensures Exact() && KeysAgree(t, names, x) && 2 * (|syms| - 1) < hashes.Length && !hit ==>
        !Known(names, x) && if h == 0 then FreeAt(x, slot, at) else CaseEqual(t, names[h], x) && syms[h].alias == 0
    {
      hide Key, Probe, CaseEqual, AllKeysAgree, KeysAgree, AliasOk, SymsOk, HashOk, PoolOk, SlotsOk, Missed, LinksOk,
        Covering, IsSize;
      var size := hashes.Length;
      var key := Key(t, x);
      SizesOdd(size);
      ghost var exact := Exact() && KeysAgree(t, names, x) && 2 * (|syms| - 1) < hashes.Length;
      ghost var e := size;
      if exact {
        HashSlots(t, hashes[..], syms, names);
        e := EmptyProbe(hashes[..], |syms|, key);
        MissedNone(t, hashes[..], names, x, key);
      }
      h, slot, hit, at := 0, 0, false, 0;
      var i := 0;
      while i < size
        invariant 0 <= i <= size && h < |syms| && (i > 0 ==> h >= 1 && hashes[Probe(key, 0, size)] != 0)
        invariant exact ==> i <= e < size && hashes[Probe(key, e, size)] == 0 && Missed(t, hashes[..], names, x, key, i)
      {
        slot := Probe(key, i, size);
        h := hashes[slot];
        if h == 0 {
          at := i;
          if exact {
            EmptyMeansNew(t, hashes[..], syms, names, x, key, i);
            NoKinUnknown(t, names, x);
          }
          return;
        }
        assert h == hashes[..][slot];
        if exact && CaseEqual(t, names[h], x) {
          FirstMatch(t, hashes[..], syms, names, x, key, i);
        }
        var end;
        ghost var first := h;
        h, end := WalkChain(x, h);
        if end != OffChain {
          hit := end == Hit;
          return;
        }
        if exact {
          MissedNext(t, hashes[..], names, x, key, i);
        }
        i := i + 1;
      }
    }

    /** The inner loop of the rehash: the first empty slot for symbol n, or the last slot probed. */
    method SeatSymbol(g: array<nat>, n: nat) returns (slot: nat)
      requires |t.crc24| == 256 && 1 <= n < |syms| && |syms| == |names| && PoolOk(pool, syms, names) && g.Length > 0
      ensures slot < g.Length
      ensures 2 * (n - 1) < g.Length && Covering(g.Length) && Rehashed(t, g[..], names, n) ==>
        Rehashed(t, g[..][slot := n], names, n + 1)
    {
      hide Key, Probe, PoolOk, Rehashed, SlotsOk, AllTaken, Covering;
      PoolName(pool, syms, names, n);
      var key := Key(t, NameAt(pool, syms[n].nindex));
      ghost var exact := 2 * (n - 1) < g.Length && Covering(g.Length) && Rehashed(t, g[..], names, n);
      ghost var e := g.Length;
      if exact {
        RehashedSlots(t, g[..], names, n);
        e := EmptyProbe(g[..], n, key);
      }
      NoneTaken(g[..], key);
      slot := 0;
      var i := 0;
      while i < g.Length
        invariant 0 <= i <= g.Length && slot < g.Length
        invariant exact ==> i <= e < g.Length && g[Probe(key, e, g.Length)] == 0
        invariant AllTaken(g[..], key, i)
      {
        slot := Probe(key, i, g.Length);
        if g[slot] == 0 {
          if exact {
            RehashStep(t, g[..], names, n, key, i);
          }
          return;
        }
        TakenNext(g[..], key, i);
        i := i + 1;
      }
    }

    /** The loop of Expand_Word_Table: all symbols entered in a new array, in order. */
    method Rehash(len: nat) returns (g: array<nat>)
      requires Valid() && len >= hashes.Length
      ensures fresh(g) && g.Length == len && SlotsBelow(g[..], |syms|)
      ensures SymsOk(t, syms, names) && Covering(len) ==> HashOk(t, g[..], syms, names)
    {
      g := new nat[len](_ => 0);
      SizesOdd(hashes.Length);
      RehashStart(t, g[..], names);
      hide Key, PoolOk, Rehashed, SymsOk, HashOk, IsSize, Covering, LinksOk;
      var n := 1;
      while n < |syms|
        invariant 1 <= n <= |syms| && SlotsBelow(g[..], n)
        invariant Covering(len) ==> Rehashed(t, g[..], names, n)
      {
        var slot := SeatSymbol(g, n);
        g[slot] := n;
        n := n + 1;
      }
      if SymsOk(t, syms, names) && Covering(len) {
        RehashDone(t, g[..], syms, names);
      }
    }

    /** Expand_Word_Table: the next larger hash array in place of the old one. */
    method Expand() returns (ok: bool)
      requires Valid()
      modifies this`hashes
      ensures Valid()
      ensures old(Exact()) && NextCovers(old(hashes.Length)) ==> Exact()
      ensures ok <==> exists p: nat :: IsSize(p) && p > old(hashes.Length)
      ensures ok ==> fresh(hashes) && hashes.Length > old(hashes.Length)
      ensures !ok ==> hashes == old(hashes)
    {
      hide Key, PoolOk, SymsOk, HashOk, AliasOk, AllKeysAgree, IsSize, Covering, LinksOk, SlotsBelow;
      var pnum := GetHashPrime(hashes.Length + 1);
      if pnum == 0 {
        return false;
      }
      NextSizeCovers(hashes.Length, pnum);
      var g := Rehash(pnum);
      hashes := g;
      ok := true;
    }

    /** make_sym with h found: the new symbol is linked to it. */
    method AddAlias(x: Name, h: nat) returns (n: nat)
      requires Valid() && 0 !in x && |syms| <= hashes.Length / 2 && 1 <= h < |syms|
      modifies this
      ensures Valid() && hashes == old(hashes)
      ensures n == old(|names|) && names == old(names) + [x]
      ensures forall i {:trigger syms[i]} :: 0 <= i < old(|syms|) ==> syms[i].canon == old(syms[i].canon)
      ensures old(Exact() && KeysAgree(t, names, x) && !Known(names, x)) ==>
        old(CaseEqual(t, names[h], x) && syms[h].alias == 0) ==> Exact()
    {
      hide Key, Probe, CaseEqual, AllKeysAgree, KeysAgree, AliasOk, HashOk, PoolOk, SymsOk, IsSize, Covering, LinksOk,
        Known;
      n := |syms|;
      var nindex := |pool|;
      LinkAt(syms, h);
      ghost var r := syms[h := syms[h].(alias := n)] + [Sym(syms[h].canon, 0, nindex)];
      LinksAdded(syms, r);
      PoolGrows(pool, syms, names, r, x);
      if Exact() && KeysAgree(t, names, x) && !Known(names, x) && CaseEqual(t, names[h], x) && syms[h].alias == 0 {
        AliasWhole(t, hashes[..], syms, names, pool, r, h, x);
      }
      syms := syms[h := syms[h].(alias := n)];
      syms := syms + [Sym(syms[h].canon, 0, nindex)];
      pool := pool + x + [0];
      names := names + [x];
    }

    /** make_sym with none found: a canon word, entered at the empty slot. */
    method AddCanon(x: Name, slot: nat, ghost at: nat) returns (n: nat)
      requires Valid() && 0 !in x && |syms| <= hashes.Length / 2 && slot < hashes.Length && hashes[slot] == 0
      modifies this, hashes
      ensures Valid() && hashes == old(hashes) && hashes[..] == old(hashes[..])[slot := n]
      ensures n == old(|names|) && names == old(names) + [x] && n < |syms| && syms[n].canon == n
      ensures forall i {:trigger syms[i]} :: 0 <= i < old(|syms|) ==> syms[i].canon == old(syms[i].canon)
      ensures old(Exact() && KeysAgree(t, names, x) && FreeAt(x, slot, at)) ==> Exact()
    {
      hide Key, Probe, CaseEqual, AllKeysAgree, KeysAgree, AliasOk, HashOk, PoolOk, SymsOk, Missed, NoKin, IsSize,
        Covering, LinksOk;
      n := |syms|;
      var nindex := |pool|;
      ghost var r := syms + [Sym(n, 0, nindex)];
      LinksAdded(syms, r);
      PoolGrows(pool, syms, names, r, x);
      if Exact() && KeysAgree(t, names, x) && FreeAt(x, slot, at) {
        CanonWhole(t, hashes[..], syms, names, pool, r, x, at);
      }
      hashes[slot] := n;
      syms := syms + [Sym(n, 0, nindex)];
      pool := pool + x + [0];
      names := names + [x];
    }

    /**
     * Make_Word: the number of x, found or new. Whatever the hash does, that number names x, and spellings already
     * known keep number, canon and name; the one failure is a table that would outgrow the largest size. In an exact
     * table, with a hash that agrees on the variants of x and a covering next size, this is interning on the list.
     */
    method MakeWord(x: Name) returns (r: Made)
      requires Valid() && 0 !in x
      modifies this, hashes
      ensures Valid() && (hashes == old(hashes) || fresh(hashes))
      ensures r.Made? ==> Grown(old(names), names, x, r.id)
      ensures old(|syms|) <= |syms|
      ensures forall i {:trigger syms[i]} :: 0 <= i < old(|syms|) ==> syms[i].canon == old(syms[i].canon)
      ensures r == SizeLimit ==> names == old(names) && syms == old(syms) && hashes == old(hashes)
      ensures r == SizeLimit <==>
        old(|syms| > hashes.Length / 2) && !exists p: nat :: IsSize(p) && p > old(hashes.Length)
      ensures old(Exact() && KeysAgree(t, names, x) && (|syms| > hashes.Length / 2 ==> NextCovers(hashes.Length))) ==>
        Exact() && CanonIsKind(t, syms, names) && (r.Made? ==> (names, r.id) == Interned(old(names), x))
      ensures old(|syms| <= hashes.Length / 2 && hashes[Probe(Key(t, x), 0, hashes.Length)] == 0) ==>
        && r == Made(old(|syms|)) && syms[r.id].canon == r.id
        && hashes == old(hashes) && hashes[..] == old(hashes[..])[Probe(Key(t, x), 0, hashes.Length) := r.id]
    {
      hide Key, Probe, CaseEqual, AllKeysAgree, KeysAgree, AliasOk, HashOk, PoolOk, SymsOk, Missed, NoKin, IsSize,
        Covering, Known, PlaceOf;
      hide CanonIsKind, LinksOk, SlotsBelow;
      ghost var exact := Exact() && KeysAgree(t, names, x) &&
        (|syms| > hashes.Length / 2 ==> NextCovers(hashes.Length));
      if exact {
        SharedCanon(t, syms, names);
      }
      if |syms| > hashes.Length / 2 {
        SizesOdd(hashes.Length);
        var ok := Expand();
        if !ok {
          return SizeLimit;
        }
        SizesOdd(hashes.Length);
      }
      var h, slot, hit, at := Search(x);
      var n;
      if hit {
        if exact {
          SymsDistinct(t, syms, names);
          PlaceUnique(names, x, h);
        }
        n := h;
      } else if h != 0 {
        n := AddAlias(x, h);
      } else {
        n := AddCanon(x, slot, at);
      }
      if exact {
        SharedCanon(t, syms, names);
      }
      r := Made(n);
    }

    /**
     * A run of Make_Word over xs, rehashes included. Whatever the hash does, the numbers name their spellings, and no
     * symbol there before changes name or canon. If the hash agrees on the case variants among them and the sizes
     * cover, the numbers are those of interning on the plain list, and two of them share a canon exactly when their
     * spellings match but for case. It stops early only where the table would outgrow the largest size.
     */
    method MakeWords(xs: seq<Name>) returns (ids: seq<nat>, ok: bool)
      requires Valid() && (forall k :: 0 <= k < |xs| ==> 0 !in xs[k])
      modifies this, hashes
      ensures Valid() && |ids| <= |xs| && (ok <==> |ids| == |xs|)
      ensures old(names) <= names && NamedBy(names, ids, xs[..|ids|])
      ensures forall i {:trigger syms[i]} :: 0 <= i < old(|syms|) ==> syms[i].canon == old(syms[i].canon)
      ensures !ok ==> |syms| > hashes.Length / 2 && !exists p: nat :: IsSize(p) && p > hashes.Length
      ensures old(Exact() && AllKeysAgree(t, names + xs) && GrowthCovers(|names| + |xs|)) ==>
        Exact() && (names, ids) == InternAll(old(names), xs[..|ids|]) && KindsShared(t, syms, ids, xs[..|ids|])
      ensures hashes == old(hashes) || fresh(hashes)
    {
      hide AllKeysAgree, KeysAgree, AliasOk, HashOk, PoolOk, SymsOk, IsSize, Covering, GrowthCovers, NextCovers,
        Interned, KindsShared;
      hide CanonIsKind, Distinct, NamedBy, LinksOk, SlotsBelow;
      ghost var exact := Exact() && AllKeysAgree(t, names + xs) && GrowthCovers(|names| + |xs|);
      ids, ok := [], true;
      var k := 0;
      NothingNamed(names);
      assert xs[..0] == [];
      while k < |xs|
        invariant 0 <= k == |ids| <= |xs| && ok && Valid()
        invariant old(names) <= names && NamedBy(names, ids, xs[..k])
        invariant forall i {:trigger syms[i]} :: 0 <= i < old(|syms|) ==> syms[i].canon == old(syms[i].canon)
        invariant exact ==> Exact() && (names, ids) == InternAll(old(names), xs[..k])
        invariant hashes == old(hashes) || fresh(hashes)
      {
        if exact {
          RunAgrees(t, old(names), xs, k);
          RunGrowth(old(names), xs, k, hashes.Length);
        }
        ghost var was := names;
        var r := MakeWord(xs[k]);
        if r.SizeLimit? {
          ok := false;
          break;
        }
        assert xs[..k + 1][..k] == xs[..k] && xs[..k + 1] == xs[..k] + [xs[k]];
        NamedGrows(was, names, ids, xs[..k], xs[k], r.id);
        ids := ids + [r.id];
        k := k + 1;
      }
      if exact {
        RunKinds(t, syms, names, ids, xs[..|ids|]);
      }
    }
  }

  lemma StartDistinct()
    ensures Distinct([[]])
  {
  }

  lemma NoSizeAbove(len: nat)
    requires !exists p: nat :: IsSize(p) && p > len
    ensures len >= NO_WRAP
  {
    assert PRIMES[7] == NO_WRAP;
    assert IsSize(NO_WRAP);
  }

  /**
   * From Init_Words on, without further conditions: up to 16373 ASCII names, equal ones any number of times, get
   * equal numbers exactly when they are equal and one canon exactly when they match but for case.
   */
  method MakeAsciiWords(tables: Tables, xs: seq<Name>) returns (table: Table, ids: seq<nat>)
    requires |tables.crc24| == 256 && |xs| < NO_WRAP / 2
    requires forall k :: 0 <= k < |xs| ==> IsAscii(xs[k]) && 0 !in xs[k]
    ensures fresh(table) && table.Valid() && table.t == tables
    ensures (table.names, ids) == InternAll([[]], xs)
    ensures forall k, l :: 0 <= k < |xs| && 0 <= l < |xs| ==> (ids[k] == ids[l] <==> xs[k] == xs[l])
    ensures KindsShared(tables, table.syms, ids, xs)
  {
    hide IsAscii, AllKeysAgree, GrowthCovers, InternAll, KindsShared, SymsOk, AliasOk, HashOk, PoolOk, IsSize,
      Covering, CaseEqual, Distinct;
    StartDistinct();
    table := new Table(tables);
    AsciiRunAgrees(tables, xs);
    SmallGrowthCovers(1 + |xs|);
    var ok;
    ids, ok := table.MakeWords(xs);
    if !ok {
      InternAllGrows([[]], xs[..|ids|]);
      NoSizeAbove(table.hashes.Length);
      assert false;
    }
    assert xs[..|xs|] == xs;
    forall k, l | 0 <= k < |xs| && 0 <= l < |xs|
      ensures ids[k] == ids[l] <==> xs[k] == xs[l]
    {
      InternAllInjective([[]], xs, k, l);
    }
  }

  lemma DiaeresisSlots(t: Tables)
    requires |t.crc24| == 256 && t.crc24[0xFF] == 0xDD8538 && |t.lower| == 0x2E00
    requires t.lower[0xFF] == 0xFF && t.lower[0x178] == 0xFF && t.lower[0xC3] == 0xE3 && t.lower[0xC5] == 0xE5
    ensures Probe(Key(t, [0xFF]), 0, 8191) == 1827 && Probe(Key(t, [0x178]), 0, 8191) == 2339
    ensures CaseEqual(t, [0xFF], [0x178])
  {
    hide Key;
    DiaeresisKeys(t);
    assert CaseEqualPoint(t, 0xFF, 0x178);
  }

  /**
   * Where the hash does not agree, case variants become different words: in the initial table U+00FF and its capital
   * U+0178 get two canons.
   */
  method MakeDiaeresis(tables: Tables) returns (table: Table, small: nat, capital: nat)
    requires |tables.crc24| == 256 && tables.crc24[0xFF] == 0xDD8538 && |tables.lower| == 0x2E00
    requires tables.lower[0xFF] == 0xFF && tables.lower[0x178] == 0xFF
    requires tables.lower[0xC3] == 0xE3 && tables.lower[0xC5] == 0xE5
    ensures fresh(table) && table.Valid() && table.t == tables
    ensures small < |table.names| && capital < |table.names| == |table.syms|
    ensures table.names[small] == [0xFF] && table.names[capital] == [0x178] && CaseEqual(tables, [0xFF], [0x178])
    ensures table.syms[small].canon != table.syms[capital].canon
  {
    hide Key, Probe, CaseEqual, AllKeysAgree, KeysAgree, AliasOk, HashOk, PoolOk, SymsOk, IsSize, Covering,
      CanonIsKind, LinksOk, SlotsBelow;
    hide Interned, Table.Exact, NextCovers;
    DiaeresisSlots(tables);
    table := new Table(tables);
    var r := table.MakeWord([0xFF]);
    small := r.id;
    assert table.hashes[..][2339] == 0;
    r := table.MakeWord([0x178]);
    capital := r.id;
  }
}

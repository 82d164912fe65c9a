/** The word table of c-word.c: an open-addressed hash array over symbols, with alias chains for case variants. */
module WordTable {
  import opened HashProbe
  import opened WordHash

  /** Table sizes, ended by a zero. */
  const PRIMES: seq<nat> := [
    251, 509, 1021, 2039, 4093, 8191, 16381, 32749, 65521, 131071, 262139, 524287, 1048573, 2097143,
    4194301, 8388593, 16777213, 33554393, 67108859, 134217689, 268435399, 0]

  /** A symbol: its canon word, the next case variant or 0, and where its name starts in the name pool. */
  datatype Sym = Sym(canon: nat, alias: nat, nindex: nat)

  /** The outcome of Make_Word: a symbol number, or the trap for exceeding the largest size. */
  datatype Made = Made(id: nat) | SizeLimit

  // ---- Table sizes ----

  ghost predicate IsSize(p: nat) {
    p in PRIMES && p != 0
  }

  lemma SizesAscend(n: nat)
    requires n < |PRIMES|
    ensures forall k :: n < k < |PRIMES| - 1 ==> PRIMES[n] < PRIMES[k]
    ensures PRIMES[n] == 0 <==> n == |PRIMES| - 1
  {
  }

  /** Every size is at or past place n of the list, or before it. */
  lemma SizesAround(n: nat)
    requires n < |PRIMES|
    ensures PRIMES[n] != 0 ==> IsSize(PRIMES[n])
    ensures forall q: nat :: IsSize(q) ==> (n > 0 && q <= PRIMES[n - 1]) || (PRIMES[n] != 0 && q >= PRIMES[n])
  {
    forall q: nat | IsSize(q)
      ensures (n > 0 && q <= PRIMES[n - 1]) || (PRIMES[n] != 0 && q >= PRIMES[n])
    {
      var k :| 0 <= k < |PRIMES| && PRIMES[k] == q;
      SizesAscend(n);
      SizesAscend(k);
    }
  }

  /** Get_Hash_Prime: the smallest table size that is at least `size`, or 0. */
  method GetHashPrime(size: nat) returns (p: nat)
    ensures p != 0 ==> IsSize(p) && p >= size && forall q: nat :: IsSize(q) && q >= size ==> p <= q
    ensures p == 0 ==> forall q: nat :: IsSize(q) ==> q < size
  {
    var n := 0;
    while PRIMES[n] != 0 && size > PRIMES[n]
      invariant 0 <= n < |PRIMES|
      invariant n > 0 ==> PRIMES[n - 1] < size
      decreases |PRIMES| - n
    {
      SizesAscend(n);
      n := n + 1;
    }
    p := PRIMES[n];
    SizesAround(n);
  }

  lemma SizeAt(k: nat)
    requires k < |PRIMES| - 1
    ensures PRIMES[k] % 2 == 1 && PRIMES[k] >= 251
  {
  }

  lemma SizesOdd(p: nat)
    requires IsSize(p)
    ensures p % 2 == 1 && p >= 251
  {
    var k :| 0 <= k < |PRIMES| && PRIMES[k] == p;
    SizeAt(k);
  }

  /** Every size up to 32749 has the covering property, which is all the table needs of it. */
  lemma SmallSizesCover(p: nat)
    requires IsSize(p) && p <= NO_WRAP
    ensures Covering(p)
  {
    if p == 251 { Prime251(); }
    else if p == 509 { Prime509(); }
    else if p == 1021 { Prime1021(); }
    else if p == 2039 { Prime2039(); }
    else if p == 4093 { Prime4093(); }
    else if p == 8191 { Prime8191(); }
    else if p == 16381 { Prime16381(); }
    else { Prime32749(); }
    PrimeCovers(p);
  }

  // ---- What the symbols promise ----

  /** Spellings are distinct, and two symbols share a canon exactly when they differ only in case. */
  ghost predicate SymsOk(t: Tables, syms: seq<Sym>, names: seq<Name>) {
    && |syms| == |names| >= 1
    && (forall i {:trigger syms[i]} :: 1 <= i < |syms| ==>
      1 <= syms[i].canon <= i && syms[syms[i].canon].canon == syms[i].canon)
    && (forall i, j {:trigger names[i], names[j]} :: 1 <= i < j < |syms| ==> names[i] != names[j])
    && (forall i, j {:trigger syms[i], syms[j]} :: 1 <= i < |syms| && 1 <= j < |syms| ==>
          (syms[i].canon == syms[j].canon <==> CaseEqual(t, names[i], names[j])))
  }

  /** The alias of a symbol is the next symbol with the same canon. */
  ghost predicate AliasOk(syms: seq<Sym>) {
    && (forall i {:trigger syms[i]} :: 1 <= i < |syms| && syms[i].alias != 0 ==>
          i < syms[i].alias < |syms| && syms[syms[i].alias].canon == syms[i].canon)
    && (forall i, j {:trigger syms[i], syms[j]} :: 1 <= i < j < |syms| && syms[j].canon == syms[i].canon ==>
          syms[i].alias != 0 && syms[i].alias <= j)
  }

  /** The slot is taken by a symbol of another canon than c. */
  ghost predicate Other(h: seq<nat>, syms: seq<Sym>, c: nat, slot: nat)
    requires slot < |h|
  {
    h[slot] != 0 && h[slot] < |syms| && syms[h[slot]].canon != c
  }

  /** Symbol c is found at the first probe of its name that holds a symbol of its kind. */
  ghost predicate PlacedAt(h: seq<nat>, syms: seq<Sym>, key: nat, c: nat, i: nat)
    requires |h| > 0
  {
    && i < |h| && h[Probe(key, i, |h|)] == c
    && forall j {:trigger Probe(key, j, |h|)} :: 0 <= j < i ==> Other(h, syms, c, Probe(key, j, |h|))
  }

  ghost predicate Placed(h: seq<nat>, syms: seq<Sym>, key: nat, c: nat)
    requires |h| > 0
  {
    exists i: nat :: PlacedAt(h, syms, key, c, i)
  }

  /** Slots hold symbols, each at most once. */
  ghost predicate SlotsOk(h: seq<nat>, n: nat) {
    && (forall k {:trigger h[k]} :: 0 <= k < |h| ==> h[k] < n)
    && (forall k, l {:trigger h[k], h[l]} :: 0 <= k < l < |h| && h[k] != 0 ==> h[k] != h[l])
  }

  ghost predicate HashOk(t: Tables, h: seq<nat>, syms: seq<Sym>, names: seq<Name>)
    requires |t.crc24| == 256 && |syms| == |names| && |h| > 0
  {
    && SlotsOk(h, |syms|)
    && forall c {:trigger syms[c]} :: 1 <= c < |syms| && syms[c].canon == c ==> Placed(h, syms, Key(t, names[c]), c)
  }

  /** The word hash gives case variants one value. */
  ghost predicate KeysAgree(t: Tables, names: seq<Name>, x: Name)
    requires |t.crc24| == 256
  {
    forall i {:trigger names[i]} :: 1 <= i < |names| && CaseEqual(t, names[i], x) ==> Key(t, names[i]) == Key(t, x)
  }

  ghost predicate AllKeysAgree(t: Tables, names: seq<Name>)
    requires |t.crc24| == 256
  {
    forall i {:trigger names[i]} :: 1 <= i < |names| ==> KeysAgree(t, names, names[i])
  }

  // ---- The empty slot ----

  ghost function Taken(h: seq<nat>): set<nat> {
    set k: nat | k < |h| && h[k] != 0
  }

  /** There are no more taken slots than symbols. */
  lemma {:induction false} TakenBound(h: seq<nat>, n: nat)
    requires n >= 1 && SlotsOk(h, n)
    ensures |Taken(h)| <= n - 1
    decreases n
  {
    if n == 1 {
      assert Taken(h) == {};
    } else if exists k: nat :: k < |h| && h[k] == n - 1 {
      var k: nat :| k < |h| && h[k] == n - 1;
      var g := h[k := 0];
      TakenBound(g, n - 1);
      assert Taken(h) == Taken(g) + {k};
    } else {
      TakenBound(h, n - 1);
    }
  }

  /** A probe sequence always meets an empty slot. */
  lemma {:induction false} EmptyProbe(h: seq<nat>, n: nat, key: nat) returns (i: nat)
    requires n >= 1 && SlotsOk(h, n) && 2 * (n - 1) < |h| && Covering(|h|)
    ensures i < |h| && h[Probe(key, i, |h|)] == 0
  {
    TakenBound(h, n);
    assert HasFree(key, Taken(h), |h|);
    i :| i < |h| && Probe(key, i, |h|) !in Taken(h);
  }

  // ---- Searching ----

  ghost predicate NoMatch(t: Tables, h: seq<nat>, names: seq<Name>, x: Name, slot: nat)
    requires slot < |h|
  {
    h[slot] != 0 && h[slot] < |names| && !CaseEqual(t, names[h[slot]], x)
  }

  /** No probe before i shows an empty slot or a symbol that matches x but for case. */
  ghost predicate Missed(t: Tables, h: seq<nat>, names: seq<Name>, x: Name, key: nat, i: nat)
    requires |h| > 0
  {
    forall j {:trigger Probe(key, j, |h|)} :: 0 <= j < i ==> NoMatch(t, h, names, x, Probe(key, j, |h|))
  }

  lemma {:induction false} SameKind(t: Tables, syms: seq<Sym>, names: seq<Name>, x: Name, s: nat)
    requires |t.crc24| == 256 && SymsOk(t, syms, names) && KeysAgree(t, names, x)
    requires 1 <= s < |syms| && CaseEqual(t, names[s], x)
    ensures var c := syms[s].canon;
      1 <= c <= s && syms[c].canon == c && CaseEqual(t, names[c], x) && Key(t, names[c]) == Key(t, x)
  {
    var c := syms[s].canon;
    assert syms[c].canon == c;
    assert CaseEqual(t, names[c], names[s]);
    CaseEqualEquivalence(t, names[c], names[s], x);
  }

  lemma {:induction false} MissedAt(t: Tables, h: seq<nat>, names: seq<Name>, x: Name, key: nat, i: nat, j: nat)
    requires |h| > 0 && Missed(t, h, names, x, key, i) && j < i
    ensures NoMatch(t, h, names, x, Probe(key, j, |h|))
  {
  }

  lemma {:induction false} PlacedBefore(h: seq<nat>, syms: seq<Sym>, key: nat, c: nat, i: nat, j: nat)
    requires |h| > 0 && PlacedAt(h, syms, key, c, i) && j < i
    ensures Other(h, syms, c, Probe(key, j, |h|))
  {
  }

  lemma {:induction false} WhereFirst(t: Tables, h: seq<nat>, syms: seq<Sym>, names: seq<Name>, x: Name, key: nat,
      i: nat, c: nat)
    requires |h| > 0 && SymsOk(t, syms, names) && Placed(h, syms, key, c) && Missed(t, h, names, x, key, i) && i < |h|
    requires 1 <= c < |syms| && syms[c].canon == c && CaseEqual(t, names[c], x)
    requires var s := h[Probe(key, i, |h|)]; s != 0 && s < |names| && CaseEqual(t, names[s], x)
    ensures h[Probe(key, i, |h|)] == c
  {
    hide Probe;
    var k: nat :| PlacedAt(h, syms, key, c, k);
    var s := h[Probe(key, i, |h|)];
    assert CaseEqual(t, names[s], names[c]) by {
      CaseEqualEquivalence(t, names[c], x, names[s]);
      CaseEqualEquivalence(t, names[s], x, names[c]);
      CaseEqualEquivalence(t, x, names[c], names[s]);
    }
    assert syms[s].canon == c;
    if i < k {
      PlacedBefore(h, syms, key, c, k, i);
    } else if k < i {
      MissedAt(t, h, names, x, key, i, k);
    }
  }

  /** The first match of a search is the canon of its kind. */
  lemma {:induction false} FirstMatch(t: Tables, h: seq<nat>, syms: seq<Sym>, names: seq<Name>, x: Name, key: nat,
      i: nat)
    requires |t.crc24| == 256 && |h| > 0 && SymsOk(t, syms, names) && HashOk(t, h, syms, names)
    requires KeysAgree(t, names, x) && key == Key(t, x) && Missed(t, h, names, x, key, i) && i < |h|
    requires var s := h[Probe(key, i, |h|)]; s != 0 && s < |names| && CaseEqual(t, names[s], x)
    ensures var s := h[Probe(key, i, |h|)]; syms[s].canon == s
  {
    var s := h[Probe(key, i, |h|)];
    var c := syms[s].canon;
    hide Key, Probe, CaseEqual, SlotsOk, Placed;
    SameKind(t, syms, names, x, s);
    assert Placed(h, syms, key, c);
    WhereFirst(t, h, syms, names, x, key, i, c);
  }

  lemma {:induction false} NotEmpty(t: Tables, h: seq<nat>, syms: seq<Sym>, names: seq<Name>, x: Name, key: nat,
      i: nat, c: nat)
    requires |t.crc24| == 256 && |h| > 0 && |syms| == |names| && HashOk(t, h, syms, names)
    requires Missed(t, h, names, x, key, i) && i < |h|
    requires 1 <= c < |syms| && syms[c].canon == c && CaseEqual(t, names[c], x) && Key(t, names[c]) == key
    ensures h[Probe(key, i, |h|)] != 0
  {
    hide Probe, Key;
    assert Placed(h, syms, key, c);
    var k: nat :| PlacedAt(h, syms, key, c, k);
    if k < i {
      MissedAt(t, h, names, x, key, i, k);
    } else if i < k {
      PlacedBefore(h, syms, key, c, k, i);
    }
  }

  /** An empty slot on the probe sequence shows that no symbol matches. */
  lemma {:induction false} EmptyMeansNew(t: Tables, h: seq<nat>, syms: seq<Sym>, names: seq<Name>, x: Name, key: nat,
      i: nat)
    requires |t.crc24| == 256 && |h| > 0 && SymsOk(t, syms, names) && HashOk(t, h, syms, names)
    requires KeysAgree(t, names, x) && key == Key(t, x) && Missed(t, h, names, x, key, i) && i < |h|
    requires h[Probe(key, i, |h|)] == 0
    ensures forall s {:trigger names[s]} :: 1 <= s < |names| ==> !CaseEqual(t, names[s], x)
  {
    forall s {:trigger names[s]} | 1 <= s < |names|
      ensures !CaseEqual(t, names[s], x)
    {
      if CaseEqual(t, names[s], x) {
        var c := syms[s].canon;
        SameKind(t, syms, names, x, s);
        NotEmpty(t, h, syms, names, x, key, i, c);
      }
    }
  }

  // ---- Adding a symbol ----

  lemma {:induction false} AliasChained(syms: seq<Sym>, r: seq<Sym>, h: nat)
    requires AliasOk(syms) && 1 <= h < |syms| && syms[h].alias == 0 && |r| == |syms| + 1
    requires forall i {:trigger r[i]} :: 0 <= i < |syms| ==>
               r[i].canon == syms[i].canon && r[i].alias == if i == h then |syms| else syms[i].alias
    requires r[|syms|].canon == syms[h].canon && r[|syms|].alias == 0
    ensures AliasOk(r)
  {
    var n := |syms|;
    forall i, j | 1 <= i < j < |r| && r[j].canon == r[i].canon
      ensures r[i].alias != 0 && r[i].alias <= j
    {
      if j < n {
        assert syms[i].alias != 0 && syms[i].alias <= j;
      } else if i < h {
        assert syms[i].alias != 0 && syms[i].alias <= h;
      }
    }
  }

  lemma {:induction false} NewKinds(t: Tables, syms: seq<Sym>, names: seq<Name>, r: seq<Sym>, x: Name, i: nat, j: nat)
    requires SymsOk(t, syms, names) && |r| == |syms| + 1
    requires forall i {:trigger r[i]} :: 0 <= i < |syms| ==> r[i].canon == syms[i].canon
    requires forall i :: 1 <= i < |syms| ==> (syms[i].canon == r[|syms|].canon <==> CaseEqual(t, names[i], x))
    requires 1 <= i < |r| && 1 <= j < |r|
    ensures r[i].canon == r[j].canon <==> CaseEqual(t, (names + [x])[i], (names + [x])[j])
  {
    var n := |syms|;
    CaseEqualEquivalence(t, x, if j < n then names[j] else x, x);
    CaseEqualEquivalence(t, if j < n then names[j] else x, x, x);
    hide CaseEqual;
    if i < n && j < n {
      assert syms[i].canon == syms[j].canon <==> CaseEqual(t, names[i], names[j]);
    }
  }

  lemma {:induction false} NewSymOk(t: Tables, syms: seq<Sym>, names: seq<Name>, r: seq<Sym>, x: Name)
    requires SymsOk(t, syms, names) && |r| == |syms| + 1
    requires forall i {:trigger r[i]} :: 0 <= i < |syms| ==> r[i].canon == syms[i].canon
    requires 1 <= r[|syms|].canon <= |syms| && r[r[|syms|].canon].canon == r[|syms|].canon
    requires forall i :: 1 <= i < |syms| ==> names[i] != x
    requires forall i :: 1 <= i < |syms| ==> (syms[i].canon == r[|syms|].canon <==> CaseEqual(t, names[i], x))
    ensures SymsOk(t, r, names + [x])
  {
    var m := names + [x];
    hide CaseEqual;
    forall i, j {:trigger r[i], r[j]} | 1 <= i < |r| && 1 <= j < |r|
      ensures r[i].canon == r[j].canon <==> CaseEqual(t, m[i], m[j])
    {
      NewKinds(t, syms, names, r, x, i, j);
    }
    forall i {:trigger r[i]} | 1 <= i < |r|
      ensures 1 <= r[i].canon <= i && r[r[i].canon].canon == r[i].canon
    {
      if i < |syms| {
        assert syms[syms[i].canon].canon == syms[i].canon;
      }
    }
  }

  /** A new case variant: the last symbol h of the chain gets it as its alias. */
  lemma {:induction false} AliasAdded(t: Tables, syms: seq<Sym>, names: seq<Name>, h: nat, x: Name, pos: nat)
    requires SymsOk(t, syms, names) && AliasOk(syms)
    requires 1 <= h < |syms| && syms[h].alias == 0 && CaseEqual(t, names[h], x)
    requires forall s {:trigger names[s]} :: 1 <= s < |names| ==> names[s] != x
    ensures var r := syms[h := syms[h].(alias := |syms|)] + [Sym(syms[h].canon, 0, pos)];
      SymsOk(t, r, names + [x]) && AliasOk(r)
  {
    var n := |syms|;
    var r := syms[h := syms[h].(alias := n)] + [Sym(syms[h].canon, 0, pos)];
    assert forall i {:trigger r[i]} :: 0 <= i < n ==> r[i].canon == syms[i].canon;
    assert syms[h].canon <= h && r[syms[h].canon].canon == syms[h].canon;
    AliasChained(syms, r, h);
    hide CaseEqual, AliasOk;
    forall i | 1 <= i < n
      ensures syms[i].canon == syms[h].canon <==> CaseEqual(t, names[i], x)
    {
      CaseEqualEquivalence(t, names[i], names[h], x);
      CaseEqualEquivalence(t, names[i], x, names[h]);
      CaseEqualEquivalence(t, names[h], x, names[h]);
    }
    NewSymOk(t, syms, names, r, x);
  }

  /** A new kind of word: its symbol is its own canon. */
  lemma {:induction false} CanonAdded(t: Tables, syms: seq<Sym>, names: seq<Name>, x: Name, pos: nat)
    requires SymsOk(t, syms, names) && AliasOk(syms)
    requires forall s {:trigger names[s]} :: 1 <= s < |names| ==> !CaseEqual(t, names[s], x)
    ensures var r := syms + [Sym(|syms|, 0, pos)];
      SymsOk(t, r, names + [x]) && AliasOk(r)
  {
    var n := |syms|;
    var r := syms + [Sym(n, 0, pos)];
    CaseEqualEquivalence(t, x, x, x);
    hide CaseEqual;
    forall i | 1 <= i < n
      ensures syms[i].canon == n <==> CaseEqual(t, names[i], x)
      ensures names[i] != x
    {
    }
    NewSymOk(t, syms, names, r, x);
  }

  /** Filling an empty slot and adding symbols disturbs no placement. */
  lemma {:induction false} PlacedGrow(h: seq<nat>, g: seq<nat>, syms: seq<Sym>, r: seq<Sym>, key: nat, c: nat)
    requires |g| == |h| > 0 && c != 0 && Placed(h, syms, key, c)
    requires forall k {:trigger g[k]} :: 0 <= k < |h| && h[k] != 0 ==> g[k] == h[k]
    requires |r| >= |syms| && forall i {:trigger r[i]} :: 0 <= i < |syms| ==> r[i].canon == syms[i].canon
    ensures Placed(g, r, key, c)
  {
    hide Probe;
    var i: nat :| PlacedAt(h, syms, key, c, i);
    forall j {:trigger Probe(key, j, |g|)} | 0 <= j < i
      ensures Other(g, r, c, Probe(key, j, |g|))
    {
      assert Other(h, syms, c, Probe(key, j, |h|));
    }
    assert PlacedAt(g, r, key, c, i);
  }

  /** An alias leaves the hash array alone. */
  lemma {:induction false} AliasHash(t: Tables, h: seq<nat>, syms: seq<Sym>, names: seq<Name>, r: seq<Sym>, x: Name)
    requires |t.crc24| == 256 && |h| > 0 && |syms| == |names| && HashOk(t, h, syms, names)
    requires |r| == |syms| + 1 && forall i {:trigger r[i]} :: 0 <= i < |syms| ==> r[i].canon == syms[i].canon
    requires r[|syms|].canon < |syms|
    ensures HashOk(t, h, r, names + [x])
  {
    hide Placed, Key;
    forall c {:trigger r[c]} | 1 <= c < |r| && r[c].canon == c
      ensures Placed(h, r, Key(t, (names + [x])[c]), c)
    {
      assert syms[c].canon == c;
      PlacedGrow(h, h, syms, r, Key(t, names[c]), c);
    }
  }

  lemma {:induction false} CanonPlaced(t: Tables, h: seq<nat>, g: seq<nat>, syms: seq<Sym>, names: seq<Name>,
      r: seq<Sym>, x: Name, key: nat, i: nat)
    requires |h| > 0 && SymsOk(t, syms, names) && i < |h| && g == h[Probe(key, i, |h|) := |syms|]
    requires |r| == |syms| + 1 && forall k {:trigger r[k]} :: 0 <= k < |syms| ==> r[k].canon == syms[k].canon
    requires h[Probe(key, i, |h|)] == 0 && Missed(t, h, names, x, key, i)
    ensures Placed(g, r, key, |syms|)
  {
    hide Probe;
    forall j {:trigger Probe(key, j, |g|)} | 0 <= j < i
      ensures Other(g, r, |syms|, Probe(key, j, |g|))
    {
      MissedAt(t, h, names, x, key, i, j);
    }
    assert PlacedAt(g, r, key, |syms|, i);
  }

  /** A canon word goes into the empty slot its search ended at. */
  lemma {:induction false} CanonHash(t: Tables, h: seq<nat>, syms: seq<Sym>, names: seq<Name>, r: seq<Sym>, x: Name,
      key: nat, i: nat)
    requires |t.crc24| == 256 && |h| > 0 && SymsOk(t, syms, names) && HashOk(t, h, syms, names)
    requires |r| == |syms| + 1 && forall k {:trigger r[k]} :: 0 <= k < |syms| ==> r[k].canon == syms[k].canon
    requires r[|syms|].canon == |syms| && key == Key(t, x)
    requires i < |h| && h[Probe(key, i, |h|)] == 0 && Missed(t, h, names, x, key, i)
    ensures HashOk(t, h[Probe(key, i, |h|) := |syms|], r, names + [x])
  {
    var n := |syms|;
    var g := h[Probe(key, i, |h|) := n];
    CanonPlaced(t, h, g, syms, names, r, x, key, i);
    hide Placed, Key, Probe, Missed;
    forall c {:trigger r[c]} | 1 <= c < |r| && r[c].canon == c
      ensures Placed(g, r, Key(t, (names + [x])[c]), c)
    {
      if c < n {
        assert syms[c].canon == c;
        PlacedGrow(h, g, syms, r, Key(t, names[c]), c);
      }
    }
  }

  // ---- Rehashing ----

  ghost predicate Older(g: seq<nat>, m: nat, slot: nat)
    requires slot < |g|
  {
    0 < g[slot] < m
  }

  /** Symbol m sits at probe i of its name, and every earlier probe holds an older symbol. */
  ghost predicate SeatedAt(g: seq<nat>, key: nat, m: nat, i: nat)
    requires |g| > 0
  {
    && i < |g| && g[Probe(key, i, |g|)] == m
    && forall j {:trigger Probe(key, j, |g|)} :: 0 <= j < i ==> Older(g, m, Probe(key, j, |g|))
  }

  ghost predicate Seated(g: seq<nat>, key: nat, m: nat)
    requires |g| > 0
  {
    exists i: nat :: SeatedAt(g, key, m, i)
  }

  /** The symbols below n have been entered in order. */
  ghost predicate Rehashed(t: Tables, g: seq<nat>, names: seq<Name>, n: nat)
    requires |t.crc24| == 256 && |g| > 0 && n <= |names|
  {
    SlotsOk(g, n) && forall m {:trigger names[m]} :: 1 <= m < n ==> Seated(g, Key(t, names[m]), m)
  }

  ghost predicate AllTaken(g: seq<nat>, key: nat, i: nat)
    requires |g| > 0
  {
    forall j {:trigger Probe(key, j, |g|)} :: 0 <= j < i ==> g[Probe(key, j, |g|)] != 0
  }

  lemma {:induction false} SeatedGrow(g: seq<nat>, r: seq<nat>, key: nat, m: nat)
    requires |r| == |g| > 0 && m != 0 && Seated(g, key, m)
    requires forall k {:trigger r[k]} :: 0 <= k < |g| && g[k] != 0 ==> r[k] == g[k]
    ensures Seated(r, key, m)
  {
    hide Probe;
    var i: nat :| SeatedAt(g, key, m, i);
    forall j {:trigger Probe(key, j, |r|)} | 0 <= j < i
      ensures Older(r, m, Probe(key, j, |r|))
    {
      assert Older(g, m, Probe(key, j, |g|));
    }
    assert SeatedAt(r, key, m, i);
  }

  lemma {:induction false} RehashStep(t: Tables, g: seq<nat>, names: seq<Name>, n: nat, key: nat, i: nat)
    requires |t.crc24| == 256 && |g| > 0 && 1 <= n < |names| && Rehashed(t, g, names, n)
    requires key == Key(t, names[n]) && i < |g| && g[Probe(key, i, |g|)] == 0 && AllTaken(g, key, i)
    ensures Rehashed(t, g[Probe(key, i, |g|) := n], names, n + 1)
  {
    hide Key, Probe;
    var r := g[Probe(key, i, |g|) := n];
    forall m {:trigger names[m]} | 1 <= m < n
      ensures Seated(r, Key(t, names[m]), m)
    {
      SeatedGrow(g, r, Key(t, names[m]), m);
    }
    forall j {:trigger Probe(key, j, |r|)} | 0 <= j < i
      ensures Older(r, n, Probe(key, j, |r|))
    {
      assert g[Probe(key, j, |g|)] != 0;
    }
    assert SeatedAt(r, key, n, i);
  }

  lemma {:induction false} SeatedPlaced(t: Tables, g: seq<nat>, syms: seq<Sym>, names: seq<Name>, key: nat, c: nat)
    requires |g| > 0 && SymsOk(t, syms, names) && 1 <= c < |syms| && Seated(g, key, c)
    ensures Placed(g, syms, key, c)
  {
    hide Probe, CaseEqual;
    var i: nat :| SeatedAt(g, key, c, i);
    forall j {:trigger Probe(key, j, |g|)} | 0 <= j < i
      ensures Other(g, syms, c, Probe(key, j, |g|))
    {
      assert Older(g, c, Probe(key, j, |g|));
    }
    assert PlacedAt(g, syms, key, c, i);
  }

  /** A completely rehashed array places every canon: what sits before it is older, hence of another kind. */
  lemma {:induction false} RehashDone(t: Tables, g: seq<nat>, syms: seq<Sym>, names: seq<Name>)
    requires |t.crc24| == 256 && |g| > 0 && SymsOk(t, syms, names) && Rehashed(t, g, names, |names|)
    ensures HashOk(t, g, syms, names)
  {
    hide Key, Placed, Seated;
    forall c {:trigger syms[c]} | 1 <= c < |syms| && syms[c].canon == c
      ensures Placed(g, syms, Key(t, names[c]), c)
    {
      assert names[c] == names[c];
      SeatedPlaced(t, g, syms, names, Key(t, names[c]), c);
    }
  }

  // ---- The name pool ----

  /** The characters from pos up to the next zero. */
  function NameAt(pool: seq<nat>, pos: nat): Name
    decreases |pool| - pos
  {
    if pos >= |pool| || pool[pos] == 0 then [] else [pool[pos]] + NameAt(pool, pos + 1)
  }

  lemma {:induction false} NameAtIs(pool: seq<nat>, pos: nat, x: Name)
    requires pos + |x| < |pool| && pool[pos + |x|] == 0
    requires forall k {:trigger x[k]} :: 0 <= k < |x| ==> x[k] != 0 && pool[pos + k] == x[k]
    ensures NameAt(pool, pos) == x
    decreases |x|
  {
    if |x| > 0 {
      assert pool[pos + 0] == x[0];
      forall k {:trigger x[1..][k]} | 0 <= k < |x| - 1
        ensures x[1..][k] != 0 && pool[pos + 1 + k] == x[1..][k]
      {
        assert x[1..][k] == x[k + 1];
      }
      NameAtIs(pool, pos + 1, x[1..]);
      assert x == [x[0]] + x[1..];
    }
  }

  ghost predicate NamePlaced(pool: seq<nat>, pos: nat, x: Name) {
    && pos + |x| < |pool| && pool[pos + |x|] == 0
    && forall k {:trigger x[k]} :: 0 <= k < |x| ==> x[k] != 0 && pool[pos + k] == x[k]
  }

  /** Every symbol's name stands in the pool, closed by a zero. */
  ghost predicate PoolOk(pool: seq<nat>, syms: seq<Sym>, names: seq<Name>) {
    |syms| == |names| && forall i {:trigger names[i]} :: 1 <= i < |names| ==> NamePlaced(pool, syms[i].nindex, names[i])
  }

  lemma {:induction false} PoolGrows(pool: seq<nat>, syms: seq<Sym>, names: seq<Name>, r: seq<Sym>, x: Name)
    requires PoolOk(pool, syms, names) && 0 !in x && |r| == |syms| + 1
    requires forall i {:trigger r[i]} :: 0 <= i < |syms| ==> r[i].nindex == syms[i].nindex
    requires r[|syms|].nindex == |pool|
    ensures PoolOk(pool + x + [0], r, names + [x])
  {
    var q, m := pool + x + [0], names + [x];
    forall i {:trigger m[i]} | 1 <= i < |m|
      ensures NamePlaced(q, r[i].nindex, m[i])
    {
      if i < |names| {
        assert NamePlaced(pool, syms[i].nindex, names[i]);
        assert r[i].nindex == syms[i].nindex;
      }
    }
  }
}

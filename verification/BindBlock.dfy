/** Binding the words of a block to a frame: Bind_Block, its inner loop, and Append_Frame. */
module BindBlock {
  import opened Binding
  import opened Collecting
  import opened BindTable
  import opened BindMeaning

  /** ANY_BLOCK_OR_MAP, the blocks the inner loop of Bind_Block enters. */
  const ALL_BLOCKS: set<BlockKind> := {Block, Paren, Path, Map}

  datatype Cell = Unset | Filled(id: int)

  // ---- The meaning of binding ----

  /** IS_SELFLESS, negated. */
  predicate Selfish(words: seq<FrameWord>)
    requires |words| >= 1
  {
    words[0].fsym != 0
  }

  predicate Adds(mode: Mode, v: Value)
    requires v.Word?
  {
    mode.all || (mode.set_ && v.wkind == SetWord)
  }

  /** A word bound to the frame as it stands, after adding it where the mode says so. */
  ghost function BindWord(canon: seq<nat>, mode: Mode, words: seq<FrameWord>, v: Value): (r: (seq<FrameWord>, Value))
    requires CanonTable(canon) && KnownWords(canon, words) && |words| >= 1 && v.Word? && v.sym < |canon|
    ensures words <= r.0 && KnownWords(canon, r.0)
  {
    var n := Lookup(canon, words, canon[v.sym]);
    if n != 0 then (words, v.(target := Slot(n)))
    else if Selfish(words) && canon[v.sym] == SYM_SELF then (words, v.(target := Slot(0)))
    else if Adds(mode, v) then (words + [FrameWord(SetWord, v.sym)], v.(target := Slot(|words|)))
    else (words, v)
  }

  /** The symbols of all words a deep scan would meet are known. */
  ghost predicate KnownBlock(canon: seq<nat>, items: seq<Value>)
    decreases items
  {
    forall i {:trigger items[i]} :: 0 <= i < |items| ==> KnownValue(canon, items[i])
  }

  ghost predicate KnownValue(canon: seq<nat>, v: Value)
    decreases v
  {
    match v
    case Word(_, sym, _) => sym < |canon|
    case Blk(_, sub) => KnownBlock(canon, sub)
    case Other(_) => true
  }

  ghost function BindItems(canon: seq<nat>, mode: Mode, words: seq<FrameWord>, items: seq<Value>):
    (r: (seq<FrameWord>, seq<Value>))
    requires CanonTable(canon) && KnownWords(canon, words) && |words| >= 1 && KnownBlock(canon, items)
    ensures words <= r.0 && KnownWords(canon, r.0) && |r.1| == |items|
    decreases items, |items|
  {
    if |items| == 0 then (words, [])
    else
      var n := |items| - 1;
      var first := BindItems(canon, mode, words, items[..n]);
      var last := BindValue(canon, mode, first.0, items[n]);
      (last.0, first.1 + [last.1])
  }

  ghost function BindValue(canon: seq<nat>, mode: Mode, words: seq<FrameWord>, v: Value): (r: (seq<FrameWord>, Value))
    requires CanonTable(canon) && KnownWords(canon, words) && |words| >= 1 && KnownValue(canon, v)
    ensures words <= r.0 && KnownWords(canon, r.0)
    decreases v
  {
    match v
    case Word(_, _, _) => BindWord(canon, mode, words, v)
    case Blk(k, sub) =>
      if mode.deep then
        var r := BindItems(canon, mode, words, sub);
        (r.0, Blk(k, r.1))
      else (words, v)
    case Other(_) => (words, v)
  }

  // ---- What binding with add-all and deep achieves ----

  /** The word points at the slot that holds its canon. */
  ghost predicate WellBound(canon: seq<nat>, words: seq<FrameWord>, v: Value)
    requires CanonTable(canon) && KnownWords(canon, words) && |words| >= 1 && v.Word?
  {
    && v.sym < |canon| && v.target.Slot? && v.target.index < |words|
    && (v.target.index != 0 ==> canon[words[v.target.index].fsym] == canon[v.sym])
    && (v.target.index == 0 ==> Selfish(words) && canon[v.sym] == SYM_SELF)
  }

  ghost predicate AllBound(canon: seq<nat>, words: seq<FrameWord>, items: seq<Value>)
    requires CanonTable(canon) && KnownWords(canon, words) && |words| >= 1
    decreases items
  {
    forall i {:trigger items[i]} :: 0 <= i < |items| ==> ValueBound(canon, words, items[i])
  }

  ghost predicate ValueBound(canon: seq<nat>, words: seq<FrameWord>, v: Value)
    requires CanonTable(canon) && KnownWords(canon, words) && |words| >= 1
    decreases v
  {
    match v
    case Word(_, _, _) => WellBound(canon, words, v)
    case Blk(_, sub) => AllBound(canon, words, sub)
    case Other(_) => true
  }

  /** A frame that grows keeps every binding right. */
  lemma {:induction false} BoundGrows(canon: seq<nat>, words: seq<FrameWord>, more: seq<FrameWord>, v: Value)
    requires CanonTable(canon) && KnownWords(canon, words) && KnownWords(canon, more) && |words| >= 1 && words <= more
    requires ValueBound(canon, words, v)
    ensures ValueBound(canon, more, v)
    decreases v
  {
    match v
    case Word(_, _, _) =>
      assert more[0] == words[0];
      assert v.target.index < |words| && more[v.target.index] == words[v.target.index];
    case Blk(_, sub) =>
      forall i {:trigger sub[i]} | 0 <= i < |sub|
        ensures ValueBound(canon, more, sub[i])
      {
        BoundGrows(canon, words, more, sub[i]);
      }
    case Other(_) =>
  }

  /** Binding with add-all and deep leaves every word of the block, at any depth, at the slot of its canon. */
  lemma {:induction false} BindAllItems(canon: seq<nat>, mode: Mode, words: seq<FrameWord>, items: seq<Value>)
    requires CanonTable(canon) && KnownWords(canon, words) && |words| >= 1 && KnownBlock(canon, items)
    requires mode.all && mode.deep
    ensures AllBound(canon, BindItems(canon, mode, words, items).0, BindItems(canon, mode, words, items).1)
    decreases items, |items|
  {
    if |items| > 0 {
      var n := |items| - 1;
      var first := BindItems(canon, mode, words, items[..n]);
      var last := BindValue(canon, mode, first.0, items[n]);
      BindAllItems(canon, mode, words, items[..n]);
      BindAllValue(canon, mode, first.0, items[n]);
      var r := first.1 + [last.1];
      forall i {:trigger r[i]} | 0 <= i < |r|
        ensures ValueBound(canon, last.0, r[i])
      {
        if i < n {
          assert r[i] == first.1[i];
          BoundGrows(canon, first.0, last.0, first.1[i]);
        }
      }
    }
  }

  lemma {:induction false} BindAllValue(canon: seq<nat>, mode: Mode, words: seq<FrameWord>, v: Value)
    requires CanonTable(canon) && KnownWords(canon, words) && |words| >= 1 && KnownValue(canon, v)
    requires mode.all && mode.deep
    ensures ValueBound(canon, BindValue(canon, mode, words, v).0, BindValue(canon, mode, words, v).1)
    decreases v
  {
    match v
    case Word(_, _, _) =>
    case Blk(_, sub) => BindAllItems(canon, mode, words, sub);
    case Other(_) =>
  }

  /** Binding keeps the canons of the frame pairwise distinct. */
  lemma {:induction false} BindItemsDistinct(canon: seq<nat>, mode: Mode, words: seq<FrameWord>, items: seq<Value>)
    requires CanonTable(canon) && KnownWords(canon, words) && |words| >= 1 && KnownBlock(canon, items)
    requires DistinctCanons(canon, words)
    ensures DistinctCanons(canon, BindItems(canon, mode, words, items).0)
    decreases items, |items|
  {
    if |items| > 0 {
      var n := |items| - 1;
      var first := BindItems(canon, mode, words, items[..n]);
      BindItemsDistinct(canon, mode, words, items[..n]);
      BindValueDistinct(canon, mode, first.0, items[n]);
    }
  }

  lemma {:induction false} BindValueDistinct(canon: seq<nat>, mode: Mode, words: seq<FrameWord>, v: Value)
    requires CanonTable(canon) && KnownWords(canon, words) && |words| >= 1 && KnownValue(canon, v)
    requires DistinctCanons(canon, words)
    ensures DistinctCanons(canon, BindValue(canon, mode, words, v).0)
    decreases v
  {
    match v
    case Word(_, sym, _) =>
      if Lookup(canon, words, canon[sym]) == 0 {
        NewIsDistinct(canon, words, FrameWord(SetWord, sym));
      }
    case Blk(_, sub) => BindItemsDistinct(canon, mode, words, sub);
    case Other(_) =>
  }

  // ---- Binding changes bindings only ----

  /** The same block but for where its words point. */
  ghost predicate SameShape(items: seq<Value>, r: seq<Value>)
    decreases items
  {
    |items| == |r| && forall i {:trigger items[i]} {:trigger r[i]} :: 0 <= i < |items| ==> SameValue(items[i], r[i])
  }

  ghost predicate SameValue(v: Value, w: Value)
    decreases v
  {
    match v
    case Word(k, s, _) => w.Word? && w.wkind == k && w.sym == s
    case Blk(k, sub) => w.Blk? && w.bkind == k && SameShape(sub, w.items)
    case Other(_) => w == v
  }

  lemma {:induction false} SameSelf(v: Value)
    ensures SameValue(v, v)
    decreases v
  {
    if v.Blk? {
      forall i {:trigger v.items[i]} | 0 <= i < |v.items|
        ensures SameValue(v.items[i], v.items[i])
      {
        SameSelf(v.items[i]);
      }
    }
  }

  lemma {:induction false} BindItemsShape(canon: seq<nat>, mode: Mode, words: seq<FrameWord>, items: seq<Value>)
    requires CanonTable(canon) && KnownWords(canon, words) && |words| >= 1 && KnownBlock(canon, items)
    ensures SameShape(items, BindItems(canon, mode, words, items).1)
    decreases items, |items|
  {
    if |items| > 0 {
      var n := |items| - 1;
      var first := BindItems(canon, mode, words, items[..n]);
      BindItemsShape(canon, mode, words, items[..n]);
      BindValueShape(canon, mode, first.0, items[n]);
      var r := BindItems(canon, mode, words, items).1;
      forall i {:trigger items[i]} | 0 <= i < |items|
        ensures SameValue(items[i], r[i])
      {
        if i < n {
          assert items[..n][i] == items[i] && r[i] == first.1[i];
        }
      }
    }
  }

  lemma {:induction false} BindValueShape(canon: seq<nat>, mode: Mode, words: seq<FrameWord>, v: Value)
    requires CanonTable(canon) && KnownWords(canon, words) && |words| >= 1 && KnownValue(canon, v)
    ensures SameValue(v, BindValue(canon, mode, words, v).1)
    decreases v
  {
    match v
    case Word(_, _, _) =>
    case Blk(_, sub) =>
      if mode.deep {
        BindItemsShape(canon, mode, words, sub);
      } else {
        SameSelf(v);
      }
    case Other(_) =>
  }

  // ---- Which words are added, and in which order ----

  ghost function Syms(words: seq<FrameWord>): (r: seq<nat>)
    ensures |r| == |words| && forall i {:trigger r[i]} :: 0 <= i < |r| ==> r[i] == words[i].fsym
  {
    seq(|words|, i requires 0 <= i < |words| => words[i].fsym)
  }

  lemma {:induction false} LookupSyms(canon: seq<nat>, a: seq<FrameWord>, b: seq<FrameWord>, c: nat)
    requires KnownWords(canon, a) && KnownWords(canon, b) && Syms(a) == Syms(b)
    ensures Lookup(canon, a, c) == Lookup(canon, b, c)
    decreases |a|
  {
    assert |Syms(a)| == |Syms(b)|;
    if |a| > 1 {
      var n := |a| - 1;
      assert Syms(a)[n] == Syms(b)[n];
      assert Syms(a[..n]) == Syms(a)[..n] && Syms(b[..n]) == Syms(b)[..n];
      LookupSyms(canon, a[..n], b[..n], c);
    }
  }

  lemma {:induction false} SymsAppend(a: seq<FrameWord>, w: FrameWord)
    ensures Syms(a + [w]) == Syms(a) + [w.fsym]
  {
  }

  /** Collecting with SELF treated as this frame treats it. */
  ghost function AsCollect(mode: Mode, words: seq<FrameWord>): Modes
    requires |words| >= 1
  {
    Modes(mode.all, mode.deep, !Selfish(words), false)
  }

  lemma {:induction false} NeverStops(canon: seq<nat>, modes: Modes, buf: seq<FrameWord>, ws: seq<Value>)
    requires CanonTable(canon) && KnownWords(canon, buf) && |buf| >= 1 && KnownScan(canon, ws) && !modes.noDup
    ensures !Collected(canon, modes, buf, ws).dup
  {
    DuplicateIff(canon, modes, buf, ws);
  }

  /** All words of a known block are known. */
  lemma {:induction false} KnownBlockScan(canon: seq<nat>, items: seq<Value>, deep: bool)
    requires KnownBlock(canon, items)
    ensures KnownScan(canon, Words(items, deep, ALL_BLOCKS))
    decreases items, |items|
  {
    if |items| > 0 {
      var n := |items| - 1;
      KnownBlockScan(canon, items[..n], deep);
      KnownValueScan(canon, items[n], deep);
    }
  }

  lemma {:induction false} KnownValueScan(canon: seq<nat>, v: Value, deep: bool)
    requires KnownValue(canon, v)
    ensures KnownScan(canon, WordsOf(v, deep, ALL_BLOCKS))
    decreases v
  {
    match v
    case Word(_, _, _) =>
    case Blk(_, sub) => KnownBlockScan(canon, sub, deep);
    case Other(_) =>
  }

  /** Binding adds the very words that collecting with the same mode would, in the same order. */
  lemma {:induction false} BindCollects(canon: seq<nat>, mode: Mode, words: seq<FrameWord>, buf: seq<FrameWord>,
      items: seq<Value>)
    requires CanonTable(canon) && KnownWords(canon, words) && KnownWords(canon, buf) && |words| >= 1
    requires Syms(words) == Syms(buf) && KnownBlock(canon, items) && (mode.all || mode.set_)
    ensures |buf| >= 1 && KnownScan(canon, Words(items, mode.deep, ALL_BLOCKS))
    ensures Syms(BindItems(canon, mode, words, items).0)
         == Syms(Collected(canon, AsCollect(mode, words), buf, Words(items, mode.deep, ALL_BLOCKS)).buf)
    decreases items, |items|
  {
    hide Syms, Collected;
    CollectedNone(canon, AsCollect(mode, words), buf);
    assert |Syms(words)| == |Syms(buf)|;
    KnownBlockScan(canon, items, mode.deep);
    if |items| > 0 {
      var n := |items| - 1;
      var modes := AsCollect(mode, words);
      var ws, us := Words(items[..n], mode.deep, ALL_BLOCKS), WordsOf(items[n], mode.deep, ALL_BLOCKS);
      var first := BindItems(canon, mode, words, items[..n]);
      KnownBlockScan(canon, items[..n], mode.deep);
      KnownValueScan(canon, items[n], mode.deep);
      BindCollects(canon, mode, words, buf, items[..n]);
      NeverStops(canon, modes, buf, ws);
      var s := Collected(canon, modes, buf, ws);
      assert first.0[0] == words[0];
      BindCollectsValue(canon, mode, first.0, s.buf, items[n]);
      CollectedConcat(canon, modes, buf, ws, us);
    }
  }

  lemma {:induction false} BindCollectsValue(canon: seq<nat>, mode: Mode, words: seq<FrameWord>, buf: seq<FrameWord>,
      v: Value)
    requires CanonTable(canon) && KnownWords(canon, words) && KnownWords(canon, buf) && |words| >= 1
    requires Syms(words) == Syms(buf) && KnownValue(canon, v) && (mode.all || mode.set_)
    ensures |buf| >= 1 && KnownScan(canon, WordsOf(v, mode.deep, ALL_BLOCKS))
    ensures Syms(BindValue(canon, mode, words, v).0)
         == Syms(Collected(canon, AsCollect(mode, words), buf, WordsOf(v, mode.deep, ALL_BLOCKS)).buf)
    decreases v
  {
    assert |Syms(words)| == |Syms(buf)|;
    match v
    case Word(_, sym, _) =>
      LookupSyms(canon, words, buf, canon[sym]);
      CollectedOne(canon, AsCollect(mode, words), buf, v);
      SymsAppend(words, FrameWord(SetWord, sym));
      SymsAppend(buf, FrameWord(v.wkind, sym));
    case Blk(k, sub) =>
      assert k == Block || k == Paren || k == Path || k == Map;
      if mode.deep {
        BindCollects(canon, mode, words, buf, sub);
      }
    case Other(_) =>
  }

  /** The frame ends up as it was, followed by the first occurrences of the words it lacked. */
  lemma {:induction false} BindAddsFirst(canon: seq<nat>, mode: Mode, words: seq<FrameWord>, items: seq<Value>)
    requires CanonTable(canon) && KnownWords(canon, words) && |words| >= 1
    requires KnownBlock(canon, items) && (mode.all || mode.set_)
    ensures KnownScan(canon, Words(items, mode.deep, ALL_BLOCKS))
    ensures Syms(BindItems(canon, mode, words, items).0)
         == Syms(words) + Syms(FirstOnes(canon, AsCollect(mode, words), words, Words(items, mode.deep, ALL_BLOCKS)))
  {
    var modes, ws := AsCollect(mode, words), Words(items, mode.deep, ALL_BLOCKS);
    BindCollects(canon, mode, words, words, items);
    NeverStops(canon, modes, words, ws);
    CollectedFirst(canon, modes, words, ws);
    var f := FirstOnes(canon, modes, words, ws);
    assert Syms(words + f) == Syms(words) + Syms(f);
  }

  // ---- Where words point, whatever the mode ----

  lemma {:induction false} LookupSlot(canon: seq<nat>, words: seq<FrameWord>, c: nat)
    requires KnownWords(canon, words)
    ensures InFrame(canon, words, c) <==> Lookup(canon, words, c) != 0
    ensures Lookup(canon, words, c) != 0 ==> SlotOf(canon, words, c, Lookup(canon, words, c))
  {
    forall n {:trigger words[n]} | 1 <= n < |words| && canon[words[n].fsym] == c
      ensures n <= Lookup(canon, words, c)
    {
      LookupFinds(canon, words, c, n);
    }
  }

  lemma {:induction false} OneWanted(canon: seq<nat>, mode: Mode, v: Value, c: nat)
    requires v.Word? && v.sym < |canon|
    ensures KnownVisited(canon, [v])
    ensures WantedBy(canon, mode, [v], 0, c) <==> Adds(mode, v) && canon[v.sym] == c
  {
    assert [v][0] == v;
  }

  /** A word that is not added. */
  lemma {:induction false} FoundBound(canon: seq<nat>, mode: Mode, words: seq<FrameWord>, v: Value, t: Target)
    requires CanonTable(canon) && KnownWords(canon, words) && |words| >= 1 && v.Word? && v.sym < |canon|
    requires var c := canon[v.sym];
      if InFrame(canon, words, c) then t.Slot? && SlotOf(canon, words, c, t.index)
      else if IsSelf(words, c) then t == Slot(0)
      else !Adds(mode, v) && t == v.target
    ensures KnownVisited(canon, [v]) && Bound(canon, mode, words, words, [v], [v.(target := t)])
  {
    var c := canon[v.sym];
    hide InFrame, SlotOf, WantedBy;
    forall c': nat
      ensures KnownVisited(canon, [v]) && (WantedBy(canon, mode, [v], 0, c') <==> Adds(mode, v) && c == c')
    {
      OneWanted(canon, mode, v, c');
    }
    assert [v][0] == v;
    FrameGrownIs(canon, mode, words, words, [v]);
  }

  lemma {:induction false} AppendedInFrame(canon: seq<nat>, words: seq<FrameWord>, w: FrameWord, c: nat)
    requires KnownWords(canon, words) && w.fsym < |canon| && |words| >= 1
    ensures KnownWords(canon, words + [w])
    ensures InFrame(canon, words + [w], c) <==> InFrame(canon, words, c) || canon[w.fsym] == c
  {
    LookupAppend(canon, words, w, c);
    LookupSlot(canon, words, c);
    LookupSlot(canon, words + [w], c);
  }

  /** A word that is added. */
  lemma {:induction false} AddedBound(canon: seq<nat>, mode: Mode, words: seq<FrameWord>, v: Value, w: FrameWord)
    requires CanonTable(canon) && KnownWords(canon, words) && |words| >= 1 && v.Word? && v.sym < |canon|
    requires w.fsym == v.sym && Adds(mode, v)
    requires !InFrame(canon, words, canon[v.sym]) && !IsSelf(words, canon[v.sym])
    ensures KnownVisited(canon, [v]) && KnownWords(canon, words + [w])
    ensures Bound(canon, mode, words, words + [w], [v], [v.(target := Slot(|words|))])
  {
    var now := words + [w];
    var c := canon[v.sym];
    hide InFrame, WantedBy;
    forall c': nat
      ensures KnownVisited(canon, [v]) && (WantedBy(canon, mode, [v], 0, c') <==> c == c')
      ensures KnownWords(canon, now) && (InFrame(canon, now, c') <==> InFrame(canon, words, c') || c == c')
    {
      OneWanted(canon, mode, v, c');
      AppendedInFrame(canon, words, w, c');
    }
    assert [v][0] == v && now[|words|] == w;
    assert SlotOf(canon, now, c, |words|);
    FrameGrownIs(canon, mode, words, now, [v]);
  }

  lemma {:induction false} BindWordBound(canon: seq<nat>, mode: Mode, words: seq<FrameWord>, v: Value)
    requires CanonTable(canon) && KnownWords(canon, words) && |words| >= 1 && v.Word? && v.sym < |canon|
    ensures KnownVisited(canon, [v])
    ensures BindWord(canon, mode, words, v).1.Word?
    ensures Bound(canon, mode, words, BindWord(canon, mode, words, v).0, [v], [BindWord(canon, mode, words, v).1])
  {
    var c := canon[v.sym];
    LookupSlot(canon, words, c);
    hide Lookup, InFrame, SlotOf, Bound;
    var r := BindWord(canon, mode, words, v);
    if Lookup(canon, words, c) == 0 && !IsSelf(words, c) && Adds(mode, v) {
      AddedBound(canon, mode, words, v, FrameWord(SetWord, v.sym));
    } else {
      FoundBound(canon, mode, words, v, r.1.target);
      assert r.1 == v.(target := r.1.target);
    }
  }

  /** Binding puts every word it visits where its mode says, at any depth, and grows the frame accordingly. */
  lemma {:induction false} BindItemsBound(canon: seq<nat>, mode: Mode, words: seq<FrameWord>, items: seq<Value>)
    requires CanonTable(canon) && KnownWords(canon, words) && |words| >= 1 && KnownBlock(canon, items)
    ensures KnownVisited(canon, Visited(items, mode.deep))
    ensures Bound(canon, mode, words, BindItems(canon, mode, words, items).0, Visited(items, mode.deep),
      Visited(BindItems(canon, mode, words, items).1, mode.deep))
    decreases items, |items|
  {
    hide Bound;
    if |items| > 0 {
      var n := |items| - 1;
      var first := BindItems(canon, mode, words, items[..n]);
      var last := BindValue(canon, mode, first.0, items[n]);
      BindItemsBound(canon, mode, words, items[..n]);
      BindValueBound(canon, mode, first.0, items[n]);
      var r := first.1 + [last.1];
      assert r[..n] == first.1 && |r| == n + 1;
      assert Visited(r, mode.deep) == Visited(first.1, mode.deep) + VisitedIn(last.1, mode.deep);
      BoundConcat(canon, mode, words, first.0, last.0, Visited(items[..n], mode.deep), VisitedIn(items[n], mode.deep),
        Visited(first.1, mode.deep), VisitedIn(last.1, mode.deep));
    } else {
      BoundNothing(canon, mode, words);
    }
  }

  lemma {:induction false} BindValueBound(canon: seq<nat>, mode: Mode, words: seq<FrameWord>, v: Value)
    requires CanonTable(canon) && KnownWords(canon, words) && |words| >= 1 && KnownValue(canon, v)
    ensures KnownVisited(canon, VisitedIn(v, mode.deep))
    ensures Bound(canon, mode, words, BindValue(canon, mode, words, v).0, VisitedIn(v, mode.deep),
      VisitedIn(BindValue(canon, mode, words, v).1, mode.deep))
    decreases v
  {
    hide Bound, BindWord;
    BoundNothing(canon, mode, words);
    match v
    case Word(_, _, _) => BindWordBound(canon, mode, words, v);
    case Blk(_, sub) =>
      if mode.deep {
        BindItemsBound(canon, mode, words, sub);
      }
    case Other(_) =>
  }

  /** Sub-blocks are left alone. */
  ghost predicate BlocksKept(items: seq<Value>, r: seq<Value>) {
    |items| == |r| && forall i {:trigger r[i]} :: 0 <= i < |r| && items[i].Blk? ==> r[i] == items[i]
  }

  lemma {:induction false} BindItemsKeeps(canon: seq<nat>, mode: Mode, words: seq<FrameWord>, items: seq<Value>)
    requires CanonTable(canon) && KnownWords(canon, words) && |words| >= 1 && KnownBlock(canon, items) && !mode.deep
    ensures BlocksKept(items, BindItems(canon, mode, words, items).1)
    decreases |items|
  {
    if |items| > 0 {
      BindItemsKeeps(canon, mode, words, items[..|items| - 1]);
    }
  }

  // ---- The operations ----

  /** A frame: its word list and its value cells, slot 0 being SELF in both. */
  class Frame {
    var words: seq<FrameWord>
    var cells: seq<Cell>

    ghost predicate Valid(canon: seq<nat>)
      reads this
    {
      |words| == |cells| && |words| >= 1 && KnownWords(canon, words)
    }

    constructor (words: seq<FrameWord>, cells: seq<Cell>)
      ensures this.words == words && this.cells == cells
    {
      this.words := words;
      this.cells := cells;
    }
  }

  /** Append_Frame: a new word with an unset cell; the word given is bound to it. */
  method AppendFrame(frame: Frame, v: Value, ghost canon: seq<nat>) returns (bound: Value)
    requires frame.Valid(canon) && v.Word? && v.sym < |canon|
    modifies frame
    ensures frame.Valid(canon)
    ensures frame.words == old(frame.words) + [FrameWord(SetWord, v.sym)]
    ensures frame.cells == old(frame.cells) + [Unset]
    ensures bound == v.(target := Slot(old(|frame.words|)))
  {
    frame.words := frame.words + [FrameWord(SetWord, v.sym)];
    bound := v.(target := Slot(|frame.cells|));
    frame.cells := frame.cells + [Unset];
  }

  /** Every added slot has an unset cell, and the old cells are as they were. */
  ghost predicate CellsGrew(was: seq<Cell>, now: seq<Cell>) {
    was <= now && forall i {:trigger now[i]} :: |was| <= i < |now| ==> now[i] == Unset
  }

  /** One word in the inner loop of Bind_Block. */
  method BindOneWord(table: Table, frame: Frame, v: Value, mode: Mode) returns (r: Value)
    requires table.Valid() && frame.Valid(table.canon) && Holds(table.binds[..], table.canon, frame.words, false)
    requires v.Word? && v.sym < |table.canon|
    modifies table.binds, frame
    ensures table.Valid() && frame.Valid(table.canon) && Holds(table.binds[..], table.canon, frame.words, false)
    ensures (frame.words, r) == BindWord(table.canon, mode, old(frame.words), v)
    ensures CellsGrew(old(frame.cells), frame.cells)
  {
    hide Lookup;
    ghost var canon := table.canon;
    var c := table.canon[v.sym];
    assert table.binds[c] == Entry(canon, frame.words, false, c);
    var n := table.binds[c];
    r := v;
    if n != 0 {
      r := v.(target := Slot(n));
    } else if Selfish(frame.words) && c == SYM_SELF {
      r := v.(target := Slot(0));
    } else if Adds(mode, v) {
      HoldsAppend(table.binds[..], canon, frame.words, false, FrameWord(SetWord, v.sym));
      r := AppendFrame(frame, v, canon);
      table.binds[c] := r.target.index;
    }
  }

  lemma {:induction false} BindNothing(canon: seq<nat>, mode: Mode, words: seq<FrameWord>, items: seq<Value>)
    requires CanonTable(canon) && KnownWords(canon, words) && |words| >= 1
    ensures KnownBlock(canon, items[..0]) && BindItems(canon, mode, words, items[..0]) == (words, [])
  {
  }

  lemma {:induction false} BindNext(canon: seq<nat>, mode: Mode, words: seq<FrameWord>, items: seq<Value>, i: nat)
    requires CanonTable(canon) && KnownWords(canon, words) && |words| >= 1 && KnownBlock(canon, items)
    requires i < |items| && KnownBlock(canon, items[..i])
    ensures KnownBlock(canon, items[..i + 1])
    ensures var first := BindItems(canon, mode, words, items[..i]);
            var last := BindValue(canon, mode, first.0, items[i]);
      BindItems(canon, mode, words, items[..i + 1]) == (last.0, first.1 + [last.1])
  {
    assert items[..i + 1][..i] == items[..i];
  }

  /** Bind_Block_Words. */
  method BindBlockWords(table: Table, frame: Frame, items: seq<Value>, mode: Mode) returns (r: seq<Value>)
    requires table.Valid() && frame.Valid(table.canon) && Holds(table.binds[..], table.canon, frame.words, false)
    requires KnownBlock(table.canon, items)
    modifies table.binds, frame
    ensures table.Valid() && frame.Valid(table.canon) && Holds(table.binds[..], table.canon, frame.words, false)
    ensures (frame.words, r) == BindItems(table.canon, mode, old(frame.words), items)
    ensures CellsGrew(old(frame.cells), frame.cells)
    decreases items
  {
    hide BindItems, Holds;
    ghost var canon, start := table.canon, frame.words;
    r := [];
    var i := 0;
    BindNothing(canon, mode, start, items);
    while i < |items|
      invariant 0 <= i <= |items|
      invariant table.Valid() && frame.Valid(canon) && Holds(table.binds[..], canon, frame.words, false)
      invariant KnownBlock(canon, items[..i]) && (frame.words, r) == BindItems(canon, mode, start, items[..i])
      invariant CellsGrew(old(frame.cells), frame.cells)
    {
      BindNext(canon, mode, start, items, i);
      assert KnownValue(canon, items[i]);
      var v := items[i];
      match items[i] {
        case Word(_, _, _) =>
          v := BindOneWord(table, frame, items[i], mode);
        case Blk(k, sub) =>
          if mode.deep {
            var bound := BindBlockWords(table, frame, sub, mode);
            v := Blk(k, bound);
          }
        case Other(_) =>
      }
      r := r + [v];
      i := i + 1;
    }
    assert items[..i] == items;
  }

  /** The first loop of Bind_Block. */
  method SetUp(table: Table, frame: Frame)
    requires table.Valid() && frame.Valid(table.canon) && Clean(table.binds[..])
    modifies table.binds
    ensures table.Valid() && Holds(table.binds[..], table.canon, frame.words, false)
  {
    ghost var canon := table.canon;
    var words := frame.words;
    assert words[..1] == [words[0]];
    var index := 1;
    while index < |words|
      invariant 1 <= index <= |words|
      invariant Holds(table.binds[..], canon, words[..index], false)
    {
      HoldsAppend(table.binds[..], canon, words[..index], false, words[index]);
      assert words[..index] + [words[index]] == words[..index + 1];
      table.binds[table.canon[words[index].fsym]] := index;
      index := index + 1;
    }
    assert words[..index] == words;
  }

  /** The last loop of Bind_Block; slot 0 needs no clearing, nothing having been entered for it. */
  method Reset(table: Table, frame: Frame)
    requires table.Valid() && frame.Valid(table.canon) && Holds(table.binds[..], table.canon, frame.words, false)
    modifies table.binds
    ensures table.Valid() && Clean(table.binds[..])
  {
    ghost var canon := table.canon;
    var words := frame.words;
    var i := 1;
    while i < |words|
      invariant 1 <= i <= |words|
      invariant forall c {:trigger table.binds[c]} :: 0 <= c < table.binds.Length ==>
        table.binds[c] == 0 || (table.binds[c] == old(table.binds[c]) &&
          forall k {:trigger words[k]} :: 1 <= k < i ==> canon[words[k].fsym] != c)
    {
      table.binds[table.canon[words[i].fsym]] := 0;
      i := i + 1;
    }
    forall c {:trigger table.binds[c]} | 0 <= c < table.binds.Length
      ensures table.binds[c] == 0
    {
      assert old(table.binds[..])[c] == Entry(canon, words, false, c);
    }
  }

  /**
   * Bind_Block: the table is set up from the frame, the block is bound, and the table is clean again.
   * The source writes into the block; here the bound block is returned.
   */
  method BindBlock(table: Table, frame: Frame, items: seq<Value>, mode: Mode) returns (r: seq<Value>)
    requires table.Valid() && frame.Valid(table.canon) && Clean(table.binds[..])
    requires KnownBlock(table.canon, items)
    modifies table.binds, frame
    ensures table.Valid() && frame.Valid(table.canon) && Clean(table.binds[..])
    ensures (frame.words, r) == BindItems(table.canon, mode, old(frame.words), items)
    ensures CellsGrew(old(frame.cells), frame.cells)
    ensures KnownVisited(table.canon, Visited(items, mode.deep))
    ensures Bound(table.canon, mode, old(frame.words), frame.words, Visited(items, mode.deep), Visited(r, mode.deep))
    ensures SameShape(items, r) && (!mode.deep ==> BlocksKept(items, r))
    ensures mode.all && mode.deep ==> AllBound(table.canon, frame.words, r)
    ensures DistinctCanons(table.canon, old(frame.words)) ==> DistinctCanons(table.canon, frame.words)
  {
    hide BindItems, Holds, Lookup, DistinctCanons, SameShape, AllBound, Bound, Visited, BlocksKept;
    SetUp(table, frame);
    r := BindBlockWords(table, frame, items, mode);
    Reset(table, frame);
    BindItemsShape(table.canon, mode, old(frame.words), items);
    BindItemsBound(table.canon, mode, old(frame.words), items);
    if !mode.deep {
      BindItemsKeeps(table.canon, mode, old(frame.words), items);
    }
    if mode.all && mode.deep {
      BindAllItems(table.canon, mode, old(frame.words), items);
    }
    if DistinctCanons(table.canon, old(frame.words)) {
      BindItemsDistinct(table.canon, mode, old(frame.words), items);
    }
  }
}

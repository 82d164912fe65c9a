/** The shared bind table of c-frame.c: collecting words for a frame, and binding a block to one. */
module BindTable {
  import opened Binding
  import opened Collecting
  import opened BindMeaning

  /** ANY_EVAL_BLOCK, the blocks Collect_Words enters. */
  const EVAL_BLOCKS: set<BlockKind> := {Block, Paren}

  /** Some word of the list, slot 0 included, has canon c. */
  ghost predicate Mentions(canon: seq<nat>, words: seq<FrameWord>, c: nat)
    requires KnownWords(canon, words)
  {
    exists i {:trigger words[i]} :: 0 <= i < |words| && canon[words[i].fsym] == c
  }

  // ---- Words of prefixes ----

  lemma {:induction false} WordsPrefix(items: seq<Value>, deep: bool, kinds: set<BlockKind>, i: nat)
    requires i <= |items|
    ensures Words(items[..i], deep, kinds) <= Words(items, deep, kinds)
    decreases |items|
  {
    if i < |items| {
      var n := |items| - 1;
      WordsPrefix(items[..n], deep, kinds, i);
      assert items[..n][..i] == items[..i];
    } else {
      assert items[..i] == items;
    }
  }

  lemma {:induction false} WordsNext(items: seq<Value>, deep: bool, kinds: set<BlockKind>, i: nat)
    requires i < |items|
    ensures Words(items[..i + 1], deep, kinds) == Words(items[..i], deep, kinds) + WordsOf(items[i], deep, kinds)
  {
    assert items[..i + 1][..i] == items[..i];
  }

  /** What is known of all words of a block is known of those before item i, and of those in item i. */
  lemma {:induction false} KnownParts(canon: seq<nat>, items: seq<Value>, deep: bool, kinds: set<BlockKind>, i: nat)
    requires i < |items| && KnownScan(canon, Words(items, deep, kinds))
    ensures KnownScan(canon, Words(items[..i], deep, kinds)) && KnownScan(canon, WordsOf(items[i], deep, kinds))
  {
    WordsPrefix(items, deep, kinds, i);
    WordsPrefix(items, deep, kinds, i + 1);
    WordsNext(items, deep, kinds, i);
    var a, b, all := Words(items[..i], deep, kinds), WordsOf(items[i], deep, kinds), Words(items, deep, kinds);
    forall k {:trigger b[k]} | 0 <= k < |b|
      ensures b[k].Word? && b[k].sym < |canon|
    {
      assert b[k] == all[|a| + k];
    }
    forall k {:trigger a[k]} | 0 <= k < |a|
      ensures a[k].Word? && a[k].sym < |canon|
    {
      assert a[k] == all[k];
    }
  }

  // ---- Clearing ----

  /** binds with the entries of all listed words zeroed. */
  ghost predicate Cleared(was: seq<int>, now: seq<int>, canon: seq<nat>, words: seq<FrameWord>)
    requires KnownWords(canon, words)
  {
    && |now| == |was|
    && forall c {:trigger now[c]} :: 0 <= c < |now| ==> now[c] == if Mentions(canon, words, c) then 0 else was[c]
  }

  /** After clearing, the table is clean unless SELF was marked and is not among the listed words. */
  lemma {:induction false} ClearedClean(was: seq<int>, now: seq<int>, canon: seq<nat>, words: seq<FrameWord>,
      marked: bool)
    requires CanonTable(canon) && KnownWords(canon, words)
    requires Holds(was, canon, words, marked) && Cleared(was, now, canon, words)
    ensures Clean(now) <==> !marked || Mentions(canon, words, SYM_SELF)
  {
    forall c {:trigger now[c]} | 0 <= c < |now|
      ensures now[c] == if marked && c == SYM_SELF && !Mentions(canon, words, c) then -1 else 0
    {
      assert was[c] == Entry(canon, words, marked, c);
      var i := Lookup(canon, words, c);
      if i != 0 {
        assert canon[words[i].fsym] == c;
      }
    }
    assert now[SYM_SELF] == if marked && !Mentions(canon, words, SYM_SELF) then -1 else 0;
  }

  /** What the list starts with: the prior words, or SELF, or the zero symbol. */
  ghost function Head(modes: Modes, prior: Option<seq<FrameWord>>): seq<FrameWord> {
    if prior.Some? then prior.value else [FrameWord(SetWord, if modes.noSelf then 0 else SYM_SELF)]
  }

  lemma {:induction false} HeadMentions(canon: seq<nat>, modes: Modes, prior: Option<seq<FrameWord>>)
    requires CanonTable(canon) && (prior.Some? ==> KnownWords(canon, prior.value))
    ensures KnownWords(canon, Head(modes, prior))
    ensures modes.noSelf || Mentions(canon, Head(modes, prior), SYM_SELF) <==>
            modes.noSelf || prior.None? || Mentions(canon, prior.value, SYM_SELF)
  {
    if prior.None? {
      assert Head(modes, prior)[0].fsym == if modes.noSelf then 0 else SYM_SELF;
    }
  }

  lemma {:induction false} MentionsAppend(canon: seq<nat>, words: seq<FrameWord>, w: FrameWord, c: nat)
    requires KnownWords(canon, words) && w.fsym < |canon|
    ensures KnownWords(canon, words + [w])
    ensures Mentions(canon, words + [w], c) <==> Mentions(canon, words, c) || canon[w.fsym] == c
  {
    var b := words + [w];
    if Mentions(canon, words, c) {
      var k :| 0 <= k < |words| && canon[words[k].fsym] == c;
      assert b[k] == words[k];
    }
    assert b[|words|] == w;
  }

  /** While SELF is marked a scan adds no word of its canon. */
  lemma {:induction false} SelfKept(canon: seq<nat>, modes: Modes, start: seq<FrameWord>, ws: seq<Value>)
    requires CanonTable(canon) && KnownWords(canon, start) && |start| >= 1 && KnownScan(canon, ws)
    ensures modes.noSelf ||
      (Mentions(canon, Collected(canon, modes, start, ws).buf, SYM_SELF) <==> Mentions(canon, start, SYM_SELF))
    decreases |ws|
  {
    if |ws| > 0 {
      var n := |ws| - 1;
      SelfKept(canon, modes, start, ws[..n]);
      var s := Collected(canon, modes, start, ws[..n]);
      MentionsAppend(canon, s.buf, FrameWord(ws[n].wkind, ws[n].sym), SYM_SELF);
    }
  }

  lemma {:induction false} DistinctFromHead(canon: seq<nat>, modes: Modes, prior: Option<seq<FrameWord>>,
      ws: seq<Value>)
    requires CanonTable(canon) && KnownScan(canon, ws)
    requires prior.Some? ==> |prior.value| >= 1 && KnownWords(canon, prior.value)
    ensures KnownWords(canon, Head(modes, prior))
    ensures (prior.Some? ==> DistinctCanons(canon, prior.value)) ==>
      DistinctCanons(canon, Collected(canon, modes, Head(modes, prior), ws).buf)
  {
    if prior.Some? ==> DistinctCanons(canon, prior.value) {
      CollectedDistinct(canon, modes, Head(modes, prior), ws);
    }
  }

  lemma {:induction false} NoWords(canon: seq<nat>, modes: Modes, start: seq<FrameWord>, items: seq<Value>, deep: bool)
    requires CanonTable(canon) && KnownWords(canon, start) && |start| >= 1
    ensures Words(items[..0], deep, EVAL_BLOCKS) == []
    ensures Collected(canon, modes, start, []) == Scan(start, false)
  {
  }

  lemma {:induction false} CollectedOne(canon: seq<nat>, modes: Modes, buf: seq<FrameWord>, w: Value)
    requires CanonTable(canon) && KnownWords(canon, buf) && |buf| >= 1 && w.Word? && w.sym < |canon|
    ensures Collected(canon, modes, buf, [w]) == Step(canon, modes, buf, w)
  {
    assert [w][..0] == [];
    assert Collected(canon, modes, buf, []) == Scan(buf, false);
  }

  lemma {:induction false} CollectedNone(canon: seq<nat>, modes: Modes, buf: seq<FrameWord>)
    requires CanonTable(canon) && KnownWords(canon, buf) && |buf| >= 1
    ensures Collected(canon, modes, buf, []) == Scan(buf, false)
  {
  }

  /** A scan that stopped stays as it is, whatever follows. */
  lemma {:induction false} CollectedStops(canon: seq<nat>, modes: Modes, start: seq<FrameWord>, items: seq<Value>,
      deep: bool, i: nat)
    requires CanonTable(canon) && KnownWords(canon, start) && |start| >= 1 && i <= |items|
    requires KnownScan(canon, Words(items, deep, EVAL_BLOCKS)) && KnownScan(canon, Words(items[..i], deep, EVAL_BLOCKS))
    requires Collected(canon, modes, start, Words(items[..i], deep, EVAL_BLOCKS)).dup
    ensures Collected(canon, modes, start, Words(items, deep, EVAL_BLOCKS))
         == Collected(canon, modes, start, Words(items[..i], deep, EVAL_BLOCKS))
  {
    WordsPrefix(items, deep, EVAL_BLOCKS, i);
    var a, all := Words(items[..i], deep, EVAL_BLOCKS), Words(items, deep, EVAL_BLOCKS);
    var rest := all[|a|..];
    assert all == a + rest;
    assert forall k {:trigger rest[k]} :: 0 <= k < |rest| ==> rest[k] == all[|a| + k];
    CollectedConcat(canon, modes, start, a, rest);
  }

  lemma {:induction false} MentionsNext(canon: seq<nat>, words: seq<FrameWord>, i: nat)
    requires KnownWords(canon, words) && i < |words|
    ensures forall c {:trigger Mentions(canon, words[..i + 1], c)} ::
      Mentions(canon, words[..i + 1], c) <==> Mentions(canon, words[..i], c) || canon[words[i].fsym] == c
  {
    var a, b := words[..i], words[..i + 1];
    forall c
      ensures Mentions(canon, b, c) <==> Mentions(canon, a, c) || canon[words[i].fsym] == c
    {
      if Mentions(canon, b, c) {
        var k :| 0 <= k < |b| && canon[b[k].fsym] == c;
        assert k < i ==> a[k] == b[k];
      }
      if Mentions(canon, a, c) {
        var k :| 0 <= k < |a| && canon[a[k].fsym] == c;
        assert b[k] == a[k];
      }
      assert b[i] == words[i];
    }
  }

  // ---- Which words a scan meets, and which of them it lists ----

  /** The word stands in the block or, deep, in a block or paren inside it; not in paths and maps. */
  ghost predicate Occurs(items: seq<Value>, w: Value, deep: bool)
    decreases items
  {
    exists i {:trigger items[i]} :: 0 <= i < |items| && OccursIn(items[i], w, deep)
  }

  ghost predicate OccursIn(v: Value, w: Value, deep: bool)
    decreases v
  {
    match v
    case Word(_, _, _) => v == w
    case Blk(k, sub) => deep && (k == Block || k == Paren) && Occurs(sub, w, deep)
    case Other(_) => false
  }

  lemma {:induction false} WordsOccur(items: seq<Value>, w: Value, deep: bool)
    ensures w in Words(items, deep, EVAL_BLOCKS) <==> Occurs(items, w, deep)
    decreases items, |items|
  {
    if |items| > 0 {
      var n := |items| - 1;
      var first := items[..n];
      WordsOccur(first, w, deep);
      WordsOccurIn(items[n], w, deep);
      if Occurs(first, w, deep) {
        var i :| 0 <= i < n && OccursIn(first[i], w, deep);
        assert items[i] == first[i];
      }
      if Occurs(items, w, deep) {
        var i :| 0 <= i < |items| && OccursIn(items[i], w, deep);
        assert i < n ==> first[i] == items[i];
      }
    }
  }

  lemma {:induction false} WordsOccurIn(v: Value, w: Value, deep: bool)
    ensures w in WordsOf(v, deep, EVAL_BLOCKS) <==> OccursIn(v, w, deep)
    decreases v
  {
    match v
    case Word(_, _, _) =>
    case Blk(_, sub) => WordsOccur(sub, w, deep);
    case Other(_) =>
  }

  /** The list entry of an accepted word. */
  ghost predicate EntryFor(e: FrameWord, modes: Modes, w: Value) {
    w.Word? && Accepts(modes, w) && e == FrameWord(w.wkind, w.sym)
  }

  /** Every word met that the mode accepts has a slot, SELF aside. */
  ghost predicate ListsAll(canon: seq<nat>, modes: Modes, items: seq<Value>, words: seq<FrameWord>)
    requires KnownWords(canon, words)
  {
    forall w {:trigger Occurs(items, w, modes.deep)} ::
      Occurs(items, w, modes.deep) && w.Word? && w.sym < |canon| && Accepts(modes, w) ==>
        InFrame(canon, words, canon[w.sym]) || (!modes.noSelf && canon[w.sym] == SYM_SELF)
  }

  ghost predicate EntryMet(modes: Modes, items: seq<Value>, e: FrameWord) {
    exists w :: Occurs(items, w, modes.deep) && EntryFor(e, modes, w)
  }

  /** Every slot from n on is that of a word met and accepted. */
  ghost predicate ListsOnly(modes: Modes, items: seq<Value>, words: seq<FrameWord>, n: nat) {
    forall k {:trigger words[k]} :: n <= k < |words| ==> EntryMet(modes, items, words[k])
  }

  ghost predicate Lists(canon: seq<nat>, modes: Modes, items: seq<Value>, start: seq<FrameWord>, words: seq<FrameWord>)
    requires KnownWords(canon, words)
  {
    ListsAll(canon, modes, items, words) && ListsOnly(modes, items, words, |start|)
  }

  lemma {:induction false} EntryInFrame(canon: seq<nat>, words: seq<FrameWord>, marked: bool, c: nat)
    requires KnownWords(canon, words) && Entry(canon, words, marked, c) != 0
    ensures InFrame(canon, words, c) || (marked && c == SYM_SELF)
  {
  }

  lemma {:induction false} FirstOnesFrom(canon: seq<nat>, modes: Modes, start: seq<FrameWord>, ws: seq<Value>, n: nat)
    requires CanonTable(canon) && KnownWords(canon, start) && KnownScan(canon, ws)
    requires n < |FirstOnes(canon, modes, start, ws)|
    ensures exists w :: w in ws && EntryFor(FirstOnes(canon, modes, start, ws)[n], modes, w)
    decreases |ws|
  {
    var m := |ws| - 1;
    var before := FirstOnes(canon, modes, start, ws[..m]);
    hide Repeats;
    if n < |before| {
      FirstOnesFrom(canon, modes, start, ws[..m], n);
      var w :| w in ws[..m] && EntryFor(before[n], modes, w);
      assert w in ws;
    } else {
      assert ws[m] in ws;
    }
  }

  lemma {:induction false} CollectedHas(canon: seq<nat>, modes: Modes, start: seq<FrameWord>, items: seq<Value>,
      w: Value)
    requires CanonTable(canon) && KnownWords(canon, start) && |start| >= 1
    requires KnownScan(canon, Words(items, modes.deep, EVAL_BLOCKS))
    requires !Collected(canon, modes, start, Words(items, modes.deep, EVAL_BLOCKS)).dup
    requires Occurs(items, w, modes.deep) && w.Word? && w.sym < |canon| && Accepts(modes, w)
    ensures InFrame(canon, Collected(canon, modes, start, Words(items, modes.deep, EVAL_BLOCKS)).buf, canon[w.sym])
      || (!modes.noSelf && canon[w.sym] == SYM_SELF)
  {
    hide Occurs, Words, Collected, InFrame, Entry;
    var ws := Words(items, modes.deep, EVAL_BLOCKS);
    WordsOccur(items, w, modes.deep);
    ListedIff(canon, modes, start, ws, canon[w.sym]);
    var j :| 0 <= j < |ws| && ws[j] == w;
    EntryInFrame(canon, Collected(canon, modes, start, ws).buf, !modes.noSelf, canon[w.sym]);
  }

  lemma {:induction false} CollectedOnly(canon: seq<nat>, modes: Modes, start: seq<FrameWord>, items: seq<Value>,
      n: nat)
    requires CanonTable(canon) && KnownWords(canon, start) && |start| >= 1
    requires KnownScan(canon, Words(items, modes.deep, EVAL_BLOCKS))
    requires n < |FirstOnes(canon, modes, start, Words(items, modes.deep, EVAL_BLOCKS))|
    ensures EntryMet(modes, items, FirstOnes(canon, modes, start, Words(items, modes.deep, EVAL_BLOCKS))[n])
  {
    hide Occurs, Words, FirstOnes, EntryFor;
    var ws := Words(items, modes.deep, EVAL_BLOCKS);
    FirstOnesFrom(canon, modes, start, ws, n);
    var w :| w in ws && EntryFor(FirstOnes(canon, modes, start, ws)[n], modes, w);
    WordsOccur(items, w, modes.deep);
  }

  lemma {:induction false} CollectedLists(canon: seq<nat>, modes: Modes, start: seq<FrameWord>, items: seq<Value>)
    requires CanonTable(canon) && KnownWords(canon, start) && |start| >= 1
    requires KnownScan(canon, Words(items, modes.deep, EVAL_BLOCKS))
    requires !Collected(canon, modes, start, Words(items, modes.deep, EVAL_BLOCKS)).dup
    ensures Lists(canon, modes, items, start, Collected(canon, modes, start, Words(items, modes.deep, EVAL_BLOCKS)).buf)
  {
    hide Occurs, Words, Collected, FirstOnes, InFrame, EntryMet;
    var ws := Words(items, modes.deep, EVAL_BLOCKS);
    var words := Collected(canon, modes, start, ws).buf;
    CollectedFirst(canon, modes, start, ws);
    forall w {:trigger Occurs(items, w, modes.deep)} |
      Occurs(items, w, modes.deep) && w.Word? && w.sym < |canon| && Accepts(modes, w)
      ensures InFrame(canon, words, canon[w.sym]) || (!modes.noSelf && canon[w.sym] == SYM_SELF)
    {
      CollectedHas(canon, modes, start, items, w);
    }
    assert ListsAll(canon, modes, items, words);
    forall k {:trigger words[k]} | |start| <= k < |words|
      ensures EntryMet(modes, items, words[k])
    {
      assert words[k] == FirstOnes(canon, modes, start, ws)[k - |start|];
      CollectedOnly(canon, modes, start, items, k - |start|);
    }
    assert ListsOnly(modes, items, words, |start|);
  }

  class Table {
    const canon: seq<nat>
    const binds: array<int>
    /** BUF_WORDS, the list being collected; empty when not in use. */
    var buf: seq<FrameWord>

    ghost predicate Valid()
      reads this, binds
    {
      CanonTable(canon) && binds.Length == |canon| && KnownWords(canon, buf)
    }

    /** Collect_Start. */
    method CollectStart(noSelf: bool)
      requires Valid() && Clean(binds[..]) && buf == []
      modifies this, binds
      ensures Valid() && buf == [FrameWord(SetWord, if noSelf then 0 else SYM_SELF)]
      ensures Holds(binds[..], canon, buf, !noSelf)
    {
      var mode := if noSelf then 0 else SYM_SELF;
      if mode != 0 {
        binds[mode] := -1;
      }
      buf := [FrameWord(SetWord, mode)];
    }

    /** Collect_Object: the list starts as the prior word list. */
    method CollectObject(prior: seq<FrameWord>, ghost marked: bool)
      requires Valid() && |prior| >= 1 && KnownWords(canon, prior) && |buf| == 1 && Holds(binds[..], canon, buf, marked)
      modifies this, binds
      ensures Valid() && buf == prior && Holds(binds[..], canon, prior, marked)
    {
      var n := 1;
      assert prior[..1] == [prior[0]];
      while n < |prior|
        invariant 1 <= n <= |prior|
        invariant Holds(binds[..], canon, prior[..n], marked)
      {
        HoldsAppend(binds[..], canon, prior[..n], marked, prior[n]);
        assert prior[..n] + [prior[n]] == prior[..n + 1];
        binds[canon[prior[n].fsym]] := n;
        n := n + 1;
      }
      assert prior[..n] == prior;
      buf := prior;
    }

    /** The loop that zeroes the entries of all listed words. */
    method ResetBinds()
      requires Valid()
      modifies binds
      ensures Valid() && Cleared(old(binds[..]), binds[..], canon, buf)
    {
      var i := 0;
      while i < |buf|
        invariant 0 <= i <= |buf|
        invariant forall c {:trigger binds[c]} :: 0 <= c < binds.Length ==>
          binds[c] == if Mentions(canon, buf[..i], c) then 0 else old(binds[c])
      {
        MentionsNext(canon, buf, i);
        binds[canon[buf[i].fsym]] := 0;
        i := i + 1;
      }
      assert buf[..i] == buf;
    }

    /**
     * What a scan leaves behind: the list and its table entries, or after the trap an empty list and a cleared table.
     */
    ghost predicate After(s: Scan, modes: Modes)
      reads this, binds
      requires Valid() && KnownWords(canon, s.buf)
    {
      if s.dup then
        buf == [] && (Clean(binds[..]) <==> modes.noSelf || Mentions(canon, s.buf, SYM_SELF))
      else
        buf == s.buf && Holds(binds[..], canon, buf, !modes.noSelf)
    }

    /** One word of Collect_Words: appended, passed over, or the duplicate trap. */
    method CollectWord(w: Value, modes: Modes) returns (trapped: bool)
      requires Valid() && |buf| >= 1 && Holds(binds[..], canon, buf, !modes.noSelf) && w.Word? && w.sym < |canon|
      modifies this, binds
      ensures Valid() && trapped == Step(canon, modes, old(buf), w).dup
      ensures After(Step(canon, modes, old(buf), w), modes)
    {
      hide Lookup;
      var c := canon[w.sym];
      assert binds[c] == Entry(canon, buf, !modes.noSelf, c);
      trapped := false;
      if binds[c] == 0 {
        if Accepts(modes, w) {
          HoldsAppend(binds[..], canon, buf, !modes.noSelf, FrameWord(w.wkind, w.sym));
          binds[c] := |buf|;
          buf := buf + [FrameWord(w.wkind, w.sym)];
        }
      } else if modes.noDup {
        ghost var was := binds[..];
        ResetBinds();
        ClearedClean(was, binds[..], canon, buf, !modes.noSelf);
        buf := [];
        trapped := true;
      }
    }

    /** Collect_Words: the words of a block in order, through evaluated sub-blocks when deep. */
    method CollectWords(items: seq<Value>, modes: Modes) returns (trapped: bool)
      requires Valid() && |buf| >= 1 && Holds(binds[..], canon, buf, !modes.noSelf)
      requires KnownScan(canon, Words(items, modes.deep, EVAL_BLOCKS))
      modifies this, binds
      ensures Valid()
      ensures trapped == Collected(canon, modes, old(buf), Words(items, modes.deep, EVAL_BLOCKS)).dup
      ensures After(Collected(canon, modes, old(buf), Words(items, modes.deep, EVAL_BLOCKS)), modes)
      decreases items
    {
      hide Collected, Holds, Words;
      ghost var start := buf;
      var i := 0;
      trapped := false;
      NoWords(canon, modes, start, items, modes.deep);
      while i < |items|
        invariant 0 <= i <= |items|
        invariant Valid() && |buf| >= 1 && KnownScan(canon, Words(items[..i], modes.deep, EVAL_BLOCKS))
        invariant Collected(canon, modes, start, Words(items[..i], modes.deep, EVAL_BLOCKS)) == Scan(buf, false)
        invariant Holds(binds[..], canon, buf, !modes.noSelf)
      {
        ghost var here := WordsOf(items[i], modes.deep, EVAL_BLOCKS);
        KnownParts(canon, items, modes.deep, EVAL_BLOCKS, i);
        WordsNext(items, modes.deep, EVAL_BLOCKS, i);
        CollectedConcat(canon, modes, start, Words(items[..i], modes.deep, EVAL_BLOCKS), here);
        match items[i] {
          case Word(_, _, _) =>
            assert here == [items[i]] && here[0] == items[i];
            CollectedOne(canon, modes, buf, items[i]);
            trapped := CollectWord(items[i], modes);
          case Blk(k, sub) =>
            if (k == Block || k == Paren) && modes.deep {
              trapped := CollectWords(sub, modes);
            } else {
              CollectedNone(canon, modes, buf);
            }
          case Other(_) =>
            CollectedNone(canon, modes, buf);
        }
        i := i + 1;
        if trapped {
          CollectedStops(canon, modes, start, items, modes.deep, i);
          return;
        }
      }
      assert items[..i] == items;
    }

    /** Collect_End: the table is cleared and the list handed out; the prior list itself when nothing was added. */
    method CollectEnd(prior: Option<seq<FrameWord>>, ghost marked: bool) returns (words: seq<FrameWord>)
      requires Valid() && Holds(binds[..], canon, buf, marked)
      requires prior.Some? ==> prior.value <= buf
      modifies this, binds
      ensures Valid() && buf == [] && words == old(buf)
      ensures Clean(binds[..]) <==> !marked || Mentions(canon, old(buf), SYM_SELF)
    {
      ghost var was := binds[..];
      ResetBinds();
      ClearedClean(was, binds[..], canon, buf, marked);
      if prior.Some? && |buf| == |prior.value| {
        words := prior.value;
      } else {
        words := buf;
      }
      buf := [];
    }

    /**
     * Collect_Frame: the prior words followed by the first occurrence of each new one. The bind table is
     * clean again, on the duplicate trap as well, exactly when SELF was not asked for or heads a fresh list
     * or stands in the prior list.
     */
    method CollectFrame(modes: Modes, prior: Option<seq<FrameWord>>, items: seq<Value>)
      returns (words: seq<FrameWord>, trapped: bool)
      requires Valid() && Clean(binds[..]) && buf == []
      requires prior.Some? ==> |prior.value| >= 1 && KnownWords(canon, prior.value)
      requires KnownScan(canon, Words(items, modes.deep, EVAL_BLOCKS))
      modifies this, binds
      ensures Valid() && buf == []
      ensures trapped <==>
        modes.noDup && AnyRepeats(canon, modes, Head(modes, prior), Words(items, modes.deep, EVAL_BLOCKS))
      ensures !trapped ==>
        words == Head(modes, prior) + FirstOnes(canon, modes, Head(modes, prior), Words(items, modes.deep, EVAL_BLOCKS))
      ensures !trapped ==> KnownWords(canon, words) && Lists(canon, modes, items, Head(modes, prior), words)
      ensures !trapped && (prior.Some? ==> DistinctCanons(canon, prior.value)) ==>
        KnownWords(canon, words) && DistinctCanons(canon, words)
      ensures Clean(binds[..]) <==> modes.noSelf || prior.None? || Mentions(canon, prior.value, SYM_SELF)
    {
      ghost var ws := Words(items, modes.deep, EVAL_BLOCKS);
      hide Collected, Holds, Words, FirstOnes, AnyRepeats, DistinctCanons, Mentions, Lists;
      CollectStart(modes.noSelf);
      if prior.Some? {
        CollectObject(prior.value, !modes.noSelf);
      }
      ghost var start := buf;
      assert start == Head(modes, prior);
      trapped := CollectWords(items, modes);
      ghost var s := Collected(canon, modes, start, ws);
      SelfKept(canon, modes, start, ws);
      DuplicateIff(canon, modes, start, ws);
      HeadMentions(canon, modes, prior);
      if trapped {
        words := [];
      } else {
        CollectedFirst(canon, modes, start, ws);
        CollectedLists(canon, modes, start, items);
        words := CollectEnd(prior, !modes.noSelf);
        DistinctFromHead(canon, modes, prior, ws);
      }
    }
  }

  /** The word list of a selfless frame, which has the zero symbol in the place of SELF. */
  lemma {:induction false} SelflessList(canon: seq<nat>)
    requires CanonTable(canon)
    ensures KnownWords(canon, [FrameWord(SetWord, 0)]) && !Mentions(canon, [FrameWord(SetWord, 0)], SYM_SELF)
  {
  }

  /** Asking for SELF on top of such a list, with no words to add, leaves the entry of SELF set. */
  method SelfStaysMarked(table: Table) returns (words: seq<FrameWord>)
    requires table.Valid() && Clean(table.binds[..]) && table.buf == []
    modifies table, table.binds
    ensures words == [FrameWord(SetWord, 0)] && !Clean(table.binds[..])
  {
    SelflessList(table.canon);
    var modes := Modes(true, true, false, false);
    hide Clean, Mentions;
    assert Words([], true, EVAL_BLOCKS) == [];
    assert FirstOnes(table.canon, modes, Head(modes, Some([FrameWord(SetWord, 0)])), []) == [];
    var trapped;
    words, trapped := table.CollectFrame(modes, Some([FrameWord(SetWord, 0)]), []);
  }
}

/** Words, frames and the lists of words a scan collects: what c-frame.c's shared bind table stands for. */
module Binding {
  datatype WordKind = PlainWord | SetWord | GetWord | LitWord | Refinement

  datatype BlockKind = Block | Paren | Path | Map

  /** Where a word points: nowhere, to a slot of the frame at hand, or to some other frame. */
  datatype Target = Unbound | Slot(index: nat) | Elsewhere(frame: nat, place: nat)

  /** A Rebol value as far as collecting and binding look at it; blocks are finite trees. */
  datatype Value =
    | Word(wkind: WordKind, sym: nat, target: Target)
    | Blk(bkind: BlockKind, items: seq<Value>)
    | Other(id: int)

  /** An entry of a frame's word list. */
  datatype FrameWord = FrameWord(fkind: WordKind, fsym: nat)

  const SYM_SELF: nat := 1

  /** Canon numbers of all symbols: closed, and with the two special symbols their own canons. */
  ghost predicate CanonTable(canon: seq<nat>) {
    && |canon| > SYM_SELF && canon[0] == 0 && canon[SYM_SELF] == SYM_SELF
    && forall s {:trigger canon[s]} :: 0 <= s < |canon| ==> canon[s] < |canon|
  }

  ghost predicate KnownWords(canon: seq<nat>, words: seq<FrameWord>) {
    forall i {:trigger words[i]} :: 0 <= i < |words| ==> words[i].fsym < |canon|
  }

  // ---- Looking a canon up in a word list ----

  /** The last slot from 1 on whose word has canon c, or 0. */
  ghost function Lookup(canon: seq<nat>, words: seq<FrameWord>, c: nat): (i: nat)
    requires KnownWords(canon, words)
    ensures i == 0 || i < |words|
    ensures i != 0 ==> canon[words[i].fsym] == c
  {
    var n := |words| - 1;
    if n < 1 then 0
    else if canon[words[n].fsym] == c then n
    else Lookup(canon, words[..n], c)
  }

  lemma {:induction false} LookupFinds(canon: seq<nat>, words: seq<FrameWord>, c: nat, i: nat)
    requires KnownWords(canon, words) && 1 <= i < |words| && canon[words[i].fsym] == c
    ensures Lookup(canon, words, c) >= i
  {
    var n := |words| - 1;
    if i < n && canon[words[n].fsym] != c {
      LookupFinds(canon, words[..n], c, i);
    }
  }

  lemma {:induction false} LookupAppend(canon: seq<nat>, words: seq<FrameWord>, w: FrameWord, c: nat)
    requires KnownWords(canon, words) && w.fsym < |canon| && |words| >= 1
    ensures KnownWords(canon, words + [w])
    ensures Lookup(canon, words + [w], c) == if canon[w.fsym] == c then |words| else Lookup(canon, words, c)
  {
    assert (words + [w])[..|words|] == words;
  }

  /** No two slots from 1 on hold the same canon. */
  ghost predicate DistinctCanons(canon: seq<nat>, words: seq<FrameWord>)
    requires KnownWords(canon, words)
  {
    forall i, j {:trigger words[i], words[j]} :: 1 <= i < j < |words| ==> canon[words[i].fsym] != canon[words[j].fsym]
  }

  // ---- What the bind table holds ----

  /** The table entry of canon c: the slot of its word, -1 for a marked SELF, else 0. */
  ghost function Entry(canon: seq<nat>, words: seq<FrameWord>, marked: bool, c: nat): int
    requires KnownWords(canon, words)
  {
    if Lookup(canon, words, c) != 0 then Lookup(canon, words, c)
    else if marked && c == SYM_SELF then -1
    else 0
  }

  ghost predicate Holds(binds: seq<int>, canon: seq<nat>, words: seq<FrameWord>, marked: bool)
    requires KnownWords(canon, words)
  {
    |binds| == |canon| && forall c {:trigger binds[c]} :: 0 <= c < |binds| ==>
      binds[c] == Entry(canon, words, marked, c)
  }

  ghost predicate Clean(binds: seq<int>) {
    forall c {:trigger binds[c]} :: 0 <= c < |binds| ==> binds[c] == 0
  }

  lemma {:induction false} HoldsAppend(binds: seq<int>, canon: seq<nat>, words: seq<FrameWord>, marked: bool,
      w: FrameWord)
    requires CanonTable(canon) && KnownWords(canon, words) && Holds(binds, canon, words, marked)
    requires w.fsym < |canon| && |words| >= 1
    ensures KnownWords(canon, words + [w])
    ensures Holds(binds[canon[w.fsym] := |words|], canon, words + [w], marked)
  {
    forall c | 0 <= c < |binds|
      ensures binds[canon[w.fsym] := |words|][c] == Entry(canon, words + [w], marked, c)
    {
      LookupAppend(canon, words, w, c);
      assert binds[c] == Entry(canon, words, marked, c);
    }
  }

  // ---- The words of a block, in scanning order ----

  /** All words a scan visits: those of the block and, when deep, of the sub-blocks of the kinds scanned. */
  ghost function Words(items: seq<Value>, deep: bool, kinds: set<BlockKind>): seq<Value>
    decreases items
  {
    if |items| == 0 then []
    else Words(items[..|items| - 1], deep, kinds) + WordsOf(items[|items| - 1], deep, kinds)
  }

  ghost function WordsOf(v: Value, deep: bool, kinds: set<BlockKind>): seq<Value>
    decreases v
  {
    match v
    case Word(_, _, _) => [v]
    case Blk(k, sub) => if deep && k in kinds then Words(sub, deep, kinds) else []
    case Other(_) => []
  }
}

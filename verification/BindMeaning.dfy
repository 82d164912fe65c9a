/** Where binding a block leaves its words, and what it does to the frame: said word by word, for every mode. */
module BindMeaning {
  import opened Binding

  datatype Mode = Mode(all: bool, set_: bool, deep: bool)

  /** The words of a block in order, those of all sub-blocks included when deep. */
  ghost function Visited(items: seq<Value>, deep: bool): (ws: seq<Value>)
    ensures forall k :: 0 <= k < |ws| ==> ws[k].Word?
    decreases items
  {
    if |items| == 0 then []
    else Visited(items[..|items| - 1], deep) + VisitedIn(items[|items| - 1], deep)
  }

  ghost function VisitedIn(v: Value, deep: bool): (ws: seq<Value>)
    ensures forall k :: 0 <= k < |ws| ==> ws[k].Word?
    decreases v
  {
    match v
    case Word(_, _, _) => [v]
    case Blk(_, sub) => if deep then Visited(sub, deep) else []
    case Other(_) => []
  }

  ghost predicate KnownVisited(canon: seq<nat>, ws: seq<Value>) {
    forall k {:trigger ws[k]} :: 0 <= k < |ws| ==> ws[k].Word? && ws[k].sym < |canon|
  }

  /** Slot n, past SELF, is the last one that holds canon c. */
  ghost predicate SlotOf(canon: seq<nat>, words: seq<FrameWord>, c: nat, n: nat)
    requires KnownWords(canon, words)
  {
    1 <= n < |words| && canon[words[n].fsym] == c &&
    forall m {:trigger words[m]} :: n < m < |words| ==> canon[words[m].fsym] != c
  }

  ghost predicate InFrame(canon: seq<nat>, words: seq<FrameWord>, c: nat)
    requires KnownWords(canon, words)
  {
    exists n {:trigger words[n]} :: 1 <= n < |words| && canon[words[n].fsym] == c
  }

  /** SELF in a frame that has it. */
  ghost predicate IsSelf(words: seq<FrameWord>, c: nat)
    requires |words| >= 1
  {
    words[0].fsym != 0 && c == SYM_SELF
  }

  /** The mode adds words like this one. */
  ghost predicate Wanted(mode: Mode, w: Value)
    requires w.Word?
  {
    mode.all || (mode.set_ && w.wkind == SetWord)
  }

  /** A word of canon c that the mode adds stands at or before place k. */
  ghost predicate WantedBy(canon: seq<nat>, mode: Mode, ws: seq<Value>, k: int, c: nat)
    requires KnownVisited(canon, ws)
  {
    exists j {:trigger ws[j]} :: 0 <= j <= k && j < |ws| && Wanted(mode, ws[j]) && canon[ws[j].sym] == c
  }

  /**
   * Word k after binding: the same word, at the slot of its canon if the frame had one, at slot 0 if it is SELF, at an
   * added slot if a word like it was added by then, and otherwise where it pointed before.
   */
  ghost predicate WordBound(canon: seq<nat>, mode: Mode, was: seq<FrameWord>, now: seq<FrameWord>, ws: seq<Value>,
      k: nat, bound: Value)
    requires KnownWords(canon, was) && KnownWords(canon, now) && |was| >= 1 && KnownVisited(canon, ws) && k < |ws|
  {
    var c := canon[ws[k].sym];
    && bound.Word? && bound.wkind == ws[k].wkind && bound.sym == ws[k].sym
    && if InFrame(canon, was, c) then bound.target.Slot? && SlotOf(canon, was, c, bound.target.index)
       else if IsSelf(was, c) then bound.target == Slot(0)
       else if WantedBy(canon, mode, ws, k, c) then
         bound.target.Slot? && |was| <= bound.target.index < |now| && canon[now[bound.target.index].fsym] == c
       else bound.target == ws[k].target
  }

  ghost predicate AllWordsBound(canon: seq<nat>, mode: Mode, was: seq<FrameWord>, now: seq<FrameWord>,
      ws: seq<Value>, bound: seq<Value>)
    requires KnownWords(canon, was) && KnownWords(canon, now) && |was| >= 1 && KnownVisited(canon, ws)
  {
    |bound| == |ws| && forall k {:trigger bound[k]} :: 0 <= k < |ws| ==>
      WordBound(canon, mode, was, now, ws, k, bound[k])
  }

  /** The frame keeps its slots and gains one for every canon it lacked among the words the mode adds. */
  ghost predicate FrameGrown(canon: seq<nat>, mode: Mode, was: seq<FrameWord>, now: seq<FrameWord>, ws: seq<Value>)
    requires KnownWords(canon, was) && KnownWords(canon, now) && |was| >= 1 && KnownVisited(canon, ws)
  {
    && was <= now
    && (forall c: nat {:trigger InFrame(canon, now, c)} ::
          InFrame(canon, now, c) <==>
            InFrame(canon, was, c) || (!IsSelf(was, c) && WantedBy(canon, mode, ws, |ws| - 1, c)))
    && (forall n {:trigger now[n]} :: |was| <= n < |now| ==>
          !InFrame(canon, was, canon[now[n].fsym]) && !IsSelf(was, canon[now[n].fsym]) &&
          SlotOf(canon, now, canon[now[n].fsym], n))
  }

  ghost predicate Bound(canon: seq<nat>, mode: Mode, was: seq<FrameWord>, now: seq<FrameWord>, ws: seq<Value>,
      bound: seq<Value>)
    requires KnownWords(canon, was) && KnownWords(canon, now) && |was| >= 1 && KnownVisited(canon, ws)
  {
    FrameGrown(canon, mode, was, now, ws) && AllWordsBound(canon, mode, was, now, ws, bound)
  }

  // ---- Binding one part after the other ----

  lemma {:induction false} KnownConcat(canon: seq<nat>, a: seq<Value>, b: seq<Value>)
    requires KnownVisited(canon, a) && KnownVisited(canon, b)
    ensures KnownVisited(canon, a + b)
  {
  }

  lemma {:induction false} WantedConcat(canon: seq<nat>, mode: Mode, a: seq<Value>, b: seq<Value>, k: int, c: nat)
    requires KnownVisited(canon, a) && KnownVisited(canon, b)
    ensures KnownVisited(canon, a + b)
    ensures k < |a| ==> (WantedBy(canon, mode, a + b, k, c) <==> WantedBy(canon, mode, a, k, c))
    ensures k >= |a| ==> (WantedBy(canon, mode, a + b, k, c) <==>
      WantedBy(canon, mode, a, |a| - 1, c) || WantedBy(canon, mode, b, k - |a|, c))
  {
    var ws := a + b;
    forall j | 0 <= j < |a|
      ensures ws[j] == a[j]
    {
    }
    forall j | 0 <= j < |b|
      ensures ws[|a| + j] == b[j]
    {
    }
    if WantedBy(canon, mode, ws, k, c) {
      var j :| 0 <= j <= k && j < |ws| && Wanted(mode, ws[j]) && canon[ws[j].sym] == c;
      assert ws[j] == if j < |a| then a[j] else b[j - |a|];
    }
    if WantedBy(canon, mode, a, |a| - 1, c) {
      var j :| 0 <= j < |a| && Wanted(mode, a[j]) && canon[a[j].sym] == c;
      assert ws[j] == a[j];
    }
    if WantedBy(canon, mode, b, k - |a|, c) {
      var j :| 0 <= j <= k - |a| && j < |b| && Wanted(mode, b[j]) && canon[b[j].sym] == c;
      assert ws[|a| + j] == b[j];
    }
    if k < |a| && WantedBy(canon, mode, a, k, c) {
      var j :| 0 <= j <= k && j < |a| && Wanted(mode, a[j]) && canon[a[j].sym] == c;
      assert ws[j] == a[j];
    }
  }

  lemma {:induction false} GrownInFrame(canon: seq<nat>, mode: Mode, was: seq<FrameWord>, now: seq<FrameWord>,
      ws: seq<Value>, c: nat)
    requires KnownWords(canon, was) && KnownWords(canon, now) && |was| >= 1 && KnownVisited(canon, ws)
    requires FrameGrown(canon, mode, was, now, ws)
    ensures was <= now && (IsSelf(now, c) <==> IsSelf(was, c))
    ensures InFrame(canon, now, c) <==>
      InFrame(canon, was, c) || (!IsSelf(was, c) && WantedBy(canon, mode, ws, |ws| - 1, c))
  {
  }

  lemma {:induction false} GrownSlot(canon: seq<nat>, mode: Mode, was: seq<FrameWord>, now: seq<FrameWord>,
      ws: seq<Value>, n: nat)
    requires KnownWords(canon, was) && KnownWords(canon, now) && |was| >= 1 && KnownVisited(canon, ws)
    requires FrameGrown(canon, mode, was, now, ws) && |was| <= n < |now|
    ensures !InFrame(canon, was, canon[now[n].fsym]) && !IsSelf(was, canon[now[n].fsym])
    ensures SlotOf(canon, now, canon[now[n].fsym], n)
  {
  }

  lemma {:induction false} SlotsHave(canon: seq<nat>, words: seq<FrameWord>, n: nat)
    requires KnownWords(canon, words) && 1 <= n < |words|
    ensures InFrame(canon, words, canon[words[n].fsym])
  {
  }

  lemma {:induction false} NoneWanted(canon: seq<nat>, mode: Mode, b: seq<Value>, c: nat)
    requires KnownVisited(canon, b)
    ensures |b| == 0 ==> !WantedBy(canon, mode, b, |b| - 1, c)
  {
  }

  lemma {:induction false} FrameGrownIs(canon: seq<nat>, mode: Mode, was: seq<FrameWord>, now: seq<FrameWord>,
      ws: seq<Value>)
    requires KnownWords(canon, was) && KnownWords(canon, now) && |was| >= 1 && KnownVisited(canon, ws) && was <= now
    requires forall c: nat {:trigger InFrame(canon, now, c)} ::
      InFrame(canon, now, c) <==>
        InFrame(canon, was, c) || (!IsSelf(was, c) && WantedBy(canon, mode, ws, |ws| - 1, c))
    requires forall n {:trigger now[n]} :: |was| <= n < |now| ==>
      !InFrame(canon, was, canon[now[n].fsym]) && !IsSelf(was, canon[now[n].fsym]) &&
      SlotOf(canon, now, canon[now[n].fsym], n)
    ensures FrameGrown(canon, mode, was, now, ws)
  {
  }

  /** A slot that holds a canon keeps being the one that does. */
  lemma {:induction false} SlotStays(canon: seq<nat>, mode: Mode, was: seq<FrameWord>, now: seq<FrameWord>,
      ws: seq<Value>, c: nat, n: nat)
    requires KnownWords(canon, was) && KnownWords(canon, now) && |was| >= 1 && KnownVisited(canon, ws)
    requires FrameGrown(canon, mode, was, now, ws) && SlotOf(canon, was, c, n)
    ensures SlotOf(canon, now, c, n)
  {
    forall m {:trigger now[m]} | n < m < |now|
      ensures canon[now[m].fsym] != c
    {
      if m < |was| {
        assert now[m] == was[m];
      } else {
        GrownSlot(canon, mode, was, now, ws, m);
        assert was[n] == now[n];
      }
    }
  }

  lemma {:induction false} FrameConcat(canon: seq<nat>, mode: Mode, was: seq<FrameWord>, mid: seq<FrameWord>,
      now: seq<FrameWord>, a: seq<Value>, b: seq<Value>)
    requires KnownWords(canon, was) && KnownWords(canon, mid) && KnownWords(canon, now) && |was| >= 1
    requires KnownVisited(canon, a) && KnownVisited(canon, b) && |mid| >= 1
    requires FrameGrown(canon, mode, was, mid, a) && FrameGrown(canon, mode, mid, now, b)
    ensures KnownVisited(canon, a + b) && FrameGrown(canon, mode, was, now, a + b)
  {
    KnownConcat(canon, a, b);
    hide InFrame, IsSelf, WantedBy, SlotOf, FrameGrown;
    forall c: nat
      ensures InFrame(canon, now, c) <==>
        InFrame(canon, was, c) || (!IsSelf(was, c) && WantedBy(canon, mode, a + b, |a + b| - 1, c))
    {
      WantedConcat(canon, mode, a, b, |a + b| - 1, c);
      GrownInFrame(canon, mode, was, mid, a, c);
      GrownInFrame(canon, mode, mid, now, b, c);
      NoneWanted(canon, mode, b, c);
    }
    GrownInFrame(canon, mode, was, mid, a, 0);
    GrownInFrame(canon, mode, mid, now, b, 0);
    forall n | |was| <= n < |now|
      ensures !InFrame(canon, was, canon[now[n].fsym]) && !IsSelf(was, canon[now[n].fsym])
      ensures SlotOf(canon, now, canon[now[n].fsym], n)
    {
      var c := canon[now[n].fsym];
      GrownInFrame(canon, mode, was, mid, a, c);
      if n < |mid| {
        assert now[n] == mid[n];
        GrownSlot(canon, mode, was, mid, a, n);
        SlotsHave(canon, mid, n);
        SlotStays(canon, mode, mid, now, b, c, n);
      } else {
        GrownSlot(canon, mode, mid, now, b, n);
      }
    }
    FrameGrownIs(canon, mode, was, now, a + b);
  }

  lemma {:induction false} SlotWas(canon: seq<nat>, mode: Mode, was: seq<FrameWord>, now: seq<FrameWord>,
      ws: seq<Value>, c: nat, n: nat)
    requires KnownWords(canon, was) && KnownWords(canon, now) && |was| >= 1 && KnownVisited(canon, ws)
    requires FrameGrown(canon, mode, was, now, ws) && SlotOf(canon, now, c, n)
    ensures InFrame(canon, was, c) ==> SlotOf(canon, was, c, n)
    ensures !InFrame(canon, was, c) ==> n >= |was| && !IsSelf(was, c)
  {
    if n < |was| {
      assert now[n] == was[n];
      forall m {:trigger was[m]} | n < m < |was|
        ensures canon[was[m].fsym] != c
      {
        assert now[m] == was[m];
      }
    } else {
      GrownSlot(canon, mode, was, now, ws, n);
    }
  }

  lemma {:induction false} EarlierBound(canon: seq<nat>, mode: Mode, was: seq<FrameWord>, mid: seq<FrameWord>,
      now: seq<FrameWord>, a: seq<Value>, b: seq<Value>, k: nat, v: Value)
    requires KnownWords(canon, was) && KnownWords(canon, mid) && KnownWords(canon, now) && |was| >= 1
    requires KnownVisited(canon, a) && KnownVisited(canon, b) && mid <= now && k < |a|
    requires WordBound(canon, mode, was, mid, a, k, v)
    ensures KnownVisited(canon, a + b) && WordBound(canon, mode, was, now, a + b, k, v)
  {
    hide InFrame, WantedBy, SlotOf;
    WantedConcat(canon, mode, a, b, k, canon[a[k].sym]);
    assert (a + b)[k] == a[k];
  }

  lemma {:induction false} SlotHolds(canon: seq<nat>, words: seq<FrameWord>, c: nat, n: nat)
    requires KnownWords(canon, words) && SlotOf(canon, words, c, n)
    ensures 1 <= n < |words| && canon[words[n].fsym] == c
  {
  }

  lemma {:induction false} LaterBound(canon: seq<nat>, mode: Mode, was: seq<FrameWord>, mid: seq<FrameWord>,
      now: seq<FrameWord>, a: seq<Value>, b: seq<Value>, k: nat, v: Value)
    requires KnownWords(canon, was) && KnownWords(canon, mid) && KnownWords(canon, now) && |was| >= 1 && |mid| >= 1
    requires KnownVisited(canon, a) && KnownVisited(canon, b) && mid <= now && k < |b|
    requires FrameGrown(canon, mode, was, mid, a) && WordBound(canon, mode, mid, now, b, k, v)
    ensures KnownVisited(canon, a + b) && WordBound(canon, mode, was, now, a + b, |a| + k, v)
  {
    hide InFrame, WantedBy, SlotOf, FrameGrown;
    var c := canon[b[k].sym];
    WantedConcat(canon, mode, a, b, |a| + k, c);
    assert (a + b)[|a| + k] == b[k];
    GrownInFrame(canon, mode, was, mid, a, c);
    if InFrame(canon, mid, c) {
      SlotWas(canon, mode, was, mid, a, c, v.target.index);
      SlotHolds(canon, mid, c, v.target.index);
    }
  }

  /** Two parts bound one after the other are bound as a whole. */
  lemma {:induction false} BoundConcat(canon: seq<nat>, mode: Mode, was: seq<FrameWord>, mid: seq<FrameWord>,
      now: seq<FrameWord>, a: seq<Value>, b: seq<Value>, a': seq<Value>, b': seq<Value>)
    requires KnownWords(canon, was) && KnownWords(canon, mid) && KnownWords(canon, now) && |was| >= 1 && |mid| >= 1
    requires KnownVisited(canon, a) && KnownVisited(canon, b)
    requires Bound(canon, mode, was, mid, a, a') && Bound(canon, mode, mid, now, b, b')
    ensures KnownVisited(canon, a + b) && Bound(canon, mode, was, now, a + b, a' + b')
  {
    FrameConcat(canon, mode, was, mid, now, a, b);
    GrownInFrame(canon, mode, mid, now, b, 0);
    hide FrameGrown, WordBound;
    var bound := a' + b';
    forall k {:trigger bound[k]} | 0 <= k < |a + b|
      ensures WordBound(canon, mode, was, now, a + b, k, bound[k])
    {
      if k < |a| {
        EarlierBound(canon, mode, was, mid, now, a, b, k, a'[k]);
      } else {
        LaterBound(canon, mode, was, mid, now, a, b, k - |a|, b'[k - |a|]);
      }
    }
  }

  lemma {:induction false} BoundNothing(canon: seq<nat>, mode: Mode, words: seq<FrameWord>)
    requires KnownWords(canon, words) && |words| >= 1
    ensures KnownVisited(canon, []) && Bound(canon, mode, words, words, [], [])
  {
    hide InFrame;
  }
}

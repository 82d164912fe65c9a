/**
 * Collecting the words of a block for a frame: Collect_Start, Collect_Object, Collect_Words, Collect_End,
 * Collect_Frame.
 */
module Collecting {
  import opened Binding

  datatype Modes = Modes(all: bool, deep: bool, noSelf: bool, noDup: bool)

  datatype Option<T> = None | Some(value: T)

  /** The state of a scan: the list so far, and whether it stopped at a word listed twice. */
  datatype Scan = Scan(buf: seq<FrameWord>, dup: bool)

  // ---- What a scan collects, word by word ----

  ghost predicate KnownScan(canon: seq<nat>, ws: seq<Value>) {
    forall i {:trigger ws[i]} :: 0 <= i < |ws| ==> ws[i].Word? && ws[i].sym < |canon|
  }

  predicate Accepts(modes: Modes, w: Value)
    requires w.Word?
  {
    w.wkind == SetWord || modes.all
  }

  ghost function Step(canon: seq<nat>, modes: Modes, buf: seq<FrameWord>, w: Value): (s: Scan)
    requires CanonTable(canon) && KnownWords(canon, buf) && |buf| >= 1 && w.Word? && w.sym < |canon|
    ensures KnownWords(canon, s.buf) && |s.buf| >= |buf| && buf <= s.buf
  {
    if Entry(canon, buf, !modes.noSelf, canon[w.sym]) != 0 then Scan(buf, modes.noDup)
    else if Accepts(modes, w) then Scan(buf + [FrameWord(w.wkind, w.sym)], false)
    else Scan(buf, false)
  }

  /** A scan of a list of words, up to the first duplicate where duplicates are not allowed. */
  ghost function Collected(canon: seq<nat>, modes: Modes, buf: seq<FrameWord>, ws: seq<Value>): (s: Scan)
    requires CanonTable(canon) && KnownWords(canon, buf) && |buf| >= 1 && KnownScan(canon, ws)
    ensures KnownWords(canon, s.buf) && buf <= s.buf
    decreases |ws|
  {
    if |ws| == 0 then Scan(buf, false)
    else
      var s := Collected(canon, modes, buf, ws[..|ws| - 1]);
      if s.dup then s else Step(canon, modes, s.buf, ws[|ws| - 1])
  }

  lemma {:induction false} CollectedConcat(canon: seq<nat>, modes: Modes, buf: seq<FrameWord>, ws: seq<Value>,
      us: seq<Value>)
    requires CanonTable(canon) && KnownWords(canon, buf) && |buf| >= 1 && KnownScan(canon, ws) && KnownScan(canon, us)
    ensures KnownScan(canon, ws + us)
    ensures var s := Collected(canon, modes, buf, ws);
      Collected(canon, modes, buf, ws + us) == if s.dup then s else Collected(canon, modes, s.buf, us)
    decreases |us|
  {
    if |us| == 0 {
      assert ws + us == ws;
    } else {
      CollectedConcat(canon, modes, buf, ws, us[..|us| - 1]);
      assert (ws + us)[..|ws + us| - 1] == ws + us[..|us| - 1];
    }
  }

  // ---- The same result without a running state ----

  /** Word k is already listed when the scan reaches it. */
  ghost predicate Repeats(canon: seq<nat>, modes: Modes, start: seq<FrameWord>, ws: seq<Value>, k: nat)
    requires CanonTable(canon) && KnownWords(canon, start) && KnownScan(canon, ws) && k < |ws|
  {
    || Entry(canon, start, !modes.noSelf, canon[ws[k].sym]) != 0
    || exists j {:trigger ws[j]} :: 0 <= j < k && Accepts(modes, ws[j]) && canon[ws[j].sym] == canon[ws[k].sym]
  }

  /** The accepted words that are not repeats, in order: each new canon at its first occurrence. */
  ghost function FirstOnes(canon: seq<nat>, modes: Modes, start: seq<FrameWord>, ws: seq<Value>): seq<FrameWord>
    requires CanonTable(canon) && KnownWords(canon, start) && KnownScan(canon, ws)
    decreases |ws|
  {
    if |ws| == 0 then []
    else
      var n := |ws| - 1;
      FirstOnes(canon, modes, start, ws[..n])
      + if Accepts(modes, ws[n]) && !Repeats(canon, modes, start, ws, n)
        then [FrameWord(ws[n].wkind, ws[n].sym)] else []
  }

  ghost predicate AcceptedBefore(canon: seq<nat>, modes: Modes, ws: seq<Value>, c: nat)
    requires KnownScan(canon, ws)
  {
    exists j {:trigger ws[j]} :: 0 <= j < |ws| && Accepts(modes, ws[j]) && canon[ws[j].sym] == c
  }

  lemma {:induction false} RepeatsIff(canon: seq<nat>, modes: Modes, start: seq<FrameWord>, ws: seq<Value>, k: nat)
    requires CanonTable(canon) && KnownWords(canon, start) && KnownScan(canon, ws) && k < |ws|
    ensures Repeats(canon, modes, start, ws, k) <==>
      || Entry(canon, start, !modes.noSelf, canon[ws[k].sym]) != 0
      || AcceptedBefore(canon, modes, ws[..k], canon[ws[k].sym])
  {
    hide Entry;
    var c := canon[ws[k].sym];
    if exists j {:trigger ws[j]} :: 0 <= j < k && Accepts(modes, ws[j]) && canon[ws[j].sym] == c {
      var j: nat :| j < k && Accepts(modes, ws[j]) && canon[ws[j].sym] == c;
      assert ws[..k][j] == ws[j];
    }
  }

  lemma {:induction false} AcceptedSplit(canon: seq<nat>, modes: Modes, ws: seq<Value>, c: nat)
    requires |ws| > 0 && KnownScan(canon, ws)
    ensures var n := |ws| - 1;
      AcceptedBefore(canon, modes, ws, c) <==>
        AcceptedBefore(canon, modes, ws[..n], c) || (Accepts(modes, ws[n]) && canon[ws[n].sym] == c)
  {
    var n := |ws| - 1;
    if AcceptedBefore(canon, modes, ws, c) {
      var j: nat :| j < |ws| && Accepts(modes, ws[j]) && canon[ws[j].sym] == c;
      assert j < n ==> ws[..n][j] == ws[j];
    }
  }

  /** A canon has a table entry exactly when it had one at the start or was accepted since. */
  lemma {:induction false} ListedIff(canon: seq<nat>, modes: Modes, start: seq<FrameWord>, ws: seq<Value>, c: nat)
    requires CanonTable(canon) && KnownWords(canon, start) && |start| >= 1 && KnownScan(canon, ws)
    requires !Collected(canon, modes, start, ws).dup
    ensures Entry(canon, Collected(canon, modes, start, ws).buf, !modes.noSelf, c) != 0 <==>
      Entry(canon, start, !modes.noSelf, c) != 0 || AcceptedBefore(canon, modes, ws, c)
    decreases |ws|
  {
    if |ws| > 0 {
      var n := |ws| - 1;
      var s := Collected(canon, modes, start, ws[..n]);
      ListedIff(canon, modes, start, ws[..n], c);
      ListedIff(canon, modes, start, ws[..n], canon[ws[n].sym]);
      LookupAppend(canon, s.buf, FrameWord(ws[n].wkind, ws[n].sym), c);
      AcceptedSplit(canon, modes, ws, c);
    }
  }

  /** A scan that meets no forbidden duplicate collects exactly the first occurrences. */
  lemma {:induction false} CollectedFirst(canon: seq<nat>, modes: Modes, start: seq<FrameWord>, ws: seq<Value>)
    requires CanonTable(canon) && KnownWords(canon, start) && |start| >= 1 && KnownScan(canon, ws)
    requires !Collected(canon, modes, start, ws).dup
    ensures Collected(canon, modes, start, ws).buf == start + FirstOnes(canon, modes, start, ws)
    decreases |ws|
  {
    if |ws| > 0 {
      var n := |ws| - 1;
      CollectedFirst(canon, modes, start, ws[..n]);
      ListedIff(canon, modes, start, ws[..n], canon[ws[n].sym]);
      RepeatsIff(canon, modes, start, ws, n);
    }
  }

  ghost predicate AnyRepeats(canon: seq<nat>, modes: Modes, start: seq<FrameWord>, ws: seq<Value>)
    requires CanonTable(canon) && KnownWords(canon, start) && KnownScan(canon, ws)
  {
    exists k: nat :: k < |ws| && Repeats(canon, modes, start, ws, k)
  }

  /** The duplicate trap is sprung exactly when duplicates are forbidden and some word repeats. */
  lemma {:induction false} DuplicateIff(canon: seq<nat>, modes: Modes, start: seq<FrameWord>, ws: seq<Value>)
    requires CanonTable(canon) && KnownWords(canon, start) && |start| >= 1 && KnownScan(canon, ws)
    ensures Collected(canon, modes, start, ws).dup <==> modes.noDup && AnyRepeats(canon, modes, start, ws)
    decreases |ws|
  {
    if |ws| > 0 {
      var n := |ws| - 1;
      var s := Collected(canon, modes, start, ws[..n]);
      DuplicateIff(canon, modes, start, ws[..n]);
      forall k: nat | k < n
        ensures Repeats(canon, modes, start, ws, k) <==> Repeats(canon, modes, start, ws[..n], k)
      {
        RepeatsIff(canon, modes, start, ws, k);
        RepeatsIff(canon, modes, start, ws[..n], k);
        assert ws[..n][..k] == ws[..k];
      }
      RepeatsIff(canon, modes, start, ws, n);
      if !s.dup {
        ListedIff(canon, modes, start, ws[..n], canon[ws[n].sym]);
      }
    }
  }

  lemma {:induction false} NewIsDistinct(canon: seq<nat>, words: seq<FrameWord>, w: FrameWord)
    requires KnownWords(canon, words) && w.fsym < |canon| && DistinctCanons(canon, words)
    requires Lookup(canon, words, canon[w.fsym]) == 0
    ensures KnownWords(canon, words + [w]) && DistinctCanons(canon, words + [w])
  {
    forall i | 1 <= i < |words|
      ensures canon[words[i].fsym] != canon[w.fsym]
    {
      if canon[words[i].fsym] == canon[w.fsym] {
        LookupFinds(canon, words, canon[w.fsym], i);
      }
    }
  }

  /** The collected canons are pairwise distinct when those of the prior list are. */
  lemma {:induction false} CollectedDistinct(canon: seq<nat>, modes: Modes, start: seq<FrameWord>, ws: seq<Value>)
    requires CanonTable(canon) && KnownWords(canon, start) && |start| >= 1 && KnownScan(canon, ws)
    requires DistinctCanons(canon, start)
    ensures DistinctCanons(canon, Collected(canon, modes, start, ws).buf)
    decreases |ws|
  {
    if |ws| > 0 {
      var n := |ws| - 1;
      CollectedDistinct(canon, modes, start, ws[..n]);
      var s := Collected(canon, modes, start, ws[..n]);
      if !s.dup && Entry(canon, s.buf, !modes.noSelf, canon[ws[n].sym]) == 0 {
        NewIsDistinct(canon, s.buf, FrameWord(ws[n].wkind, ws[n].sym));
      }
    }
  }
}

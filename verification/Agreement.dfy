/**
 * Where the recursive evaluator has a value, the whole-stack evaluator has the same one: the stack grows by exactly
 * that cell, every cell below, the top cell included, and the call frame are as before, errors are the same.
 */
module Agreement {
  import opened EvalSpec
  import opened StackSpec

  /** x is the outcome p on the stack of m: one more cell, holding the value. */
  ghost predicate Grew(p: Res, x: Out, m: State) {
    match p
    case Done(v, j, e) =>
      && x.On? && x.next == j && x.m.env == e && x.m.dsf == m.dsf && x.m.dsp == m.dsp + 1
      && Live(x.m) && Below(m.ds, x.m.ds, m.dsp) && x.m.ds[x.m.dsp] == v
    case End => x == AtEnd
    case Trap(e) => x == Failed(e)
    case Borrows => true
  }

  /** The same for a call frame over cell off: n slots filled. */
  ghost predicate FilledIn(a: Args, x: Out, m: State, off: nat, n: nat) {
    match a
    case Filled(slots, j, e) =>
      && x.On? && x.next == j && x.m.env == e && x.m.dsf == m.dsf && x.m.dsp == m.dsp
      && Live(x.m) && Below(m.ds, x.m.ds, off) && off + n < |x.m.ds| && x.m.ds[off + 1..off + 1 + n] == slots
    case ArgTrap(e) => x == Failed(e)
    case ArgBorrows => true
  }

  /** The same for one argument moved to slot. */
  ghost predicate Placed(p: Res, x: Out, m: State, slot: nat) {
    match p
    case Done(v, j, e) =>
      && x.On? && x.next == j && x.m.env == e && x.m.dsf == m.dsf && x.m.dsp == m.dsp
      && Live(x.m) && slot < |x.m.ds| && x.m.ds[slot] == v && m.dsp < |m.ds|
      && forall k {:trigger x.m.ds[k]} :: 0 <= k <= m.dsp && k != slot ==> x.m.ds[k] == m.ds[k]
    case End => true
    case Trap(e) => x == Failed(e)
    case Borrows => true
  }

  /** The same for a block, whose value lies just above the top. */
  ghost predicate Left(p: Res, x: Out, m: State) {
    match p
    case Done(v, j, e) =>
      && x.On? && x.m.env == e && x.m.dsf == m.dsf && x.m.dsp == m.dsp
      && x.m.dsp + 1 < |x.m.ds| && Below(m.ds, x.m.ds, m.dsp) && x.m.ds[m.dsp + 1] == v
    case End => true
    case Trap(e) => x == Failed(e)
    case Borrows => true
  }

  /** What the frame of a call starts with. */
  ghost function StartSlots(c: Context, func: Val, top: Val): (slots: seq<Val>)
    ensures |slots| == |Params(c, func)|
  {
    if func.Op? then Nones(|Params(c, func)|)[0 := top] else Nones(|Params(c, func)|)
  }

  lemma FilledNot(m: State, off: nat, n: nat)
    ensures forall e :: FilledIn(ArgTrap(e), Failed(e), m, off, n)
    ensures forall x :: FilledIn(ArgBorrows, x, m, off, n)
  {
  }

  lemma FilledNow(m: State, i: nat, off: nat, n: nat)
    requires Live(m) && m.dsp == off + n
    ensures FilledIn(Filled(m.ds[off + 1..off + 1 + n], i, m.env), On(i, m), m, off, n)
  {
  }

  lemma {:induction false} FilledAlso(a: Args, x: Out, m: State, w: State, off: nat, n: nat)
    requires FilledIn(a, x, w, off, n) && w.dsf == m.dsf && w.dsp == m.dsp && off <= m.dsp < |m.ds|
    requires forall k {:trigger w.ds[k]} :: 0 <= k <= off ==> k < |w.ds| && w.ds[k] == m.ds[k]
    ensures FilledIn(a, x, m, off, n)
  {
  }

  lemma {:induction false} SlotSet(was: seq<Val>, now: seq<Val>, base: nat, n: nat, a: nat, v: Val)
    requires base + n <= |was| && base + n <= |now| && a < n && now[base + a] == v
    requires forall k {:trigger now[k]} :: base <= k < base + n && k != base + a ==> now[k] == was[k]
    ensures now[base..base + n] == was[base..base + n][a := v]
  {
  }

  lemma PushGrew(m: State, v: Val, next: nat)
    requires Live(m)
    ensures Grew(Done(v, next, m.env), On(next, Pushed(m, v)), m)
  {
  }

  lemma HeadRefused(c: Context, m: State, block: seq<Val>, word: nat, func: Val)
    requires Live(m) && 0 < |block| && func.Op?
    ensures RunOperator(c, m, block, 0, word, func) == Failed(NoOpArg)
  {
  }

  lemma {:induction false} AgreeNext(c: Context, m: State, block: seq<Val>, i: nat, op: bool)
    requires Live(m)
    ensures Grew(Next(c, m.env, block, i, op), RunNext(c, m, block, i, op), m)
    decreases block, |block| - i, 4
  {
    hide Chain, Operate, First, Call, Finish, Gather, Argument, Block, Bare;
    hide RunChain, RunOperator, RunFirst, RunCall, RunPath, RunBody, RunArgs, Walk, RunArgument, RunBlock, RunRest;
    if i < |block| {
      AgreeFirst(c, m, block, i);
      var first := First(c, m.env, block, i);
      if first.Done? && !op {
        AgreeChain(c, RunFirst(c, m, block, i).m, block, first.next);
      }
    }
  }

  lemma {:induction false} AgreeChain(c: Context, m: State, block: seq<Val>, i: nat)
    requires Live(m) && m.dsp >= 1 && 0 < i <= |block|
    ensures Grew(Chain(c, m.env, block, i, m.ds[m.dsp]), RunChain(c, m, block, i), m.(dsp := m.dsp - 1))
    decreases block, |block| - i, 3
  {
    hide Next, Operate, First, Call, Finish, Gather, Argument, Block, Bare;
    hide RunNext, RunOperator, RunFirst, RunCall, RunPath, RunBody, RunArgs, Walk, RunArgument, RunBlock, RunRest;
    if i < |block| && IsOpWord(m.env, block[i]) {
      var func := m.env[block[i].sym];
      AgreeOperator(c, m, block, i, block[i].sym, func);
      var x := RunOperator(c, m, block, i, block[i].sym, func);
      if Operate(c, m.env, block, i, func, m.ds[m.dsp]).Done? {
        AgreeChain(c, x.m, block, x.next);
      }
    }
  }

  lemma {:induction false} AgreeOperator(c: Context, m: State, block: seq<Val>, i: nat, word: nat, func: Val)
    requires Live(m) && m.dsp >= 1 && 0 < i < |block| && func.Op?
    ensures Grew(Operate(c, m.env, block, i, func, m.ds[m.dsp]), RunOperator(c, m, block, i, word, func),
      m.(dsp := m.dsp - 1))
    decreases block, |block| - i, 2
  {
    hide Next, Chain, First, Call, Finish, Gather, Argument, Block, Bare;
    hide RunNext, RunChain, RunFirst, RunCall, RunPath, RunBody, RunArgs, Walk, RunArgument, RunBlock, RunRest;
    var framed := Framed(m, true, block, i, word, func);
    AgreeBody(c, Pushed(framed, framed.ds[m.dsp]), block, i, m.dsp, func, []);
  }

  lemma {:induction false} AgreeBody(c: Context, m: State, block: seq<Val>, i: nat, r: nat, func: Val, path: seq<nat>)
    requires Live(m) && i < |block| && m.dsp == r + DSF_SIZE + FirstParam(func) && m.ds[r + DSF_SIZE] == func
    requires r >= 1 && m.ds[r + 1].Back?
    ensures Grew(Finish(c, func, Gather(c, m.env, block, i + 1, Params(c, func), path, FirstParam(func),
      StartSlots(c, func, m.ds[m.dsp]), func.Op?)),
                 RunBody(c, m, block, i, r, func, path), m.(dsp := r - 1, dsf := m.ds[r + 1].dsf))
    decreases block, |block| - i, 1
  {
    hide Next, Chain, First, Call, Operate, Gather, Argument, Block, Bare;
    hide RunNext, RunChain, RunFirst, RunCall, RunPath, RunOperator, RunArgs, Walk, RunArgument, RunBlock, RunRest;
    AgreeArgs(c, m, block, i + 1, r + DSF_SIZE, path);
  }

  lemma {:induction false} AgreeArgs(c: Context, m: State, block: seq<Val>, i: nat, off: nat, path: seq<nat>)
    requires Live(m) && i <= |block| && off < |m.ds| && off + FirstParam(m.ds[off]) == m.dsp
    ensures var func := m.ds[off];
      FilledIn(Gather(c, m.env, block, i, Params(c, func), path, FirstParam(func),
        StartSlots(c, func, m.ds[m.dsp]), func.Op?),
               RunArgs(c, m, block, i, off, path), m.(dsp := off + |Params(c, func)|), off, |Params(c, func)|)
    decreases block, |block| - i, 7
  {
    hide Next, Chain, First, Call, Operate, Gather, Argument, Block, Finish, Bare;
    hide RunNext, RunChain, RunFirst, RunCall, RunPath, RunOperator, RunBody, Walk, RunArgument, RunBlock, RunRest;
    var func := m.ds[off];
    var n := |Params(c, func)|;
    var w := Defaulted(m, n - FirstParam(func));
    assert w.ds[off + 1..off + 1 + n] == StartSlots(c, func, m.ds[m.dsp]);
    AgreeWalk(c, w, block, i, off, Params(c, func), path, FirstParam(func));
  }

  lemma {:induction false} AgreeWalk(c: Context, m: State, block: seq<Val>, i: nat, off: nat, params: seq<Param>,
      path: seq<nat>, k: nat)
    requires Live(m) && i <= |block| && k <= |params| && m.dsp == off + |params|
    ensures FilledIn(Gather(c, m.env, block, i, params, path, k, m.ds[off + 1..off + 1 + |params|], m.ds[off].Op?),
                     Walk(c, m, block, i, off, params, path, k), m, off, |params|)
    decreases block, |block| - i, 6, |path|, |params| - k, 1
  {
    hide Next, Chain, First, Call, Operate, Argument, Block, Finish, TypeOk, Bare, FilledIn, Below;
    hide RunNext, RunChain, RunFirst, RunCall, RunPath, RunOperator, RunBody, RunArgs, RunArgument, RunBlock, RunRest;
    if k < |params| && params[k].kind != Refine {
      AgreeTake(c, m, block, i, off, params, path, k);
    } else if path != [] {
      AgreeJump(c, m, block, i, off, params, path, k);
    } else {
      FilledNow(m, i, off, |params|);
    }
  }

  lemma {:induction false} AgreeTake(c: Context, m: State, block: seq<Val>, i: nat, off: nat, params: seq<Param>,
      path: seq<nat>, k: nat)
    requires Live(m) && i <= |block| && k < |params| && m.dsp == off + |params| && params[k].kind != Refine
    ensures FilledIn(Gather(c, m.env, block, i, params, path, k, m.ds[off + 1..off + 1 + |params|], m.ds[off].Op?),
                     Walk(c, m, block, i, off, params, path, k), m, off, |params|)
    decreases block, |block| - i, 6, |path|, |params| - k, 0
  {
    hide Next, Chain, First, Call, Operate, Argument, Block, Finish, TypeOk, Bare, FilledIn, Below;
    hide RunNext, RunChain, RunFirst, RunCall, RunPath, RunOperator, RunBody, RunArgs, RunArgument, RunBlock, RunRest;
    var n := |params|;
    var op := m.ds[off].Op?;
    FilledNot(m, off, n);
    AgreeArgument(c, m, block, i, params[k], off + 1 + k, op);
    var one := Argument(c, m.env, block, i, params[k], op);
    if one.Done? {
      var x := RunArgument(c, m, block, i, params[k], off + 1 + k, op);
      SlotSet(m.ds, x.m.ds, off + 1, n, k, one.v);
      AgreeWalk(c, x.m, block, one.next, off, params, path, k + 1);
      FilledAlso(Gather(c, one.env, block, one.next, params, path, k + 1, x.m.ds[off + 1..off + 1 + n], op),
        Walk(c, x.m, block, one.next, off, params, path, k + 1), m, x.m, off, n);
    }
  }

  lemma {:induction false} AgreeJump(c: Context, m: State, block: seq<Val>, i: nat, off: nat, params: seq<Param>,
      path: seq<nat>, k: nat)
    requires Live(m) && i <= |block| && k <= |params| && m.dsp == off + |params|
    requires path != [] && (k < |params| ==> params[k].kind == Refine)
    ensures FilledIn(Gather(c, m.env, block, i, params, path, k, m.ds[off + 1..off + 1 + |params|], m.ds[off].Op?),
                     Walk(c, m, block, i, off, params, path, k), m, off, |params|)
    decreases block, |block| - i, 6, |path|, |params| - k, 0
  {
    hide Next, Chain, First, Call, Operate, Argument, Block, Finish, TypeOk, Bare, FilledIn, Below;
    hide RunNext, RunChain, RunFirst, RunCall, RunPath, RunOperator, RunBody, RunArgs, RunArgument, RunBlock, RunRest;
    var n := |params|;
    FilledNot(m, off, n);
    var h := FindRef(params, path[0], 0);
    if h < n {
      var w := m.(ds := m.ds[off + 1 + h := Logic(true)]);
      SlotSet(m.ds, w.ds, off + 1, n, h, Logic(true));
      AgreeWalk(c, w, block, i, off, params, path[1..], h + 1);
      FilledAlso(Gather(c, m.env, block, i, params, path[1..], h + 1, w.ds[off + 1..off + 1 + n], m.ds[off].Op?),
        Walk(c, w, block, i, off, params, path[1..], h + 1), m, w, off, n);
    }
  }

  lemma {:induction false} AgreeArgument(c: Context, m: State, block: seq<Val>, i: nat, p: Param, slot: nat, op: bool)
    requires Live(m) && i <= |block| && p.kind != Refine && slot <= m.dsp
    ensures Placed(Argument(c, m.env, block, i, p, op), RunArgument(c, m, block, i, p, slot, op), m, slot)
    decreases block, |block| - i, 5
  {
    hide Next, Chain, First, Call, Operate, Gather, Block, Finish, Bare;
    hide RunNext, RunChain, RunFirst, RunCall, RunPath, RunOperator, RunBody, RunArgs, Walk, RunBlock, RunRest;
    if p.kind == Normal || (p.kind == Quote && i < |block| && (block[i].Paren? || block[i].GetWord?)) {
      AgreeNext(c, m, block, i, op);
    }
  }

  lemma {:induction false} AgreeFirst(c: Context, m: State, block: seq<Val>, i: nat)
    requires Live(m) && i < |block|
    ensures Grew(First(c, m.env, block, i), RunFirst(c, m, block, i), m)
    decreases block, |block| - i, 3, 1
  {
    hide Next, Chain, Operate, Call, Gather, Block, Finish, Argument, Bare, Pushed;
    hide RunNext, RunChain, RunOperator, RunWord, RunCall, RunPath, RunBody, RunArgs, Walk, RunBlock, RunRest,
      RunArgument;
    if block[i].Word? {
      AgreeWord(c, m, block, i);
    } else if block[i].Path? {
      AgreePath(c, m, block, i);
    } else if block[i].SetWord? {
      AgreeNext(c, m, block, i + 1, false);
    } else if block[i].Paren? {
      AgreeBlock(c, m, block[i].items, 0);
    } else if block[i].Func? {
      AgreeCall(c, m, block, i, 0, block[i]);
    } else if block[i].Op? {
      HeadRefused(c, m, block, 0, block[i]);
    } else if block[i].GetWord? {
      if block[i].sym in m.env {
        PushGrew(m, m.env[block[i].sym], i + 1);
      }
    } else if block[i].LitWord? {
      PushGrew(m, Word(block[i].sym), i + 1);
    } else {
      PushGrew(m, block[i], i + 1);
    }
  }

  lemma {:induction false} AgreeWord(c: Context, m: State, block: seq<Val>, i: nat)
    requires Live(m) && i < |block| && block[i].Word?
    ensures Grew(First(c, m.env, block, i), RunWord(c, m, block, i), m)
    decreases block, |block| - i, 3, 0
  {
    hide Next, Chain, Operate, Call, Gather, Block, Finish, Argument, Bare, Pushed;
    hide RunNext, RunChain, RunOperator, RunCall, RunPath, RunBody, RunArgs, Walk, RunBlock, RunRest, RunArgument,
      RunFirst;
    var s := block[i].sym;
    if s in m.env {
      PushGrew(m, m.env[s], i + 1);
      if m.env[s].Func? {
        AgreeCall(c, m, block, i, s, m.env[s]);
      } else if m.env[s].Op? {
        HeadRefused(c, m, block, s, m.env[s]);
      }
    }
  }

  lemma {:induction false} AgreeCall(c: Context, m: State, block: seq<Val>, i: nat, word: nat, func: Val)
    requires Live(m) && i < |block| && func.Func?
    ensures Grew(Call(c, m.env, block, i, func, []), RunCall(c, m, block, i, word, func), m)
    decreases block, |block| - i, 2
  {
    hide Next, Chain, First, Operate, Gather, Block, Finish, Argument, Bare;
    hide RunNext, RunChain, RunFirst, RunOperator, RunBody, RunArgs, Walk, RunBlock, RunRest, RunArgument;
    AgreeBody(c, Framed(m, false, block, i, word, func), block, i, m.dsp + 1, func, []);
  }

  lemma {:induction false} AgreePath(c: Context, m: State, block: seq<Val>, i: nat)
    requires Live(m) && i < |block| && block[i].Path?
    ensures Grew(First(c, m.env, block, i), RunPath(c, m, block, i, block[i].head, block[i].refs), m)
    decreases block, |block| - i, 2
  {
    hide Next, Chain, Operate, Gather, Block, Finish, Argument, Bare, Framed;
    hide RunNext, RunChain, RunFirst, RunOperator, RunBody, RunArgs, Walk, RunBlock, RunRest, RunArgument;
    var s := block[i].head;
    if s in m.env {
      PushGrew(m, m.env[s], i + 1);
      if m.env[s].Func? {
        AgreeBody(c, Framed(Pushed(m, m.env[s]), true, block, i, s, m.env[s]), block, i, m.dsp + 1, m.env[s],
          block[i].refs);
      }
    }
  }

  lemma {:induction false} AgreeBlock(c: Context, m: State, block: seq<Val>, i: nat)
    requires Live(m) && i <= |block|
    ensures Left(Block(c, m.env, block, i), RunBlock(c, m, block, i), m)
    decreases block, |block| - i, 6
  {
    hide Next, Chain, First, Call, Operate, Gather, Finish, Argument, Bare;
    hide RunNext, RunChain, RunFirst, RunCall, RunPath, RunOperator, RunBody, RunArgs, Walk, RunRest, RunArgument;
    if i < |block| {
      AgreeRest(c, m, block, i);
    }
  }

  lemma {:induction false} AgreeRest(c: Context, m: State, block: seq<Val>, i: nat)
    requires Live(m) && i < |block|
    ensures Left(Block(c, m.env, block, i), RunRest(c, m, block, i, m.dsp), m)
    decreases block, |block| - i, 5
  {
    hide Next, Chain, First, Call, Operate, Gather, Finish, Argument, Bare;
    hide RunNext, RunChain, RunFirst, RunCall, RunPath, RunOperator, RunBody, RunArgs, Walk, RunBlock, RunArgument;
    AgreeNext(c, m, block, i, false);
    var one := Next(c, m.env, block, i, false);
    if one.Done? && one.next < |block| {
      var x := RunNext(c, m, block, i, false);
      AgreeRest(c, x.m.(dsp := x.m.dsp - 1), block, x.next);
    }
  }
}

/**
 * What evaluation leaves of the stack below it, operators in the place of values included. The number of cells is
 * settled in StackSpec: one more, unless the value is borrowed. Here: the cells below stay as they were and no call
 * frame is written over, provided that no path names a refinement twice; and when a block completes.
 */
module Growth {
  import opened EvalSpec
  import opened StackSpec
  import opened Refinements

  /** No path of the block, or of a paren in it, names a refinement twice. */
  ghost predicate Plain(block: seq<Val>)
    decreases block
  {
    forall k {:trigger block[k]} :: 0 <= k < |block| ==> PlainItem(block[k])
  }

  ghost predicate PlainItem(v: Val)
    decreases v
  {
    match v
    case Paren(items) => Plain(items)
    case Path(_, refs) => Distinct(refs)
    case _ => true
  }

  /** No frame is lost, and if all goes well the cells up to top and the current frame are as they were. */
  ghost predicate Kept(x: Out, m: State, top: int) {
    x != Lost && (x.On? ==> x.m.dsf == m.dsf && Below(m.ds, x.m.ds, top))
  }

  /** The topmost cell an expression leaves alone: a borrowed value replaces the top. */
  ghost function Safe(m: State, block: seq<Val>, i: nat): int {
    if Bare(m.env, block, i) then m.dsp - 1 else m.dsp
  }

  lemma {:induction false} OrderFits(params: seq<Param>, path: seq<nat>, first: nat)
    requires first <= |params| && Distinct(path) && (first > 0 ==> path == [])
    ensures |Order(params, path, first)| <= |params|
  {
    if first == 0 {
      OrderDistinct(params, path);
      DistinctFew(Order(params, path, 0), |params|);
    } else {
      ArgRunDistinct(params, first);
      DistinctFew(ArgRun(params, first), |params|);
    }
  }

  /** A stack that has shrunk never comes back: the block ends in an error. */
  lemma {:induction false} Drifted(c: Context, m: State, block: seq<Val>, i: nat, start: nat)
    requires Live(m) && i < |block| && m.dsp < start
    ensures !RunRest(c, m, block, i, start).On?
    decreases |block| - i
  {
    hide RunNext, RunChain, RunFirst, RunCall, RunPath, RunOperator, RunBody, RunArgs, Walk, RunBlock, RunArgument,
      Bare;
    var x := RunNext(c, m, block, i, false);
    if x.On? && x.next < |block| {
      Drifted(c, x.m.(dsp := x.m.dsp - 1), block, x.next, start);
    }
  }

  lemma {:induction false} PushKeeps(m: State, v: Val, next: nat)
    requires Live(m)
    ensures Kept(On(next, Pushed(m, v)), m, m.dsp)
  {
  }

  lemma {:induction false} KeepNext(c: Context, m: State, block: seq<Val>, i: nat, op: bool)
    requires Live(m) && Plain(block)
    ensures Kept(RunNext(c, m, block, i, op), m, Safe(m, block, i))
    decreases block, |block| - i, 4
  {
    hide RunChain, RunOperator, RunFirst, RunCall, RunPath, RunBody, RunArgs, Walk, RunArgument, RunBlock, RunRest,
      Plain, Bare;
    if i < |block| {
      KeepFirst(c, m, block, i);
      var first := RunFirst(c, m, block, i);
      if first.On? {
        KeepChain(c, first.m, block, first.next);
      }
    }
  }

  lemma {:induction false} KeepChain(c: Context, m: State, block: seq<Val>, i: nat)
    requires Live(m) && m.dsp >= 1 && 0 < i <= |block| && Plain(block)
    ensures Kept(RunChain(c, m, block, i), m, m.dsp - 1)
    decreases block, |block| - i, 3
  {
    hide RunNext, RunOperator, RunFirst, RunCall, RunPath, RunBody, RunArgs, Walk, RunArgument, RunBlock, RunRest,
      Plain, Bare;
    if i < |block| && IsOpWord(m.env, block[i]) {
      KeepOperator(c, m, block, i, block[i].sym, m.env[block[i].sym]);
      var once := RunOperator(c, m, block, i, block[i].sym, m.env[block[i].sym]);
      if once.On? {
        KeepChain(c, once.m, block, once.next);
      }
    }
  }

  lemma {:induction false} KeepOperator(c: Context, m: State, block: seq<Val>, i: nat, word: nat, func: Val)
    requires Live(m) && i < |block| && func.Op? && Plain(block)
    ensures Kept(RunOperator(c, m, block, i, word, func), m, m.dsp - 1)
    decreases block, |block| - i, 2
  {
    hide RunNext, RunChain, RunFirst, RunCall, RunPath, RunBody, RunArgs, Walk, RunArgument, RunBlock, RunRest, Plain,
      Bare;
    if m.dsp > 0 && i > 0 {
      var framed := Framed(m, true, block, i, word, func);
      DistinctNil();
      KeepBody(c, Pushed(framed, framed.ds[m.dsp]), block, i, m.dsp, func, []);
    }
  }

  lemma {:induction false} KeepCall(c: Context, m: State, block: seq<Val>, i: nat, word: nat, func: Val)
    requires Live(m) && i < |block| && func.Func? && Plain(block)
    ensures Kept(RunCall(c, m, block, i, word, func), m, m.dsp)
    decreases block, |block| - i, 2
  {
    hide RunNext, RunChain, RunFirst, RunOperator, RunPath, RunBody, RunArgs, Walk, RunArgument, RunBlock, RunRest,
      Plain, Bare;
    DistinctNil();
    KeepBody(c, Framed(m, false, block, i, word, func), block, i, m.dsp + 1, func, []);
  }

  lemma {:induction false} KeepPath(c: Context, m: State, block: seq<Val>, i: nat, s: nat, refs: seq<nat>)
    requires Live(m) && i < |block| && Plain(block) && Distinct(refs)
    ensures Kept(RunPath(c, m, block, i, s, refs), m, m.dsp)
    decreases block, |block| - i, 2
  {
    hide RunNext, RunChain, RunFirst, RunOperator, RunCall, RunBody, RunArgs, Walk, RunArgument, RunBlock, RunRest,
      Plain, Bare, Distinct;
    if s in m.env && m.env[s].Func? {
      KeepBody(c, Framed(Pushed(m, m.env[s]), true, block, i, s, m.env[s]), block, i, m.dsp + 1, m.env[s], refs);
    }
  }

  lemma {:induction false} KeepBody(c: Context, m: State, block: seq<Val>, i: nat, r: nat, func: Val, path: seq<nat>)
    requires Live(m) && i < |block| && m.dsp == r + DSF_SIZE + FirstParam(func) && m.ds[r + DSF_SIZE] == func
    requires m.ds[r + 1].Back? && Plain(block) && Distinct(path) && (func.Op? ==> path == [])
    ensures Kept(RunBody(c, m, block, i, r, func, path), m.(dsf := m.ds[r + 1].dsf), r - 1)
    decreases block, |block| - i, 1
  {
    hide RunNext, RunChain, RunFirst, RunOperator, RunCall, RunPath, RunArgs, Walk, RunArgument, RunBlock, RunRest,
      Plain, Bare, Distinct;
    KeepArgs(c, m, block, i + 1, r + DSF_SIZE, path);
  }

  /** There are cells enough in a frame for every argument of the walk to borrow one. */
  lemma {:induction false} KeepArgs(c: Context, m: State, block: seq<Val>, i: nat, off: nat, path: seq<nat>)
    requires Live(m) && i <= |block| && off < |m.ds| && off + FirstParam(m.ds[off]) == m.dsp
    requires Plain(block) && Distinct(path) && (m.ds[off].Op? ==> path == [])
    ensures Kept(RunArgs(c, m, block, i, off, path), m, off)
    decreases block, |block| - i, 7
  {
    hide RunNext, RunChain, RunFirst, RunOperator, RunCall, RunPath, RunBody, Walk, RunArgument, RunBlock, RunRest,
      Plain, Bare, Order;
    var params := Params(c, m.ds[off]);
    var first := FirstParam(m.ds[off]);
    OrderFits(params, path, first);
    KeepWalk(c, Defaulted(m, |params| - first), block, i, off, params, path, first);
  }

  lemma {:induction false} KeepWalk(c: Context, m: State, block: seq<Val>, i: nat, off: nat, params: seq<Param>,
      path: seq<nat>, k: nat)
    requires Live(m) && i <= |block| && k <= |params| && off + |params| < |m.ds| && Plain(block)
    requires m.dsp >= off + |Order(params, path, k)|
    ensures Kept(Walk(c, m, block, i, off, params, path, k), m, off)
    decreases block, |block| - i, 6, |path|, |params| - k
  {
    hide RunNext, RunChain, RunFirst, RunOperator, RunCall, RunPath, RunBody, RunArgs, RunArgument, RunBlock, RunRest;
    hide Plain, Bare, Order, FindRef, TypeOk;
    OrderSteps(params, path, k);
    if k < |params| && params[k].kind != Refine {
      var slot := off + 1 + k;
      KeepArgument(c, m, block, i, params[k], off, slot, m.ds[off].Op?);
      var one := RunArgument(c, m, block, i, params[k], slot, m.ds[off].Op?);
      if one.On? {
        KeepWalk(c, one.m, block, one.next, off, params, path, k + 1);
      }
    } else if path != [] {
      var h := FindRef(params, path[0], 0);
      if h < |params| {
        KeepWalk(c, m.(ds := m.ds[off + 1 + h := Logic(true)]), block, i, off, params, path[1..], h + 1);
      }
    }
  }

  lemma {:induction false} KeepArgument(c: Context, m: State, block: seq<Val>, i: nat, p: Param, off: nat, slot: nat,
      op: bool)
    requires Live(m) && i <= |block| && p.kind != Refine && off < slot < |m.ds| && m.dsp >= off + 1 && Plain(block)
    ensures Kept(RunArgument(c, m, block, i, p, slot, op), m, off)
    ensures var x := RunArgument(c, m, block, i, p, slot, op);
      x.On? ==> x.m.dsp + 1 >= m.dsp
    decreases block, |block| - i, 5
  {
    hide RunChain, RunFirst, RunOperator, RunCall, RunPath, RunBody, RunArgs, Walk, RunBlock, RunRest, RunNext, Plain,
      Bare;
    KeepNext(c, m, block, i, op);
  }

  lemma {:induction false} KeepFirst(c: Context, m: State, block: seq<Val>, i: nat)
    requires Live(m) && i < |block| && Plain(block)
    ensures Kept(RunFirst(c, m, block, i), m, Safe(m, block, i))
    decreases block, |block| - i, 3
  {
    assert PlainItem(block[i]);
    hide RunNext, RunChain, RunOperator, RunCall, RunPath, RunBody, RunArgs, Walk, RunBlock, RunRest, RunArgument,
      Plain, Distinct, Pushed;
    match block[i]
    case Word(s) =>
      if s in m.env {
        PushKeeps(m, m.env[s], i + 1);
        if m.env[s].Func? {
          KeepCall(c, m, block, i, s, m.env[s]);
        } else if m.env[s].Op? {
          KeepOperator(c, m, block, i, s, m.env[s]);
        }
      }
    case SetWord(s) =>
      KeepNext(c, m, block, i + 1, false);
    case GetWord(s) =>
      if s in m.env {
        PushKeeps(m, m.env[s], i + 1);
      }
    case LitWord(s) =>
      PushKeeps(m, Word(s), i + 1);
    case Paren(items) =>
      KeepBlock(c, m, items, 0);
    case Path(s, refs) =>
      KeepPath(c, m, block, i, s, refs);
    case Func(_) =>
      KeepCall(c, m, block, i, 0, block[i]);
    case Op(_) =>
      KeepOperator(c, m, block, i, 0, block[i]);
    case _ =>
      PushKeeps(m, block[i], i + 1);
  }

  lemma {:induction false} KeepBlock(c: Context, m: State, block: seq<Val>, i: nat)
    requires Live(m) && i <= |block| && Plain(block)
    ensures Kept(RunBlock(c, m, block, i), m, m.dsp)
    decreases block, |block| - i, 6
  {
    hide RunNext, RunChain, RunFirst, RunCall, RunPath, RunOperator, RunBody, RunArgs, Walk, RunRest, RunArgument,
      Plain;
    if i < |block| {
      KeepRest(c, m, block, i, m.dsp);
    }
  }

  lemma {:induction false} KeepRest(c: Context, m: State, block: seq<Val>, i: nat, start: nat)
    requires Live(m) && i < |block| && m.dsp <= start && Plain(block)
    ensures RunRest(c, m, block, i, start) != Lost
    ensures m.dsp == start ==> Kept(RunRest(c, m, block, i, start), m, start)
    decreases block, |block| - i, 5
  {
    hide RunNext, RunChain, RunFirst, RunCall, RunPath, RunOperator, RunBody, RunArgs, Walk, RunBlock, RunArgument,
      Plain, Bare;
    KeepNext(c, m, block, i, false);
    var x := RunNext(c, m, block, i, false);
    if x.On? && x.next < |block| {
      var w := x.m.(dsp := x.m.dsp - 1);
      KeepRest(c, w, block, x.next, start);
      if w.dsp < start {
        Drifted(c, w, block, x.next, start);
      }
    }
  }

  // ---- What the slots hold when arguments are borrowed ----

  /** The argument is evaluated, and borrowed from the top of the stack, which loses a cell. */
  ghost predicate Lent(env: Env, block: seq<Val>, i: nat, p: Param) {
    && (p.kind == Normal || (p.kind == Quote && i < |block| && (block[i].Paren? || block[i].GetWord?)))
    && Bare(env, block, i)
  }

  /** The values a walk moves into slots, in turn, and how many of them are borrowed. */
  datatype Moves = Moves(vals: seq<Val>, lent: nat)

  ghost function MovesOf(c: Context, m: State, block: seq<Val>, i: nat, off: nat, params: seq<Param>, path: seq<nat>,
      k: nat): Moves
    requires Live(m) && i <= |block| && k <= |params| && off + |params| < |m.ds|
    decreases block, |block| - i, 6, |path|, |params| - k
  {
    if k < |params| && params[k].kind != Refine then
      var one := RunArgument(c, m, block, i, params[k], off + 1 + k, m.ds[off].Op?);
      if !one.On? then Moves([], 0)
      else
        var rest := MovesOf(c, one.m, block, one.next, off, params, path, k + 1);
        Moves([one.m.ds[off + 1 + k]] + rest.vals, rest.lent + if Lent(m.env, block, i, params[k]) then 1 else 0)
    else if path == [] then Moves([], 0)
    else
      var h := FindRef(params, path[0], 0);
      if h == |params| then Moves([], 0)
      else MovesOf(c, m.(ds := m.ds[off + 1 + h := Logic(true)]), block, i, off, params, path[1..], h + 1)
  }

  lemma {:induction false} ArgumentMoves(c: Context, m: State, block: seq<Val>, i: nat, p: Param, off: nat, slot: nat,
      op: bool)
    requires Live(m) && i <= |block| && p.kind != Refine && off < slot < |m.ds| && m.dsp >= off + 1 && Plain(block)
    ensures var x := RunArgument(c, m, block, i, p, slot, op);
      x.On? ==> x.m.dsp + (if Lent(m.env, block, i, p) then 1 else 0) == m.dsp
    ensures var x := RunArgument(c, m, block, i, p, slot, op);
      x.On? ==> forall j {:trigger x.m.ds[j]} :: 0 <= j <= x.m.dsp && j != slot ==> x.m.ds[j] == m.ds[j]
  {
    hide RunChain, RunFirst, RunOperator, RunCall, RunPath, RunBody, RunArgs, Walk, RunBlock, RunRest, RunNext, Plain,
      Bare;
    KeepNext(c, m, block, i, op);
  }

  /** Slot q of the frame over off, when the walk from parameter k on state m has ended in w. */
  ghost predicate MovedAt(v: Moves, m: State, w: State, off: nat, params: seq<Param>, path: seq<nat>, k: nat, q: nat)
    requires k <= |params| && off + 1 + q < |m.ds| <= |w.ds| && q < |params|
  {
    var order := Order(params, path, k);
    && |v.vals| == |order|
    && (forall j: nat {:trigger LastAt(order, q, j)} :: LastAt(order, q, j) ==> w.ds[off + 1 + q] == v.vals[j])
    && (params[q].kind == Refine ==>
      w.ds[off + 1 + q] == if Named(params, path, q) then Logic(true) else m.ds[off + 1 + q])
    && (params[q].kind != Refine && q !in order ==> w.ds[off + 1 + q] == m.ds[off + 1 + q])
  }

  lemma {:induction false} MovedTake(v: Moves, m: State, one: State, w: State, off: nat, params: seq<Param>,
      path: seq<nat>, k: nat, q: nat, val: Val, lent: nat)
    requires k < |params| && params[k].kind != Refine && q < |params| && off + 1 + q < |m.ds| <= |one.ds| <= |w.ds|
    requires MovedAt(v, one, w, off, params, path, k + 1, q)
    requires one.ds[off + 1 + q] == if q == k then val else m.ds[off + 1 + q]
    ensures MovedAt(Moves([val] + v.vals, lent), m, w, off, params, path, k, q)
  {
    hide Order, Named, LastAt;
    OrderSteps(params, path, k);
    LastSteps(Order(params, path, k), q);
  }

  lemma {:induction false} MovedJump(v: Moves, m: State, one: State, w: State, off: nat, params: seq<Param>,
      path: seq<nat>, k: nat, q: nat)
    requires k <= |params| && (k < |params| ==> params[k].kind == Refine) && q < |params| && path != []
    requires FindRef(params, path[0], 0) < |params| && off + 1 + q < |m.ds| <= |one.ds| <= |w.ds|
    requires MovedAt(v, one, w, off, params, path[1..], FindRef(params, path[0], 0) + 1, q)
    requires one.ds[off + 1 + q] == if q == FindRef(params, path[0], 0) then Logic(true) else m.ds[off + 1 + q]
    ensures MovedAt(v, m, w, off, params, path, k, q)
  {
    hide Order, Named, LastAt;
    OrderSteps(params, path, k);
    NamedSteps(params, path, q);
  }

  lemma {:induction false} MovedEnd(m: State, off: nat, params: seq<Param>, k: nat, q: nat)
    requires k <= |params| && (k < |params| ==> params[k].kind == Refine) && q < |params| && off + 1 + q < |m.ds|
    ensures MovedAt(Moves([], 0), m, m, off, params, [], k, q)
  {
    hide Order, Named, LastAt;
    OrderSteps(params, [], k);
    NothingLast(params, q);
  }

  /**
   * Borrowed arguments included: the top falls by one cell for each of them, and every slot then still under the top
   * holds the value moved there last, or true for a refinement named, or what it held before.
   */
  lemma {:induction false} WalkFills(c: Context, m: State, block: seq<Val>, i: nat, off: nat, params: seq<Param>,
      path: seq<nat>, k: nat, q: nat)
    requires Live(m) && i <= |block| && k <= |params| && off + |params| < |m.ds| && Plain(block) && q < |params|
    requires m.dsp >= off + |Order(params, path, k)|
    ensures var x, v := Walk(c, m, block, i, off, params, path, k), MovesOf(c, m, block, i, off, params, path, k);
      x.On? ==> x.m.dsp + v.lent == m.dsp && (off + 1 + q <= x.m.dsp ==> MovedAt(v, m, x.m, off, params, path, k, q))
    decreases block, |block| - i, 6, |path|, |params| - k, 1
  {
    hide RunNext, RunChain, RunFirst, RunOperator, RunCall, RunPath, RunBody, RunArgs, RunArgument, RunBlock, RunRest;
    hide Plain, Bare, Lent, Order, FindRef, TypeOk, MovedAt;
    if k < |params| && params[k].kind != Refine {
      WalkTakes(c, m, block, i, off, params, path, k, q);
    } else if path != [] {
      var h := FindRef(params, path[0], 0);
      OrderSteps(params, path, k);
      if h < |params| {
        var w := m.(ds := m.ds[off + 1 + h := Logic(true)]);
        WalkFills(c, w, block, i, off, params, path[1..], h + 1, q);
        var x, v := Walk(c, m, block, i, off, params, path, k), MovesOf(c, m, block, i, off, params, path, k);
        if x.On? && off + 1 + q <= x.m.dsp {
          MovedJump(v, m, w, x.m, off, params, path, k, q);
        }
      }
    } else {
      MovedEnd(m, off, params, k, q);
    }
  }

  lemma {:induction false} WalkTakes(c: Context, m: State, block: seq<Val>, i: nat, off: nat, params: seq<Param>,
      path: seq<nat>, k: nat, q: nat)
    requires Live(m) && i <= |block| && k < |params| && off + |params| < |m.ds| && Plain(block) && q < |params|
    requires params[k].kind != Refine && m.dsp >= off + |Order(params, path, k)|
    ensures var x, v := Walk(c, m, block, i, off, params, path, k), MovesOf(c, m, block, i, off, params, path, k);
      x.On? ==> x.m.dsp + v.lent == m.dsp && (off + 1 + q <= x.m.dsp ==> MovedAt(v, m, x.m, off, params, path, k, q))
    decreases block, |block| - i, 6, |path|, |params| - k, 0
  {
    hide RunNext, RunChain, RunFirst, RunOperator, RunCall, RunPath, RunBody, RunArgs, RunArgument, RunBlock, RunRest;
    hide Plain, Bare, Lent, Order, FindRef, TypeOk, MovedAt;
    var slot := off + 1 + k;
    OrderSteps(params, path, k);
    ArgumentMoves(c, m, block, i, params[k], off, slot, m.ds[off].Op?);
    var one := RunArgument(c, m, block, i, params[k], slot, m.ds[off].Op?);
    if one.On? {
      WalkFills(c, one.m, block, one.next, off, params, path, k + 1, q);
      var x := Walk(c, m, block, i, off, params, path, k);
      var v, rest := MovesOf(c, m, block, i, off, params, path, k),
        MovesOf(c, one.m, block, one.next, off, params, path, k + 1);
      if x.On? && off + 1 + q <= x.m.dsp {
        MovedTake(rest, m, one.m, x.m, off, params, path, k, q, one.m.ds[slot], v.lent);
      }
    }
  }

  /**
   * Do_Args from the defaulted frame on: with no argument borrowed the top is where it belongs and all slots are kept.
   */
  lemma {:induction false} ArgsFill(c: Context, m: State, block: seq<Val>, i: nat, off: nat, path: seq<nat>, q: nat)
    requires Live(m) && i <= |block| && off < |m.ds| && off + FirstParam(m.ds[off]) == m.dsp
    requires Plain(block) && Distinct(path) && (m.ds[off].Op? ==> path == []) && q < |Params(c, m.ds[off])|
    ensures var params, first := Params(c, m.ds[off]), FirstParam(m.ds[off]);
      var x, w := RunArgs(c, m, block, i, off, path), Defaulted(m, |params| - first);
      var v := MovesOf(c, w, block, i, off, params, path, first);
      x.On? ==>
        && x.m.dsp + v.lent == off + |params|
        && (q + v.lent < |params| ==> MovedAt(v, w, x.m, off, params, path, first, q))
  {
    hide RunNext, RunChain, RunFirst, RunOperator, RunCall, RunPath, RunBody, Walk, RunArgument, RunBlock, RunRest,
      Plain, Bare, Order;
    hide MovesOf, MovedAt;
    var params := Params(c, m.ds[off]);
    var first := FirstParam(m.ds[off]);
    OrderFits(params, path, first);
    WalkFills(c, Defaulted(m, |params| - first), block, i, off, params, path, first, q);
  }

  // ---- When a block completes ----

  /**
   * A block completes exactly when each of its expressions in turn does and none is borrowed: whether one is, its
   * first items and the variables tell beforehand. With a borrowed last expression the error is the missing argument.
   */
  lemma {:induction false} BlockCompletes(c: Context, m: State, block: seq<Val>, i: nat)
    requires Live(m) && i <= |block|
    ensures var one := RunNext(c, m, block, i, false);
      RunBlock(c, m, block, i).On? <==>
      i == |block| || (one.On? && !Bare(m.env, block, i) && RunBlock(c, one.m.(dsp := m.dsp), block, one.next).On?)
    ensures var one := RunNext(c, m, block, i, false);
      one.On? && one.next == |block| && Bare(m.env, block, i) ==> RunBlock(c, m, block, i) == Failed(MissingArg)
  {
    hide RunNext, RunChain, RunFirst, RunCall, RunPath, RunOperator, RunBody, RunArgs, Walk, RunArgument, Bare;
    var one := RunNext(c, m, block, i, false);
    if one.On? && one.next < |block| && Bare(m.env, block, i) {
      Drifted(c, one.m.(dsp := one.m.dsp - 1), block, one.next, m.dsp);
    }
  }

  // ---- Borrowed values ----

  /** An operator whose second argument is evaluated and takes a literal. */
  ghost predicate Infix(c: Context, func: Val) {
    func.Op? && c.ops(func.oid).right.kind == Normal && LitTag in c.ops(func.oid).right.types &&
      c.ops(func.oid).rest == []
  }

  lemma {:induction false} LiteralNext(c: Context, m: State, block: seq<Val>, i: nat, op: bool)
    requires Live(m) && i + 1 == |block| && block[i].Lit?
    ensures RunNext(c, m, block, i, op) == On(i + 1, Pushed(m, block[i]))
  {
  }

  /** One literal for the last parameter. */
  lemma {:induction false} LiteralWalk(c: Context, m: State, block: seq<Val>, i: nat, off: nat, params: seq<Param>,
      k: nat)
    requires Live(m) && i + 1 == |block| && block[i].Lit? && k + 1 == |params| && off + |params| == m.dsp
    requires params[k].kind == Normal && LitTag in params[k].types
    ensures Walk(c, m, block, i, off, params, [], k) == On(i + 1, Popped(Pushed(m, block[i]), off + 1 + k))
  {
    LiteralNext(c, m, block, i, m.ds[off].Op?);
    hide RunNext;
    var w := Popped(Pushed(m, block[i]), off + 1 + k);
    assert RunArgument(c, m, block, i, params[k], off + 1 + k, m.ds[off].Op?) == On(i + 1, w);
    assert Walk(c, w, block, i + 1, off, params, [], k + 1) == On(i + 1, w);
  }

  /** The frame of an operator before a literal when its arguments are in place. */
  ghost function InfixFrame(c: Context, m: State, block: seq<Val>, i: nat, word: nat, func: Val): State
    requires Live(m) && i + 1 < |block| && Infix(c, func)
  {
    var framed := Framed(m, true, block, i, word, func);
    Popped(Pushed(Defaulted(Pushed(framed, framed.ds[m.dsp]), 1), block[i + 1]), m.dsp + DSF_SIZE + 2)
  }

  lemma {:induction false} InfixArgs(c: Context, m: State, block: seq<Val>, i: nat, off: nat)
    requires Live(m) && off + 1 == m.dsp && i + 1 == |block| && block[i].Lit? && Infix(c, m.ds[off])
    ensures RunArgs(c, m, block, i, off, []) == On(i + 1, Popped(Pushed(Defaulted(m, 1), block[i]), off + 2))
  {
    hide RunNext, RunChain, RunFirst, RunCall, RunPath, RunOperator, RunBody, RunBlock, RunRest, RunArgument, Walk,
      Bare;
    var params := Params(c, m.ds[off]);
    assert params == [c.ops(m.ds[off].oid).left, c.ops(m.ds[off].oid).right];
    LiteralWalk(c, Defaulted(m, 1), block, i, off, params, 1);
  }

  lemma {:induction false} InfixBody(c: Context, m: State, block: seq<Val>, i: nat, word: nat, func: Val)
    requires Live(m) && m.dsp >= 1 && 0 < i && |block| == i + 2 && block[i + 1].Lit? && Infix(c, func)
    ensures |InfixFrame(c, m, block, i, word, func).ds| > m.dsp + DSF_SIZE + |Params(c, func)|
    ensures RunOperator(c, m, block, i, word, func) ==
      Dispatched(c, i + 2, InfixFrame(c, m, block, i, word, func), m.dsp, func)
  {
    hide RunNext, RunChain, RunFirst, RunCall, RunPath, RunBlock, RunRest, RunArgument, RunArgs, Walk, Dispatched, Bare;
    hide Params, Popped, Defaulted, Room;
    var framed := Framed(m, true, block, i, word, func);
    InfixArgs(c, Pushed(framed, framed.ds[m.dsp]), block, i + 1, m.dsp + DSF_SIZE);
  }

  /** An operator before a literal: the cell on top, whatever it is, and the literal are its operands. */
  lemma {:induction false} OperatorOnTop(c: Context, m: State, block: seq<Val>, i: nat, word: nat, func: Val)
    requires Live(m) && m.dsp >= 1 && 0 < i && |block| == i + 2 && block[i + 1].Lit? && Infix(c, func)
    ensures var a := Apply(c, func, [m.ds[m.dsp], block[i + 1]]);
      var x := RunOperator(c, m, block, i, word, func);
      if a.Fail? then x == Failed(Native(a.code))
      else x.On? && x.next == i + 2 && x.m.env == m.env && x.m.dsp == m.dsp && Live(x.m) && x.m.ds[m.dsp] == a.v
  {
    hide RunOperator, Apply;
    InfixBody(c, m, block, i, word, func);
    var w := InfixFrame(c, m, block, i, word, func);
    var base := m.dsp + DSF_SIZE + 1;
    assert w.ds[base..base + 2] == [m.ds[m.dsp], block[i + 1]];
    assert |Params(c, func)| == 2;
  }

  lemma {:induction false} SetWordUnvalued(c: Context, env: Env, x: nat, func: Val, two: Val)
    requires func.Op?
    ensures Next(c, env, [SetWord(x), func, two], 0, false) == Borrows
  {
    hide Operate, Chain, Gather, Call, Block;
    assert Next(c, env, [SetWord(x), func, two], 1, false) == Borrows;
  }

  /**
   * x: + 2 after some value: the recursive evaluator has nothing to add 2 to; the source adds it to that value,
   * which the sum replaces, and sets x to it. A block of just this is refused for want of an argument.
   */
  lemma {:induction false} SetWordBorrows(c: Context, m: State, x: nat, func: Val, two: Val)
    requires Live(m) && m.dsp >= 1 && Infix(c, func) && two.Lit? && x in m.env
    requires Apply(c, func, [m.ds[m.dsp], two]).Ret? && Apply(c, func, [m.ds[m.dsp], two]).v != Unset
    ensures var block := [SetWord(x), func, two];
      var sum := Apply(c, func, [m.ds[m.dsp], two]).v;
      var r := RunNext(c, m, block, 0, false);
      && Next(c, m.env, block, 0, false) == Borrows && Bare(m.env, block, 0)
      && r.On? && r.next == 3 && r.m.dsp == m.dsp && r.m.ds[r.m.dsp] == sum && r.m.env == m.env[x := sum]
      && RunBlock(c, m, block, 0) == Failed(MissingArg)
  {
    hide RunOperator, RunBlock, RunRest, RunBody, RunCall, RunPath, RunWord, Next, Apply;
    var block := [SetWord(x), func, two];
    SetWordUnvalued(c, m.env, x, func, two);
    OperatorOnTop(c, m, block, 1, 0, func);
    BlockCompletes(c, m, block, 0);
    var sum := RunOperator(c, m, block, 1, 0, func);
    assert RunFirst(c, m, block, 1) == sum;
    assert RunChain(c, sum.m, block, 3) == sum;
    assert RunNext(c, m, block, 1, false) == sum;
    var done := RunFirst(c, m, block, 0);
    assert RunChain(c, done.m, block, 3) == done;
  }

  lemma FinishBorrows(c: Context, func: Val)
    ensures Finish(c, func, ArgBorrows) == Borrows
  {
  }

  lemma {:induction false} CallArguments(c: Context, env: Env, block: seq<Val>, f: nat)
    requires |block| == 3 && block[0] == Func(f) && block[1].Op? && |c.specs(f)| == 1 && c.specs(f)[0].kind == Normal
    ensures First(c, env, block, 0) == Borrows
  {
    hide Chain, Finish;
    assert First(c, env, block, 1) == Borrows;
    assert Next(c, env, block, 1, false) == Borrows;
    assert Argument(c, env, block, 1, c.specs(f)[0], false) == Borrows;
    assert Gather(c, env, block, 1, c.specs(f), [], 0, Nones(1), false) == ArgBorrows;
    assert Finish(c, block[0], ArgBorrows) == Borrows by {
      FinishBorrows(c, block[0]);
    }
  }

  /** The operator in the function's argument, on the stack with the empty slot on top. */
  lemma {:induction false} SlotRuns(c: Context, w: State, block: seq<Val>, func: Val, two: Val)
    requires Live(w) && w.dsp >= 1 && w.ds[w.dsp] == None && Infix(c, func) && two.Lit?
    requires |block| == 3 && block[1] == func && block[2] == two && block[0].Func? && Apply(c, func, [None, two]).Ret?
    ensures var x := RunNext(c, w, block, 1, false);
      && x.On? && x.next == 3 && x.m.dsp == w.dsp && Live(x.m) && x.m.ds[x.m.dsp] == Apply(c, func, [None, two]).v
      && Below(w.ds, x.m.ds, w.dsp - 1)
  {
    OperatorOnTop(c, w, block, 1, 0, func);
    assert Plain(block);
    KeepOperator(c, w, block, 1, 0, func);
    hide RunOperator, RunCall, RunPath, RunWord, RunBlock, Apply, Plain, Infix;
    var x := RunOperator(c, w, block, 1, 0, func);
    assert RunFirst(c, w, block, 1) == x;
    assert RunChain(c, x.m, block, 3) == x;
  }

  /** The frame of the call when its one slot is filled. */
  lemma {:induction false} CallFrame(c: Context, framed: State, block: seq<Val>, off: nat, f: nat, func: Val, two: Val)
    returns (p: State)
    requires Live(framed) && framed.dsp == off && framed.ds[off] == Func(f)
    requires Infix(c, func) && two.Lit? && block == [Func(f), func, two]
    requires |c.specs(f)| == 1 && c.specs(f)[0].kind == Normal
    requires Apply(c, func, [None, two]).Ret? && TypeOk(c.specs(f)[0], Apply(c, func, [None, two]).v)
    ensures RunArgs(c, framed, block, 1, off, []) == On(3, p) && p.dsp == off && off + 1 < |p.ds|
    ensures p.ds[off + 1] == Apply(c, func, [None, two]).v && Below(framed.ds, p.ds, off)
  {
    hide Apply, TypeOk, RunNext, RunFirst, RunChain, RunOperator, RunCall, RunPath, RunWord, RunBlock, RunRest, RunBody;
    var w := Defaulted(framed, 1);
    var params := c.specs(f);
    SlotRuns(c, w, block, func, two);
    var done := RunNext(c, w, block, 1, false);
    p := Popped(done.m, off + 1);
    assert RunArgument(c, w, block, 1, params[0], off + 1, false) == On(3, p);
    assert Walk(c, p, block, 3, off, params, [], 1) == On(3, p);
  }

  lemma {:induction false} OneCell(s: seq<Val>, k: nat)
    requires k < |s|
    ensures s[k..k + 1] == [s[k]]
  {
  }

  lemma {:induction false} CallRuns(c: Context, m: State, block: seq<Val>, f: nat, func: Val, two: Val)
    requires Live(m) && Infix(c, func) && two.Lit? && block == [Func(f), func, two]
    requires |c.specs(f)| == 1 && c.specs(f)[0].kind == Normal
    requires Apply(c, func, [None, two]).Ret? && TypeOk(c.specs(f)[0], Apply(c, func, [None, two]).v)
    ensures var a := Apply(c, Func(f), [Apply(c, func, [None, two]).v]);
      var r := RunCall(c, m, block, 0, 0, block[0]);
      if a.Fail? then r == Failed(Native(a.code))
      else r.On? && r.next == 3 && r.m.dsp == m.dsp + 1 && r.m.ds[r.m.dsp] == a.v
  {
    hide Apply, RunNext, RunFirst, RunArgs, Walk, RunArgument, RunChain, RunOperator, RunPath, RunWord, RunBlock,
      RunRest;
    var framed := Framed(m, false, block, 0, 0, block[0]);
    var p := CallFrame(c, framed, block, m.dsp + 1 + DSF_SIZE, f, func, two);
    OneCell(p.ds, p.dsp + 1);
  }

  /**
   * f + 2 for a function of one argument: the operator finds the function's own empty slot on top, so none is its
   * left operand; the function is called on what it yields, and the stack grows by one cell all the same.
   */
  lemma {:induction false} CallBorrows(c: Context, m: State, f: nat, func: Val, two: Val)
    requires Live(m) && Infix(c, func) && two.Lit?
    requires |c.specs(f)| == 1 && c.specs(f)[0].kind == Normal
    requires Apply(c, func, [None, two]).Ret? && TypeOk(c.specs(f)[0], Apply(c, func, [None, two]).v)
    ensures var block := [Func(f), func, two];
      var a := Apply(c, Func(f), [Apply(c, func, [None, two]).v]);
      var r := RunNext(c, m, block, 0, false);
      && Next(c, m.env, block, 0, false) == Borrows && !Bare(m.env, block, 0)
      && if a.Fail? then r == Failed(Native(a.code))
         else r.On? && r.next == 3 && r.m.dsp == m.dsp + 1 && r.m.ds[r.m.dsp] == a.v
  {
    var block := [Func(f), func, two];
    assert Next(c, m.env, block, 0, false) == Borrows by {
      CallArguments(c, m.env, block, f);
    }
    hide Next, Apply;
    CallRuns(c, m, block, f, func, two);
    assert RunFirst(c, m, block, 0) == RunCall(c, m, block, 0, 0, block[0]);
    var done := RunCall(c, m, block, 0, 0, block[0]);
    hide RunCall;
    if done.On? {
      assert RunChain(c, done.m, block, 3) == done;
    }
  }
}

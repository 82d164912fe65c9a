/** The evaluator of c-do.c as the stack machine it is: Push_Func, Do_Args, Do_Next and Do_Blk on the data stack. */
module Evaluator {
  import opened EvalSpec
  import opened StackSpec
  import opened Agreement
  import opened Growth
  import opened Refinements
  import Trees

  /** Overwritten: a call frame's own cells are gone; the source reads on in what replaced them. */
  datatype Status = Ok | Ended | Trapped(e: Error) | Overwritten

  /** No function names a refinement twice: a specification that does is refused when the function is made. */
  ghost predicate DistinctRefs(params: seq<Param>) {
    forall i, j {:trigger params[i], params[j]} ::
      0 <= i < j < |params| && params[i].kind == Refine && params[j].kind == Refine ==> params[i].sym != params[j].sym
  }

  ghost predicate WellFormed(c: Context) {
    forall func {:trigger Params(c, func)} :: DistinctRefs(Params(c, func))
  }

  /** With distinct refinement names the walk's own refinement is the one a search would find. */
  lemma {:induction false} RefHere(params: seq<Param>, r: nat, a: nat)
    requires DistinctRefs(params) && a < |params| && params[a].kind == Refine && params[a].sym == r
    ensures FindRef(params, r, 0) == a
  {
  }

  lemma {:induction false} ChainUnfold(c: Context, m: State, block: seq<Val>, i: nat)
    requires Live(m) && m.dsp >= 1 && 0 < i <= |block|
    ensures RunChain(c, m, block, i) ==
      if i < |block| && IsOpWord(m.env, block[i]) then
        var once := RunOperator(c, m, block, i, block[i].sym, m.env[block[i].sym]);
        if once.On? then RunChain(c, once.m, block, once.next) else once
      else On(i, m)
  {
  }

  lemma {:induction false} RestUnfold(c: Context, m: State, block: seq<Val>, i: nat, start: nat)
    requires Live(m) && i < |block|
    ensures RunRest(c, m, block, i, start) ==
      var x := RunNext(c, m, block, i, false);
      if !x.On? then x
      else
        var w := x.m.(dsp := x.m.dsp - 1);
        if x.next < |block| then RunRest(c, w, block, x.next, start)
        else if w.dsp == start then On(x.next, w)
        else Failed(MissingArg)
  {
  }

  lemma {:induction false} WalkUnfold(c: Context, m: State, block: seq<Val>, i: nat, off: nat, params: seq<Param>,
      path: seq<nat>, k: nat)
    requires Live(m) && i <= |block| && k <= |params| && off + |params| < |m.ds|
    ensures Walk(c, m, block, i, off, params, path, k) ==
      if k < |params| && params[k].kind != Refine then
        var one := RunArgument(c, m, block, i, params[k], off + 1 + k, m.ds[off].Op?);
        if !one.On? then one
        else if TypeOk(params[k], one.m.ds[off + 1 + k]) then Walk(c, one.m, block, one.next, off, params, path, k + 1)
        else Failed(ExpectArg)
      else if path == [] then On(i, m)
      else
        var h := FindRef(params, path[0], 0);
        if h == |params| then Failed(NoRefine)
        else Walk(c, m.(ds := m.ds[off + 1 + h := Logic(true)]), block, i, off, params, path[1..], h + 1)
  {
  }

  class Machine {
    const c: Context
    /** The data stack with room above its top cell, the top, the current call frame, and the variables. */
    var ds: seq<Val>
    var dsp: nat
    var dsf: nat
    var env: Env

    ghost predicate Valid()
      reads this
    {
      dsp < |ds| && WellFormed(c)
    }

    ghost function Now(): State
      reads this
    {
      State(ds, dsp, dsf, env)
    }

    /** The machine has come to where x says. */
    ghost predicate Reached(x: Out, st: Status, next: nat, was: State)
      reads this
    {
      match x
      case On(j, m) => st == Ok && next == j && Now() == m
      case AtEnd => st == Ended && Now() == was
      case Failed(e) => st == Trapped(e)
      case Lost => st == Overwritten
    }

    /**
     * What evaluating an expression with outcome r leaves: one more cell, everything below and the call frame as
     * before.
     */
    ghost predicate Evaluated(r: Res, st: Status, next: nat, was: State)
      reads this
    {
      match r
      case Done(v, j, e) =>
        && st == Ok && next == j && env == e && dsf == was.dsf
        && dsp == was.dsp + 1 && Below(was.ds, ds, was.dsp) && dsp < |ds| && ds[dsp] == v
      case End => st == Ended && Now() == was
      case Trap(e) => st == Trapped(e)
      case Borrows => true
    }

    /** A tree's value on one more cell at its end, with all below and the call frame as before; or its error. */
    ghost predicate Gave(m: Trees.Meaning, st: Status, next: nat, end: nat, was: State)
      reads this
    {
      match m
      case Yields(v, e) =>
        && st == Ok && next == end && env == e && dsf == was.dsf
        && dsp == was.dsp + 1 < |ds| && ds[dsp] == v && Below(was.ds, ds, was.dsp)
      case Fails(e) => st == Trapped(e)
      case Misread => true
    }

    /** Expand_Stack: room above the top. */
    method Reserve(n: nat)
      requires Valid()
      modifies this`ds
      ensures Now() == Room(old(Now()), n)
    {
      if |ds| <= dsp + n {
        ds := ds + Nones(dsp + n + 1 - |ds|);
      }
    }

    /** DS_PUSH. */
    method Push(v: Val)
      requires Valid()
      modifies this`ds, this`dsp
      ensures Now() == Pushed(old(Now()), v)
    {
      Reserve(1);
      dsp := dsp + 1;
      ds := ds[dsp := v];
    }

    /** Push_Func: a call frame whose return cell is new, or, with keep, the cell on top. */
    method PushFunc(keep: bool, block: seq<Val>, index: nat, word: nat, func: Val) returns (r: nat)
      requires Valid()
      modifies this`ds, this`dsp
      ensures Now() == Framed(old(Now()), keep, block, index, word, func)
      ensures r == (if keep then old(dsp) else old(dsp) + 1) && dsp == r + DSF_SIZE < |ds|
    {
      hide WellFormed, Room, Below;
      Reserve(DSF_SIZE + 1);
      var top: int := dsp;
      var tos := dsp;
      if keep {
        top := top - 1;
      } else {
        tos := tos + 1;
      }
      var cells := ds[tos + 1 := Back(block, index, dsf)][tos + 2 := Name(word)][tos + 3 := func];
      ds := if keep then cells else cells[tos := Unset];
      dsp := top + DSF_SIZE + 1;
      r := top + 1;
    }

    /** The end of a call: the native is run on its slots, its result left in the return cell on top. */
    method Dispatch(r: nat, func: Val, ghost next: nat) returns (st: Status)
      requires Valid() && |ds| > r + DSF_SIZE + |Params(c, func)|
      modifies this`ds, this`dsp, this`dsf
      ensures Reached(Dispatched(c, next, old(Now()), r, func), st, next, old(Now()))
    {
      hide WellFormed, Params, Apply;
      if ds[r + DSF_SIZE] != func {
        return Overwritten;
      }
      dsf := r;
      var base := r + DSF_SIZE + 1;
      var result := Apply(c, func, ds[base..base + |Params(c, func)|]);
      match result {
        case Fail(code) =>
          st := Trapped(Native(code));
        case Ret(v) =>
          match ds[r + 1] {
            case Back(_, _, prior) =>
              ds := ds[r := v];
              dsp := r;
              dsf := prior;
              st := Ok;
            case _ =>
              st := Overwritten;
          }
      }
    }

    /** Do_Next itself. The loop is the source's jump back to evaluation whenever the next word names an operator. */
    method NextStep(block: seq<Val>, index: nat, op: bool) returns (st: Status, next: nat)
      requires Valid() && index <= |block|
      modifies this
      ensures Reached(RunNext(c, old(Now()), block, index, op), st, next, old(Now()))
      decreases block, |block| - index, 4, 0
    {
      hide RunChain, RunOperator, RunFirst, RunCall, RunPath, RunBody, RunArgs, Walk, RunArgument, RunBlock, RunRest,
        Bare;
      if index == |block| {
        return Ended, index;
      }
      st, next := EvalFirst(block, index);
      if st != Ok || op {
        return;
      }
      ghost var goal := RunNext(c, old(Now()), block, index, op);
      hide RunNext;
      while true
        invariant st == Ok && index < next <= |block| && dsp >= 1 && Valid()
        invariant RunChain(c, Now(), block, next) == goal
        decreases |block| - next
      {
        ChainUnfold(c, Now(), block, next);
        if next < |block| && IsOpWord(env, block[next]) {
          st, next := CallOperator(block, next, block[next].sym, env[block[next].sym]);
          if st != Ok {
            return;
          }
        } else {
          return;
        }
      }
    }

    /** A word: its value, or a call. */
    method EvalWord(block: seq<Val>, index: nat) returns (st: Status, next: nat)
      requires Valid() && index < |block| && block[index].Word?
      modifies this
      ensures Reached(RunWord(c, old(Now()), block, index), st, next, old(Now()))
      decreases block, |block| - index, 2, 1
    {
      hide RunNext, RunChain, RunOperator, RunFirst, RunCall, RunPath, RunBody, RunArgs, Walk, RunArgument, RunBlock,
        RunRest, Bare, Pushed;
      var s := block[index].sym;
      st, next := Ok, index + 1;
      if s !in env {
        st := Trapped(NotDefined);
      } else if env[s] == Unset {
        st := Trapped(NoValue);
      } else if env[s].Func? {
        st, next := CallFunction(block, index, s, env[s]);
      } else if env[s].Op? {
        st, next := CallOperator(block, index, s, env[s]);
      } else {
        Push(env[s]);
      }
    }

    /** The first switch of Do_Next: a value, a variable, an assignment, a paren, or a call. */
    method EvalFirst(block: seq<Val>, index: nat) returns (st: Status, next: nat)
      requires Valid() && index < |block|
      modifies this
      ensures Reached(RunFirst(c, old(Now()), block, index), st, next, old(Now()))
      decreases block, |block| - index, 3
    {
      hide RunNext, RunChain, RunOperator, RunWord, RunCall, RunPath, RunBody, RunArgs, Walk, RunArgument, RunBlock,
        RunRest, Bare, Pushed;
      st, next := Ok, index + 1;
      match block[index] {
        case Word(_) =>
          st, next := EvalWord(block, index);
        case SetWord(s) =>
          st, next := NextStep(block, index + 1, false);
          if st == Ended || (st == Ok && ds[dsp] == Unset) {
            st := Trapped(NeedValue);
          } else if st == Ok && s !in env {
            st := Trapped(NotDefined);
          } else if st == Ok {
            env := env[s := ds[dsp]];
          }
        case GetWord(s) =>
          if s in env {
            Push(env[s]);
          } else {
            st := Trapped(NotDefined);
          }
        case LitWord(s) =>
          Push(Word(s));
        case Paren(items) =>
          st := BlkStep(items, 0);
          if st == Ok {
            dsp := dsp + 1;
          }
        case Path(s, refs) =>
          st, next := EvalPath(block, index, s, refs);
        case Func(_) =>
          st, next := CallFunction(block, index, 0, block[index]);
        case Back(_, _, _) =>
          st := Trapped(NoValue);
        case Op(_) =>
          st, next := CallOperator(block, index, 0, block[index]);
        case _ =>
          Push(block[index]);
      }
    }

    /** The common end of every call: its arguments and its native, for the frame with return cell r. */
    method CallBody(block: seq<Val>, index: nat, r: nat, func: Val, path: seq<nat>) returns (st: Status, next: nat)
      requires Valid() && index < |block| && dsp == r + DSF_SIZE + FirstParam(func) && ds[r + DSF_SIZE] == func
      modifies this
      ensures Reached(RunBody(c, old(Now()), block, index, r, func, path), st, next, old(Now()))
      decreases block, |block| - index, 1
    {
      hide RunNext, RunChain, RunOperator, RunFirst, RunCall, RunPath, RunArgs, Walk, RunArgument, RunBlock, RunRest,
        Dispatched, Bare;
      st, next := ArgsStep(r + DSF_SIZE, path, block, index + 1);
      if st == Ok {
        st := Dispatch(r, func, next);
      }
    }

    /** A path whose head is a function: the rest names refinements. The function value lies where its result will. */
    method EvalPath(block: seq<Val>, index: nat, s: nat, refs: seq<nat>) returns (st: Status, next: nat)
      requires Valid() && index < |block|
      modifies this
      ensures Reached(RunPath(c, old(Now()), block, index, s, refs), st, next, old(Now()))
      decreases block, |block| - index, 2, 0
    {
      hide RunNext, RunChain, RunOperator, RunFirst, RunCall, RunBody, RunArgs, Walk, RunArgument, RunBlock, RunRest,
        Framed, Bare;
      st, next := Ok, index + 1;
      if s !in env {
        st := Trapped(NotDefined);
      } else if env[s] == Unset {
        st := Trapped(NoValue);
      } else if env[s].Op? {
        st := Trapped(BadType);
      } else if env[s].Func? {
        var func := env[s];
        Push(func);
        var r := PushFunc(true, block, index, s, func);
        st, next := CallBody(block, index, r, func, refs);
      } else if refs != [] {
        st := Trapped(BadPathType);
      } else {
        Push(env[s]);
      }
    }

    /** A function call: new frame, arguments, the native, result in place of the frame. */
    method CallFunction(block: seq<Val>, index: nat, word: nat, func: Val) returns (st: Status, next: nat)
      requires Valid() && index < |block| && func.Func?
      modifies this
      ensures Reached(RunCall(c, old(Now()), block, index, word, func), st, next, old(Now()))
      decreases block, |block| - index, 2, 0
    {
      hide RunNext, RunChain, RunOperator, RunFirst, RunPath, RunBody, RunArgs, Walk, RunArgument, RunBlock, RunRest,
        Framed, Bare;
      var r := PushFunc(false, block, index, word, func);
      st, next := CallBody(block, index, r, func, []);
    }

    /**
     * An operator call. Its left operand is whatever lies on top of the stack, and that cell receives the
     * result: the stack does not grow.
     */
    method CallOperator(block: seq<Val>, index: nat, word: nat, func: Val) returns (st: Status, next: nat)
      requires Valid() && index < |block| && func.Op?
      modifies this
      ensures Reached(RunOperator(c, old(Now()), block, index, word, func), st, next, old(Now()))
      ensures old(dsp) == 0 || index == 0 ==> st == Trapped(NoOpArg)
      ensures st == Ok ==> dsp == old(dsp)
      decreases block, |block| - index, 2, 0
    {
      hide RunNext, RunChain, RunCall, RunFirst, RunPath, RunBody, RunArgs, Walk, RunArgument, RunBlock, RunRest,
        Framed, Bare;
      if dsp <= 0 || index == 0 {
        return Trapped(NoOpArg), index;
      }
      var r := PushFunc(true, block, index, word, func);
      Push(ds[r]);
      st, next := CallBody(block, index, r, func, []);
    }

    /**
     * Do_Blk itself: every expression in turn; the last value is left just above the top, where the caller may keep it.
     */
    method BlkStep(block: seq<Val>, start: nat) returns (st: Status)
      requires Valid() && start <= |block|
      modifies this
      ensures Reached(RunBlock(c, old(Now()), block, start), st, |block|, old(Now()))
      decreases block, |block| - start, 6, 0
    {
      hide RunNext, RunChain, RunOperator, RunFirst, RunCall, RunPath, RunBody, RunArgs, Walk, RunArgument, RunRest,
        Bare;
      var index := start;
      st := Ok;
      if index == |block| {
        Reserve(1);
        ds := ds[dsp + 1 := Unset];
        return;
      }
      ghost var goal := RunBlock(c, Now(), block, start);
      hide RunBlock;
      var top := dsp;
      while index < |block|
        invariant start <= index <= |block| && st == Ok && dsp < |ds| && WellFormed(c)
        invariant index < |block| ==> RunRest(c, Now(), block, index, top) == goal
        invariant index == |block| ==> goal == if dsp == top then On(index, Now()) else Failed(MissingArg)
      {
        RestUnfold(c, Now(), block, index, top);
        st, index := NextStep(block, index, false);
        if st != Ok {
          return;
        }
        dsp := dsp - 1;
      }
      if dsp != top {
        st := Trapped(MissingArg);
      }
    }

    /** The default of every argument cell is none. */
    method FillNone(n: nat)
      requires Valid()
      modifies this`ds, this`dsp
      ensures Now() == Defaulted(old(Now()), n)
    {
      Reserve(n);
      var w := ds;
      var i := 0;
      while i < n
        invariant 0 <= i <= n && |ds| == |w| > dsp + n && dsp == old(dsp)
        invariant forall k {:trigger ds[k]} :: 0 <= k < |ds| ==> ds[k] == if dsp < k <= dsp + i then None else w[k]
      {
        ds := ds[dsp + 1 + i := None];
        i := i + 1;
      }
      dsp := dsp + n;
      assert ds == Defaulted(old(Now()), n).ds;
    }

    /**
     * One parameter of Do_Args: its argument evaluated above the frame and moved to its cell, or taken as it stands.
     */
    method TakeArgument(p: Param, slot: nat, block: seq<Val>, index: nat, op: bool) returns (st: Status, next: nat)
      requires Valid() && slot < |ds| && index <= |block| && p.kind != Refine
      modifies this
      ensures Reached(RunArgument(c, old(Now()), block, index, p, slot, op), st, next, old(Now()))
      decreases block, |block| - index, 5
    {
      hide RunNext, RunChain, RunOperator, RunFirst, RunCall, RunPath, RunBody, RunArgs, Walk, RunBlock, RunRest, Bare;
      if p.kind == Normal || (p.kind == Quote && index < |block| && (block[index].Paren? || block[index].GetWord?)) {
        st, next := NextStep(block, index, op);
        if st == Ended {
          st := Trapped(NoArg);
        } else if st == Ok {
          ds := ds[slot := ds[dsp]];
          dsp := dsp - 1;
        }
      } else if index < |block| {
        ds := ds[slot := block[index]];
        st, next := Ok, index + 1;
      } else {
        ds := ds[slot := Unset];
        st, next := Ok, index;
      }
    }

    /**
     * Where refinement r stands: at a, when the walk has just come to it, or wherever a search from the start finds it.
     */
    method SeekRefinement(params: seq<Param>, a: nat, r: nat) returns (q: nat)
      requires a <= |params| && (a < |params| ==> params[a].kind == Refine) && DistinctRefs(params)
      ensures q == FindRef(params, r, 0)
    {
      if a < |params| && params[a].sym == r {
        RefHere(params, r, a);
        return a;
      }
      q := 0;
      while q < |params| && !(params[q].kind == Refine && params[q].sym == r)
        invariant 0 <= q <= |params| && FindRef(params, r, 0) == FindRef(params, r, q)
      {
        q := q + 1;
      }
    }

    /** Do_Args itself: the argument cells of the frame whose function value is at off, defaulted and filled. */
    method ArgsStep(off: nat, path: seq<nat>, block: seq<Val>, index: nat) returns (st: Status, next: nat)
      requires Valid() && index <= |block| && off < |ds| && off + FirstParam(ds[off]) == dsp
      modifies this
      ensures Reached(RunArgs(c, old(Now()), block, index, off, path), st, next, old(Now()))
      decreases block, |block| - index, 7
    {
      hide RunNext, RunChain, RunOperator, RunFirst, RunCall, RunPath, RunBody, Walk, RunArgument, RunBlock, RunRest,
        Bare, Defaulted;
      var params := Params(c, ds[off]);
      var first := FirstParam(ds[off]);
      FillNone(|params| - first);
      st, next := WalkParams(params, path, off, first, block, index);
    }

    /**
     * The loop of Do_Args over the parameters, from the first on; a refinement named out of order moves the walk
     * to its place, and back for each one that follows.
     */
    method WalkParams(params: seq<Param>, path: seq<nat>, off: nat, first: nat, block: seq<Val>, index: nat)
      returns (st: Status, next: nat)
      requires Valid() && DistinctRefs(params) && first <= |params| && off + |params| < |ds| && index <= |block|
      modifies this
      ensures Reached(Walk(c, old(Now()), block, index, off, params, path, first), st, next, old(Now()))
      decreases block, |block| - index, 6
    {
      hide RunNext, RunChain, RunOperator, RunFirst, RunCall, RunPath, RunBody, RunArgs, Walk, RunArgument, RunBlock,
        RunRest, Bare;
      var n := |params|;
      ghost var goal := Walk(c, Now(), block, index, off, params, path, first);
      var a: nat, pi: nat := first, 0;
      st, next := Ok, index;
      assert path[0..] == path;
      while true
        invariant st == Ok && a <= n && pi <= |path| && index <= next <= |block| && Valid() && off + n < |ds|
        invariant Walk(c, Now(), block, next, off, params, path[pi..], a) == goal
        decreases |path| - pi, n - a
      {
        WalkUnfold(c, Now(), block, next, off, params, path[pi..], a);
        if a < n && params[a].kind != Refine {
          st, next := TakeArgument(params[a], off + 1 + a, block, next, ds[off].Op?);
          if st != Ok {
            return;
          }
          if !TypeOk(params[a], ds[off + 1 + a]) {
            return Trapped(ExpectArg), next;
          }
          a := a + 1;
        } else if pi == |path| {
          return;
        } else {
          var q := SeekRefinement(params, a, path[pi]);
          if q == n {
            return Trapped(NoRefine), next;
          }
          ds := ds[off + 1 + q := Logic(true)];
          assert path[pi..][1..] == path[pi + 1..];
          pi := pi + 1;
          a := q + 1;
        }
      }
    }

    /**
     * Do_Args, and what comes of it. Where EvalSpec gathers slots they are the frame's argument cells: a slot last
     * taken at place j of the path's order holds the value consumed j-th, refinements named are true, every other
     * cell is none, or an operator's left operand; the cells up to the function value and the call frame are kept.
     */
    method DoArgs(off: nat, path: seq<nat>, block: seq<Val>, index: nat) returns (st: Status, next: nat)
      requires Valid() && index <= |block| && off < |ds| && off + FirstParam(ds[off]) == dsp
      modifies this
      ensures Reached(RunArgs(c, old(Now()), block, index, off, path), st, next, old(Now()))
      ensures var params, first, op := Params(c, old(ds[off])), FirstParam(old(ds[off])), old(ds[off]).Op?;
        var start := StartSlots(c, old(ds[off]), old(ds[dsp]));
        match Gather(c, old(env), block, index, params, path, first, start, op)
        case Filled(_, j, e) =>
          && st == Ok && next == j && env == e && dsf == old(dsf) && dsp == off + |params| < |ds|
          && Below(old(ds), ds, off) &&
            FilledSlots(c, old(env), block, index, params, path, first, start, op, ds[off + 1..dsp + 1])
        case ArgTrap(e) => st == Trapped(e)
        case ArgBorrows => true
      ensures Plain(block) && Distinct(path) && (old(ds[off]).Op? ==> path == []) ==>
        st != Overwritten && (st == Ok ==> dsf == old(dsf) && Below(old(ds), ds, off))
      decreases block, |block| - index, 7, 1
    {
      hide RunArgs, Gather, FilledSlots, Plain, Bare;
      AgreeArgs(c, Now(), block, index, off, path);
      GatherFilled(c, env, block, index, Params(c, ds[off]), path, FirstParam(ds[off]),
        StartSlots(c, ds[off], ds[dsp]), ds[off].Op?);
      if Plain(block) && Distinct(path) && (ds[off].Op? ==> path == []) {
        KeepArgs(c, Now(), block, index, off, path);
      }
      st, next := ArgsStep(off, path, block, index);
    }

    /**
     * Do_Next, and what comes of it: one expression from the block. The outcome is exactly what StackSpec says of
     * the whole stack. Where EvalSpec has a value it is that value, on one more cell. A block that is laid out from
     * an expression tree, or, for an operator's operand, from one term, yields the tree's value. The stack grows if
     * and only if the value is not borrowed; the cells below are kept, and no frame is written over, if no path
     * repeats a name.
     */
    method DoNext(block: seq<Val>, index: nat, op: bool) returns (st: Status, next: nat)
      requires Valid() && index <= |block|
      modifies this
      ensures Reached(RunNext(c, old(Now()), block, index, op), st, next, old(Now()))
      ensures Evaluated(Next(c, old(env), block, index, op), st, next, old(Now()))
      ensures forall e: Trees.Expr, after: seq<Val> {:trigger Trees.ExprValue(c, old(env), e, after)} ::
        !op && block[index..] == Trees.FlatExpr(e) + after ==>
          Gave(Trees.ExprValue(c, old(env), e, after), st, next, index + |Trees.FlatExpr(e)|, old(Now()))
      ensures forall t: Trees.Term, after: seq<Val> {:trigger Trees.TermValue(c, old(env), t, after)} ::
        op && block[index..] == Trees.FlatTerm(t) + after ==>
          Gave(Trees.TermValue(c, old(env), t, after), st, next, index + |Trees.FlatTerm(t)|, old(Now()))
      ensures st == Ok ==> Valid() && dsp == old(dsp) + if Bare(old(env), block, index) then 0 else 1
      ensures Plain(block) ==> st != Overwritten
      ensures Plain(block) && st == Ok ==> dsf == old(dsf) && Below(old(ds), ds, Safe(old(Now()), block, index))
      decreases block, |block| - index, 4, 1
    {
      hide RunNext, Next, Plain, Bare, Trees.ExprValue, Trees.TermValue;
      AgreeNext(c, Now(), block, index, op);
      Trees.NextGives(c, env, block, index, op);
      if Plain(block) {
        KeepNext(c, Now(), block, index, op);
      }
      st, next := NextStep(block, index, op);
    }

    /**
     * Do_Blk, and what comes of it. Where EvalSpec has a value it is that one, and the stack is as before; it is the
     * value of the trees, if the block is laid out from trees. In any
     * case a block that completes leaves the top where it was, and all cells up to it if no path repeats a name.
     */
    method DoBlk(block: seq<Val>, start: nat) returns (st: Status)
      requires Valid() && start <= |block|
      modifies this
      ensures Reached(RunBlock(c, old(Now()), block, start), st, |block|, old(Now()))
      ensures match Block(c, old(env), block, start)
        case Done(v, _, e) =>
          && st == Ok && env == e && dsf == old(dsf) && dsp == old(dsp) && Below(old(ds), ds, dsp)
          && dsp + 1 < |ds| && ds[dsp + 1] == v
        case Trap(e) => st == Trapped(e)
        case _ => true
      ensures forall all: Trees.Exprs {:trigger Trees.AllValue(c, old(env), all)} ::
        block[start..] == Trees.FlatAll(all) ==>
          match Trees.AllValue(c, old(env), all)
          case Yields(v, e) =>
            && st == Ok && env == e && dsf == old(dsf) && dsp == old(dsp) && Below(old(ds), ds, dsp)
            && dsp + 1 < |ds| && ds[dsp + 1] == v
          case Fails(e) => st == Trapped(e)
          case Misread => true
      ensures st == Ok ==> dsp == old(dsp) && dsp + 1 < |ds|
      ensures Plain(block) ==> st != Overwritten && (st == Ok ==> dsf == old(dsf) && Below(old(ds), ds, dsp))
      decreases block, |block| - start, 6, 1
    {
      hide RunBlock, Block, Plain, Trees.AllValue;
      AgreeBlock(c, Now(), block, start);
      Trees.BlockGives(c, env, block, start);
      if Plain(block) {
        KeepBlock(c, Now(), block, start);
      }
      st := BlkStep(block, start);
    }
  }
}

/**
 * The evaluator as a function of the whole data stack, for every block: what each routine of c-do.c makes of all
 * cells, the top, the call frame and the variables. Unlike EvalSpec it gives an operator in the place of a value
 * the meaning it has in the source: the cell on top, whatever it is, is its left operand and takes its result.
 */
module StackSpec {
  import opened EvalSpec

  /** From the return cell of a call frame to its function cell. */
  const DSF_SIZE: nat := 3

  /** Cells above the top keep what was last written there. */
  datatype State = State(ds: seq<Val>, dsp: nat, dsf: nat, env: Env)

  /**
   * Lost: a call frame has been written over, and what the source then reads as its function or prior frame is unknown.
   */
  datatype Out = On(next: nat, m: State) | AtEnd | Failed(e: Error) | Lost

  ghost predicate Live(m: State) {
    m.dsp < |m.ds|
  }

  /** The cells up to and including top are as they were. */
  ghost predicate Below(was: seq<Val>, now: seq<Val>, top: int) {
    top < |was| && top < |now| && forall k {:trigger now[k]} :: 0 <= k <= top ==> now[k] == was[k]
  }

  /** After any number of set-words, an operator: the value of this expression is borrowed from the top of the stack. */
  predicate Bare(env: Env, block: seq<Val>, i: nat)
    decreases |block| - i
  {
    i < |block| &&
    match block[i]
    case SetWord(_) => Bare(env, block, i + 1)
    case Word(_) => IsOpWord(env, block[i])
    case Op(_) => true
    case _ => false
  }

  // ---- Steps on the stack ----

  /** Expand_Stack: room for n cells above the top. */
  function Room(m: State, n: nat): (r: State)
    requires Live(m)
    ensures Live(r) && |r.ds| > m.dsp + n && |r.ds| >= |m.ds| && r.dsp == m.dsp && r.dsf == m.dsf && r.env == m.env
    ensures forall k {:trigger r.ds[k]} :: 0 <= k < |m.ds| ==> r.ds[k] == m.ds[k]
  {
    if |m.ds| <= m.dsp + n then m.(ds := m.ds + Nones(m.dsp + n + 1 - |m.ds|)) else m
  }

  function Pushed(m: State, v: Val): (r: State)
    requires Live(m)
    ensures Live(r) && r.dsp == m.dsp + 1 && |r.ds| >= |m.ds|
  {
    var w := Room(m, 1);
    w.(ds := w.ds[m.dsp + 1 := v], dsp := m.dsp + 1)
  }

  /** The return cell of a new call frame: above the top, or, with keep, the cell on top. */
  function Base(m: State, keep: bool): nat {
    if keep then m.dsp else m.dsp + 1
  }

  function Framed(m: State, keep: bool, block: seq<Val>, index: nat, word: nat, func: Val): (s: State)
    requires Live(m)
    ensures Live(s) && |s.ds| >= |m.ds| && s.dsp == Base(m, keep) + DSF_SIZE
    ensures s.ds[s.dsp] == func && s.ds[s.dsp - 1] == Name(word) && s.ds[s.dsp - 2] == Back(block, index, m.dsf)
    ensures s.ds[s.dsp - 3] == if keep then m.ds[m.dsp] else Unset
    ensures s.env == m.env && s.dsf == m.dsf
    ensures Below(m.ds, s.ds, if keep then m.dsp - 1 else m.dsp)
  {
    var w := Room(m, DSF_SIZE + 1);
    var r := Base(m, keep);
    var ds := w.ds[r + 1 := Back(block, index, m.dsf)][r + 2 := Name(word)][r + 3 := func];
    w.(ds := if keep then ds else ds[r := Unset], dsp := r + DSF_SIZE)
  }

  /** n cells of none on top. */
  function Defaulted(m: State, n: nat): (s: State)
    requires Live(m)
    ensures Live(s) && |s.ds| >= |m.ds| && s.dsp == m.dsp + n && s.env == m.env && s.dsf == m.dsf
    ensures Below(m.ds, s.ds, m.dsp) && forall k {:trigger s.ds[k]} :: m.dsp < k <= s.dsp ==> s.ds[k] == None
  {
    var w := Room(m, n);
    w.(ds := w.ds[..m.dsp + 1] + Nones(n) + w.ds[m.dsp + n + 1..], dsp := m.dsp + n)
  }

  /** The cell on top moved to slot. */
  function Popped(m: State, slot: nat): (s: State)
    requires Live(m) && slot < |m.ds| && m.dsp >= 1
    ensures Live(s) && |s.ds| == |m.ds| && s.dsp + 1 == m.dsp && s.env == m.env && s.dsf == m.dsf
    ensures s.ds[slot] == m.ds[m.dsp] && forall k {:trigger s.ds[k]} :: 0 <= k < |m.ds| && k != slot ==>
      s.ds[k] == m.ds[k]
  {
    m.(ds := m.ds[slot := m.ds[m.dsp]], dsp := m.dsp - 1)
  }

  /** The parameter Do_Args starts with: an operator's first argument is in place already. */
  function FirstParam(func: Val): nat {
    if func.Op? then 1 else 0
  }

  // ---- The routines ----

  /** The native is run on the slots of the frame; the stack is reset to its return cell, which takes the result. */
  function Dispatched(c: Context, next: nat, m: State, r: nat, func: Val): (x: Out)
    requires |m.ds| > r + DSF_SIZE + |Params(c, func)|
    ensures x != AtEnd && (x.On? ==> x.next == next && x.m.dsp == r && |x.m.ds| == |m.ds|)
  {
    var base := r + DSF_SIZE + 1;
    if m.ds[r + DSF_SIZE] != func then Lost
    else
      match Apply(c, func, m.ds[base..base + |Params(c, func)|])
      case Fail(code) => Failed(Native(code))
      case Ret(v) =>
        match m.ds[r + 1]
        case Back(_, _, prior) => On(next, m.(ds := m.ds[r := v], dsp := r, dsf := prior))
        case _ => Lost
  }

  /** Do_Next. One more cell, unless the value is borrowed. */
  ghost function RunNext(c: Context, m: State, block: seq<Val>, i: nat, op: bool): (x: Out)
    requires Live(m)
    ensures x == AtEnd <==> i >= |block|
    ensures x.On? ==> i < x.next <= |block| && Live(x.m) && |x.m.ds| >= |m.ds|
    ensures x.On? ==> x.m.dsp >= 1 && x.m.dsp == m.dsp + if Bare(m.env, block, i) then 0 else 1
    decreases block, |block| - i, 4
  {
    if i >= |block| then AtEnd
    else
      var first := RunFirst(c, m, block, i);
      if op || !first.On? then first else RunChain(c, first.m, block, first.next)
  }

  /** The jump back for as long as the next word names an operator. */
  ghost function RunChain(c: Context, m: State, block: seq<Val>, i: nat): (x: Out)
    requires Live(m) && m.dsp >= 1 && 0 < i <= |block|
    ensures x != AtEnd && (x.On? ==> i <= x.next <= |block| && Live(x.m) && |x.m.ds| >= |m.ds| && x.m.dsp == m.dsp)
    decreases block, |block| - i, 3
  {
    if i < |block| && IsOpWord(m.env, block[i]) then
      var once := RunOperator(c, m, block, i, block[i].sym, m.env[block[i].sym]);
      if once.On? then RunChain(c, once.m, block, once.next) else once
    else On(i, m)
  }

  /** An operator: the cell on top is its left operand and becomes its result. */
  ghost function RunOperator(c: Context, m: State, block: seq<Val>, i: nat, word: nat, func: Val): (x: Out)
    requires Live(m) && i < |block| && func.Op?
    ensures x != AtEnd
    ensures x.On? ==> i < x.next <= |block| && Live(x.m) && |x.m.ds| >= |m.ds| && x.m.dsp == m.dsp >= 1
    decreases block, |block| - i, 2, 0
  {
    if m.dsp == 0 || i == 0 then Failed(NoOpArg)
    else
      var framed := Framed(m, true, block, i, word, func);
      RunBody(c, Pushed(framed, framed.ds[m.dsp]), block, i, m.dsp, func, [])
  }

  /** A function call. */
  ghost function RunCall(c: Context, m: State, block: seq<Val>, i: nat, word: nat, func: Val): (x: Out)
    requires Live(m) && i < |block| && func.Func?
    ensures x != AtEnd
    ensures x.On? ==> i < x.next <= |block| && Live(x.m) && |x.m.ds| >= |m.ds| && x.m.dsp == m.dsp + 1
    decreases block, |block| - i, 2, 0
  {
    RunBody(c, Framed(m, false, block, i, word, func), block, i, m.dsp + 1, func, [])
  }

  /**
   * A path: a plain value, or a call whose refinements the rest names; the function value lies where its result will.
   */
  ghost function RunPath(c: Context, m: State, block: seq<Val>, i: nat, s: nat, refs: seq<nat>): (x: Out)
    requires Live(m) && i < |block|
    ensures x != AtEnd
    ensures x.On? ==> i < x.next <= |block| && Live(x.m) && |x.m.ds| >= |m.ds| && x.m.dsp == m.dsp + 1
    decreases block, |block| - i, 2, 0
  {
    if s !in m.env then Failed(NotDefined)
    else if m.env[s] == Unset then Failed(NoValue)
    else if m.env[s].Func? then
      RunBody(c, Framed(Pushed(m, m.env[s]), true, block, i, s, m.env[s]), block, i, m.dsp + 1, m.env[s], refs)
    else if m.env[s].Op? then Failed(BadType)
    else if refs != [] then Failed(BadPathType)
    else On(i + 1, Pushed(m, m.env[s]))
  }

  /** Arguments and native of the frame with return cell r. */
  ghost function RunBody(c: Context, m: State, block: seq<Val>, i: nat, r: nat, func: Val, path: seq<nat>): (x: Out)
    requires Live(m) && i < |block| && m.dsp == r + DSF_SIZE + FirstParam(func) && m.ds[r + DSF_SIZE] == func
    ensures x != AtEnd
    ensures x.On? ==> i < x.next <= |block| && Live(x.m) && |x.m.ds| >= |m.ds| && x.m.dsp == r
    decreases block, |block| - i, 1
  {
    var args := RunArgs(c, m, block, i + 1, r + DSF_SIZE, path);
    if args.On? then Dispatched(c, args.next, args.m, r, func) else args
  }

  /** Do_Args for the function at off. */
  ghost function RunArgs(c: Context, m: State, block: seq<Val>, i: nat, off: nat, path: seq<nat>): (x: Out)
    requires Live(m) && i <= |block| && off < |m.ds| && off + FirstParam(m.ds[off]) == m.dsp
    ensures x != AtEnd
    ensures x.On? ==> i <= x.next <= |block| && Live(x.m) && |x.m.ds| >= |m.ds|
    ensures x.On? ==> |x.m.ds| > off + |Params(c, m.ds[off])|
    decreases block, |block| - i, 7
  {
    var params := Params(c, m.ds[off]);
    var first := FirstParam(m.ds[off]);
    Walk(c, Defaulted(m, |params| - first), block, i, off, params, path, first)
  }

  /** The loop of Do_Args from parameter k on, as EvalSpec.Gather, on the cells above off. */
  ghost function Walk(c: Context, m: State, block: seq<Val>, i: nat, off: nat, params: seq<Param>, path: seq<nat>,
      k: nat): (x: Out)
    requires Live(m) && i <= |block| && k <= |params| && off + |params| < |m.ds|
    ensures x != AtEnd
    ensures x.On? ==> i <= x.next <= |block| && Live(x.m) && |x.m.ds| >= |m.ds|
    decreases block, |block| - i, 6, |path|, |params| - k
  {
    if k < |params| && params[k].kind != Refine then
      var one := RunArgument(c, m, block, i, params[k], off + 1 + k, m.ds[off].Op?);
      if !one.On? then one
      else if TypeOk(params[k], one.m.ds[off + 1 + k]) then Walk(c, one.m, block, one.next, off, params, path, k + 1)
      else Failed(ExpectArg)
    else if path == [] then On(i, m)
    else
      var h := FindRef(params, path[0], 0);
      if h == |params| then Failed(NoRefine)
      else Walk(c, m.(ds := m.ds[off + 1 + h := Logic(true)]), block, i, off, params, path[1..], h + 1)
  }

  /** One argument, evaluated on top and moved to its slot, or taken as it stands. */
  ghost function RunArgument(c: Context, m: State, block: seq<Val>, i: nat, p: Param, slot: nat, op: bool): (x: Out)
    requires Live(m) && i <= |block| && p.kind != Refine && slot < |m.ds|
    ensures x != AtEnd
    ensures x.On? ==> i <= x.next <= |block| && Live(x.m) && |x.m.ds| >= |m.ds|
    decreases block, |block| - i, 5
  {
    if p.kind == Normal || (p.kind == Quote && i < |block| && (block[i].Paren? || block[i].GetWord?)) then
      match RunNext(c, m, block, i, op)
      case On(next, w) => On(next, Popped(w, slot))
      case AtEnd => Failed(NoArg)
      case Failed(e) => Failed(e)
      case Lost => Lost
    else if i < |block| then On(i + 1, m.(ds := m.ds[slot := block[i]]))
    else On(i, m.(ds := m.ds[slot := Unset]))
  }

  /** A word: its value, or a call. */
  ghost function RunWord(c: Context, m: State, block: seq<Val>, i: nat): (x: Out)
    requires Live(m) && i < |block| && block[i].Word?
    ensures x != AtEnd
    ensures x.On? ==> i < x.next <= |block| && Live(x.m) && |x.m.ds| >= |m.ds|
    ensures x.On? ==> x.m.dsp >= 1 && x.m.dsp == m.dsp + if IsOpWord(m.env, block[i]) then 0 else 1
    decreases block, |block| - i, 2, 1
  {
    var s := block[i].sym;
    if s !in m.env then Failed(NotDefined)
    else if m.env[s] == Unset then Failed(NoValue)
    else if m.env[s].Func? then RunCall(c, m, block, i, s, m.env[s])
    else if m.env[s].Op? then RunOperator(c, m, block, i, s, m.env[s])
    else On(i + 1, Pushed(m, m.env[s]))
  }

  /** The first switch of Do_Next. */
  ghost function RunFirst(c: Context, m: State, block: seq<Val>, i: nat): (x: Out)
    requires Live(m) && i < |block|
    ensures x != AtEnd
    ensures x.On? ==> i < x.next <= |block| && Live(x.m) && |x.m.ds| >= |m.ds|
    ensures x.On? ==> x.m.dsp >= 1 && x.m.dsp == m.dsp + if Bare(m.env, block, i) then 0 else 1
    decreases block, |block| - i, 3
  {
    match block[i]
    case Word(_) => RunWord(c, m, block, i)
    case SetWord(s) =>
      var x := RunNext(c, m, block, i + 1, false);
      if x == AtEnd || (x.On? && x.m.ds[x.m.dsp] == Unset) then Failed(NeedValue)
      else if x.On? then
        if s in x.m.env then On(x.next, x.m.(env := x.m.env[s := x.m.ds[x.m.dsp]])) else Failed(NotDefined)
      else x
    case GetWord(s) => if s in m.env then On(i + 1, Pushed(m, m.env[s])) else Failed(NotDefined)
    case LitWord(s) => On(i + 1, Pushed(m, Word(s)))
    case Paren(items) =>
      var x := RunBlock(c, m, items, 0);
      if x.On? then On(i + 1, x.m.(dsp := m.dsp + 1)) else x
    case Path(s, refs) => RunPath(c, m, block, i, s, refs)
    case Func(_) => RunCall(c, m, block, i, 0, block[i])
    case Op(_) => RunOperator(c, m, block, i, 0, block[i])
    case Back(_, _, _) => Failed(NoValue)
    case _ => On(i + 1, Pushed(m, block[i]))
  }

  /** Do_Blk: the value is left just above the top; a stack that has shrunk meanwhile is refused at the end. */
  ghost function RunBlock(c: Context, m: State, block: seq<Val>, i: nat): (x: Out)
    requires Live(m) && i <= |block|
    ensures x != AtEnd
    ensures x.On? ==> x.m.dsp == m.dsp && x.m.dsp + 1 < |x.m.ds| && |x.m.ds| >= |m.ds|
    decreases block, |block| - i, 6
  {
    if i == |block| then
      var w := Room(m, 1);
      On(i, w.(ds := w.ds[m.dsp + 1 := Unset]))
    else RunRest(c, m, block, i, m.dsp)
  }

  ghost function RunRest(c: Context, m: State, block: seq<Val>, i: nat, start: nat): (x: Out)
    requires Live(m) && i < |block|
    ensures x != AtEnd
    ensures x.On? ==> x.m.dsp == start && x.m.dsp + 1 < |x.m.ds| && |x.m.ds| >= |m.ds|
    decreases block, |block| - i, 5
  {
    var x := RunNext(c, m, block, i, false);
    if !x.On? then x
    else
      var w := x.m.(dsp := x.m.dsp - 1);
      if x.next < |block| then RunRest(c, w, block, x.next, start)
      else if w.dsp == start then On(x.next, w)
      else Failed(MissingArg)
  }
}

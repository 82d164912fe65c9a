/** What c-do.c's evaluator means: a plain recursive left-to-right evaluation of a block. */
module EvalSpec {
  /**
   * Values. Lit stands for everything that evaluates to itself; Path for a function path with refinements;
   * Back and Name are the bookkeeping cells of a call frame.
   */
  datatype Val =
    | Lit(id: int) | Unset | None | Logic(b: bool)
    | Word(sym: nat) | SetWord(sym: nat) | LitWord(sym: nat) | GetWord(sym: nat)
    | Paren(items: seq<Val>) | Path(head: nat, refs: seq<nat>)
    | Func(fid: nat) | Op(oid: nat)
    | Back(block: seq<Val>, index: nat, dsf: nat) | Name(word: nat)

  /** How a parameter takes its argument: evaluated, quoted, raw, or a refinement that takes none. */
  datatype Kind = Normal | Quote | Raw | Refine

  datatype Tag = LitTag | UnsetTag | NoneTag | LogicTag | WordTag | ParenTag | PathTag | FuncTag | OtherTag

  datatype Param = Param(kind: Kind, sym: nat, types: set<Tag>)

  datatype Error =
    | NotDefined | NoValue | NeedValue | NoArg | NoOpArg | NoRefine | ExpectArg | BadPathType | BadType | MissingArg
    | Native(code: int)

  /** What a native does with its argument slots. */
  datatype Ret = Ret(v: Val) | Fail(code: int)

  /** An operator is only ever made with two arguments before its first refinement. */
  datatype OpSpec = OpSpec(left: Param, right: Param, rest: seq<Param>)

  /** Parameters of every function and operator, and the natives themselves. */
  datatype Context = Context(specs: nat -> seq<Param>, ops: nat -> OpSpec, natives: (Val, seq<Val>) -> Ret)

  /** The words that have a frame, and their values there. */
  type Env = map<nat, Val>

  /**
   * The outcome of evaluating one expression. An operator past the head of a block where a value should stand
   * borrows whatever cell lies on top of the stack: what it yields is not a matter of values alone (StackSpec).
   */
  datatype Res = Done(v: Val, next: nat, env: Env) | End | Trap(e: Error) | Borrows

  /** The outcome of gathering arguments. */
  datatype Args = Filled(slots: seq<Val>, next: nat, env: Env) | ArgTrap(e: Error) | ArgBorrows

  function TagOf(v: Val): Tag {
    match v
    case Lit(_) => LitTag
    case Unset => UnsetTag
    case None => NoneTag
    case Logic(_) => LogicTag
    case Word(_) => WordTag
    case SetWord(_) => WordTag
    case LitWord(_) => WordTag
    case GetWord(_) => WordTag
    case Paren(_) => ParenTag
    case Path(_, _) => PathTag
    case Func(_) => FuncTag
    case Op(_) => FuncTag
    case Back(_, _, _) => OtherTag
    case Name(_) => OtherTag
  }

  function Params(c: Context, func: Val): (ps: seq<Param>)
    ensures func.Op? ==> |ps| >= 2
  {
    match func
    case Func(f) => c.specs(f)
    case Op(o) => [c.ops(o).left, c.ops(o).right] + c.ops(o).rest
    case _ => []
  }

  function Apply(c: Context, func: Val, slots: seq<Val>): Ret {
    c.natives(func, slots)
  }

  function Nones(n: nat): (s: seq<Val>)
    ensures |s| == n && forall i :: 0 <= i < n ==> s[i] == None
  {
    seq(n, _ => None)
  }

  predicate TypeOk(p: Param, v: Val) {
    TagOf(v) in p.types
  }

  /** The place of refinement r among the parameters, or their number. */
  function FindRef(params: seq<Param>, r: nat, from: nat): (k: nat)
    requires from <= |params|
    ensures from <= k <= |params|
    ensures k < |params| ==> params[k].kind == Refine && params[k].sym == r
    ensures forall i :: from <= i < k ==> !(params[i].kind == Refine && params[i].sym == r)
    decreases |params| - from
  {
    if from == |params| || (params[from].kind == Refine && params[from].sym == r) then from
    else FindRef(params, r, from + 1)
  }

  /** A word that names an operator. */
  predicate IsOpWord(env: Env, v: Val) {
    v.Word? && v.sym in env && env[v.sym].Op?
  }

  // ---- Evaluation ----

  /** An operator with nothing before it: refused at the head of a block, elsewhere it borrows. */
  ghost function NoLeft(i: nat): Res {
    if i == 0 then Trap(NoOpArg) else Borrows
  }

  ghost function Finish(c: Context, func: Val, a: Args): (r: Res)
    ensures r != End && (r.Done? ==> a.Filled? && r.next == a.next)
  {
    match a
    case ArgTrap(e) => Trap(e)
    case ArgBorrows => Borrows
    case Filled(slots, next, env) =>
      match Apply(c, func, slots)
      case Ret(v) => Done(v, next, env)
      case Fail(code) => Trap(Native(code))
  }

  /** One expression: a first value, then, unless an operator's argument is wanted, the infix chain after it. */
  ghost function Next(c: Context, env: Env, block: seq<Val>, i: nat, op: bool): (r: Res)
    ensures r.Done? ==> i < r.next <= |block|
    ensures r == End <==> i >= |block|
    decreases block, |block| - i, 4
  {
    if i >= |block| then End
    else
      var first := First(c, env, block, i);
      if op || !first.Done? then first else Chain(c, first.env, block, first.next, first.v)
  }

  /** A chain of operators, each with the value so far on its left: a left fold. */
  ghost function Chain(c: Context, env: Env, block: seq<Val>, i: nat, left: Val): (r: Res)
    requires 0 < i <= |block|
    ensures r.Done? ==> i <= r.next <= |block|
    ensures r != End
    decreases block, |block| - i, 3
  {
    if i < |block| && IsOpWord(env, block[i]) then
      var once := Operate(c, env, block, i, env[block[i].sym], left);
      if once.Done? then Chain(c, once.env, block, once.next, once.v) else once
    else Done(left, i, env)
  }

  /** One operator at i with its left operand. */
  ghost function Operate(c: Context, env: Env, block: seq<Val>, i: nat, func: Val, left: Val): (r: Res)
    requires i < |block| && func.Op?
    ensures r.Done? ==> i < r.next <= |block|
    ensures r != End
    decreases block, |block| - i, 2
  {
    var params := Params(c, func);
    Finish(c, func, Gather(c, env, block, i + 1, params, [], 1, Nones(|params|)[0 := left], true))
  }

  ghost function First(c: Context, env: Env, block: seq<Val>, i: nat): (r: Res)
    requires i < |block|
    ensures r.Done? ==> i < r.next <= |block|
    ensures r != End
    decreases block, |block| - i, 3
  {
    match block[i]
    case Word(s) =>
      if s !in env then Trap(NotDefined)
      else if env[s] == Unset then Trap(NoValue)
      else if env[s].Func? then Call(c, env, block, i, env[s], [])
      else if env[s].Op? then NoLeft(i)
      else Done(env[s], i + 1, env)
    case SetWord(s) =>
      var r := Next(c, env, block, i + 1, false);
      if r == End || (r.Done? && r.v == Unset) then Trap(NeedValue)
      else if r.Done? then if s in r.env then Done(r.v, r.next, r.env[s := r.v]) else Trap(NotDefined)
      else r
    case GetWord(s) => if s in env then Done(env[s], i + 1, env) else Trap(NotDefined)
    case LitWord(s) => Done(Word(s), i + 1, env)
    case Paren(items) =>
      var r := Block(c, env, items, 0);
      if r.Done? then Done(r.v, i + 1, r.env) else r
    case Path(s, refs) =>
      if s !in env then Trap(NotDefined)
      else if env[s] == Unset then Trap(NoValue)
      else if env[s].Func? then Call(c, env, block, i, env[s], refs)
      else if env[s].Op? then Trap(BadType)
      else if refs != [] then Trap(BadPathType)
      else Done(env[s], i + 1, env)
    case Func(_) => Call(c, env, block, i, block[i], [])
    case Op(_) => NoLeft(i)
    case Back(_, _, _) => Trap(NoValue)
    case _ => Done(block[i], i + 1, env)
  }

  ghost function Call(c: Context, env: Env, block: seq<Val>, i: nat, func: Val, path: seq<nat>): (r: Res)
    requires i < |block|
    ensures r.Done? ==> i < r.next <= |block|
    ensures r != End
    decreases block, |block| - i, 2
  {
    var params := Params(c, func);
    Finish(c, func, Gather(c, env, block, i + 1, params, path, 0, Nones(|params|), false))
  }

  /**
   * The argument slots from parameter k on: parameters in order up to the next refinement, then the
   * parameters of the next refinement named in the path, and so on through the path.
   */
  ghost function Gather(c: Context, env: Env, block: seq<Val>, i: nat, params: seq<Param>, path: seq<nat>, k: nat,
      slots: seq<Val>, op: bool): (a: Args)
    requires k <= |params| == |slots| && i <= |block|
    ensures a.Filled? ==> i <= a.next <= |block| && |a.slots| == |params|
    decreases block, |block| - i, 6, |path|, |params| - k
  {
    if k < |params| && params[k].kind != Refine then
      var one := Argument(c, env, block, i, params[k], op);
      if one.Done? then
        if TypeOk(params[k], one.v) then Gather(c, one.env, block, one.next, params, path, k + 1, slots[k := one.v], op)
        else ArgTrap(ExpectArg)
      else if one.Trap? then ArgTrap(one.e)
      else ArgBorrows
    else if path == [] then Filled(slots, i, env)
    else
      var r := FindRef(params, path[0], 0);
      if r == |params| then ArgTrap(NoRefine)
      else Gather(c, env, block, i, params, path[1..], r + 1, slots[r := Logic(true)], op)
  }

  /** One argument, taken the way its parameter says. */
  ghost function Argument(c: Context, env: Env, block: seq<Val>, i: nat, p: Param, op: bool): (r: Res)
    requires i <= |block| && p.kind != Refine
    ensures r.Done? ==> i <= r.next <= |block|
    ensures r != End
    decreases block, |block| - i, 5
  {
    if p.kind == Normal || (p.kind == Quote && i < |block| && (block[i].Paren? || block[i].GetWord?)) then
      var r := Next(c, env, block, i, op);
      if r == End then Trap(NoArg) else r
    else if i < |block| then Done(block[i], i + 1, env)
    else Done(Unset, i, env)
  }

  /** All expressions of a block in order; the value is the last one's, Unset for an empty block. */
  ghost function Block(c: Context, env: Env, block: seq<Val>, i: nat): (r: Res)
    requires i <= |block|
    ensures r != End
    decreases block, |block| - i, 5
  {
    if i == |block| then Done(Unset, i, env)
    else
      var r := Next(c, env, block, i, false);
      if r.Done? && r.next < |block| then Block(c, r.env, block, r.next) else r
  }
}

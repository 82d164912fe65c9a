/**
 * Expressions as trees: an operator takes the value so far and one operand, a call takes the whole expressions that
 * fill its slots. What a tree yields is said without indices into a block; a block laid out from a tree yields that.
 */
module Trees {
  import opened EvalSpec
  import opened Refinements

  /** An operand: what stands before, after and between operators. Given is taken as it stands, Absent is not there. */
  datatype Term =
    | Literal(v: Val) | Variable(sym: nat) | Fetch(sym: nat) | Quoted(sym: nat) | Group(body: Exprs)
    | Assign(sym: nat, value: Expr) | Select(sym: nat, refs: seq<nat>)
    | Invoke(sym: nat, path: seq<nat>, args: Exprs) | Direct(fid: nat, args: Exprs) | Given(v: Val) | Absent

  datatype Expr = Expr(first: Term, chain: Infixes)

  datatype Infixes = Stop | Infix(sym: nat, right: Term, rest: Infixes)

  datatype Exprs = Nil | Cons(head: Expr, tail: Exprs)

  // ---- Layout ----

  function FlatTerm(t: Term): seq<Val> {
    match t
    case Literal(v) => [v]
    case Variable(s) => [Word(s)]
    case Fetch(s) => [GetWord(s)]
    case Quoted(s) => [LitWord(s)]
    case Group(body) => [Paren(FlatAll(body))]
    case Assign(s, value) => [SetWord(s)] + FlatExpr(value)
    case Select(s, refs) => [Path(s, refs)]
    case Invoke(s, path, args) => [if path == [] then Word(s) else Path(s, path)] + FlatAll(args)
    case Direct(fid, args) => [Func(fid)] + FlatAll(args)
    case Given(v) => [v]
    case Absent => []
  }

  function FlatExpr(e: Expr): seq<Val> {
    FlatTerm(e.first) + FlatChain(e.chain)
  }

  function FlatChain(chain: Infixes): seq<Val> {
    match chain
    case Stop => []
    case Infix(s, right, rest) => [Word(s)] + FlatTerm(right) + FlatChain(rest)
  }

  function FlatAll(all: Exprs): seq<Val> {
    match all
    case Nil => []
    case Cons(head, tail) => FlatExpr(head) + FlatAll(tail)
  }

  // ---- Meaning ----

  /** Misread: the words do not name what the tree takes them for, and the block is not read as this tree. */
  datatype Meaning = Yields(v: Val, env: Env) | Fails(e: Error) | Misread

  datatype Values = Values(vals: seq<Val>, env: Env) | Failed(e: Error) | Mistaken

  /** The next word would be taken for an operator on what stands before it. */
  predicate Continues(env: Env, after: seq<Val>) {
    after != [] && after[0].Word? && after[0].sym in env && env[after[0].sym].Op?
  }

  /** How a parameter of some kind takes a term, with after still to come. */
  datatype Taking = Evaluated | AsIs(v: Val) | NotThere | Unfit

  function Takes(kind: Kind, t: Term, after: seq<Val>): Taking {
    match t
    case Absent => if after != [] || kind == Refine then Unfit else if kind == Normal then NotThere else AsIs(Unset)
    case Given(v) => if kind == Raw || (kind == Quote && !v.Paren? && !v.GetWord?) then AsIs(v) else Unfit
    case Group(_) => if kind == Normal || kind == Quote then Evaluated else Unfit
    case Fetch(_) => if kind == Normal || kind == Quote then Evaluated else Unfit
    case _ => if kind == Normal then Evaluated else Unfit
  }

  /** How many names of the path are refinements, before the first that is not. */
  ghost function KnownCount(params: seq<Param>, path: seq<nat>): (n: nat)
    ensures n <= |path|
  {
    if path == [] || FindRef(params, path[0], 0) == |params| then 0 else 1 + KnownCount(params, path[1..])
  }

  /** The native's result on these slots. */
  function Applied(c: Context, func: Val, slots: seq<Val>, env: Env): Meaning {
    match Apply(c, func, slots)
    case Ret(v) => Yields(v, env)
    case Fail(code) => Fails(Native(code))
  }

  ghost function LastValue(order: seq<nat>, vals: seq<Val>, q: nat): Val
    requires |order| <= |vals|
  {
    if order == [] then None
    else if order[0] == q && q !in order[1..] then vals[0]
    else LastValue(order[1..], vals[1..], q)
  }

  /** The frame of a call: refinements named are true, a slot taken holds its last value, all others are none. */
  ghost function Slots(params: seq<Param>, path: seq<nat>, order: seq<nat>, vals: seq<Val>): (slots: seq<Val>)
    requires |order| <= |vals|
    ensures |slots| == |params|
  {
    seq(|params|, q requires 0 <= q < |params| =>
      if params[q].kind == Refine then if Named(params, path, q) then Logic(true) else None
      else LastValue(order, vals, q))
  }

  /** A term, with after still to come in the block. */
  ghost function TermValue(c: Context, env: Env, t: Term, after: seq<Val>): (m: Meaning)
    decreases t, 0
  {
    match t
    case Literal(v) =>
      if v.Lit? || v.Unset? || v.None? || v.Logic? || v.Name? then Yields(v, env)
      else if v.Back? then Fails(NoValue)
      else Misread
    case Select(s, refs) =>
      if s !in env then Fails(NotDefined)
      else if env[s] == Unset then Fails(NoValue)
      else if env[s].Func? then Misread
      else if env[s].Op? then Fails(BadType)
      else if refs != [] then Fails(BadPathType)
      else Yields(env[s], env)
    case Variable(s) =>
      if s !in env then Fails(NotDefined)
      else if env[s] == Unset then Fails(NoValue)
      else if env[s].Func? || env[s].Op? then Misread
      else Yields(env[s], env)
    case Fetch(s) => if s in env then Yields(env[s], env) else Fails(NotDefined)
    case Quoted(s) => Yields(Word(s), env)
    case Group(body) => AllValue(c, env, body)
    case Assign(s, value) =>
      if value == Expr(Absent, Stop) && after == [] then Fails(NeedValue)
      else
        var m := ExprValue(c, env, value, after);
        if !m.Yields? then m
        else if m.v == Unset then Fails(NeedValue)
        else if s in m.env then Yields(m.v, m.env[s := m.v])
        else Fails(NotDefined)
    case Invoke(s, path, args) =>
      if s in env && env[s].Func? then CallValue(c, env, env[s], path, args, after) else Misread
    case Direct(fid, args) => CallValue(c, env, Func(fid), [], args, after)
    case Given(_) => Misread
    case Absent => Misread
  }

  /** A call: the arguments its slots ask for, in the order its path does; a name it does not know ends it. */
  ghost function CallValue(c: Context, env: Env, func: Val, path: seq<nat>, args: Exprs, after: seq<Val>): (m: Meaning)
    decreases args, 1
  {
    var params := Params(c, func);
    var n := KnownCount(params, path);
    var order := Order(params, path[..n], 0);
    match ArgValues(c, env, params, order, args, after)
    case Values(vals, env') =>
      if n < |path| then Fails(NoRefine) else Applied(c, func, Slots(params, path, order, vals), env')
    case Failed(e) => Fails(e)
    case Mistaken => Misread
  }

  /** An expression: its operators from the left, each on what the ones before it made and on its one operand. */
  ghost function ExprValue(c: Context, env: Env, e: Expr, after: seq<Val>): (m: Meaning)
    decreases e, 0
  {
    var m := TermValue(c, env, e.first, FlatChain(e.chain) + after);
    if m.Yields? then ChainValue(c, m.env, m.v, e.chain, after) else m
  }

  ghost function ChainValue(c: Context, env: Env, left: Val, chain: Infixes, after: seq<Val>): (m: Meaning)
    decreases chain, 0
  {
    match chain
    case Stop => if Continues(env, after) then Misread else Yields(left, env)
    case Infix(s, right, rest) =>
      if s in env && env[s].Op? && (c.ops(env[s].oid).rest != [] ==> c.ops(env[s].oid).rest[0].kind == Refine) then
        var spec := c.ops(env[s].oid);
        var m := OperandValue(c, env, spec.right.kind, right, FlatChain(rest) + after);
        if !m.Yields? then m
        else if !TypeOk(spec.right, m.v) then Fails(ExpectArg)
        else
          var x := Applied(c, env[s], [left, m.v] + Nones(|spec.rest|), m.env);
          if x.Yields? then ChainValue(c, x.env, x.v, rest, after) else x
      else Misread
  }

  /** The right operand: a single term. */
  ghost function OperandValue(c: Context, env: Env, kind: Kind, t: Term, after: seq<Val>): (m: Meaning)
    decreases t, 1
  {
    match Takes(kind, t, after)
    case Evaluated => TermValue(c, env, t, after)
    case AsIs(v) => Yields(v, env)
    case NotThere => Fails(NoArg)
    case Unfit => Misread
  }

  /** An argument of a call: a whole expression. */
  ghost function ArgValue(c: Context, env: Env, kind: Kind, e: Expr, after: seq<Val>): (m: Meaning)
    decreases e, 1
  {
    match Takes(kind, e.first, FlatChain(e.chain) + after)
    case Evaluated => ExprValue(c, env, e, after)
    case AsIs(v) => if e.chain == Stop then Yields(v, env) else Misread
    case NotThere => Fails(NoArg)
    case Unfit => Misread
  }

  /** One argument for every slot of the order, each evaluated with the variables the ones before it left. */
  ghost function ArgValues(c: Context, env: Env, params: seq<Param>, order: seq<nat>, args: Exprs, after: seq<Val>):
      (vs: Values)
    requires ArgSlots(params, order)
    ensures vs.Values? ==> |vs.vals| == |order|
    decreases args, 0
  {
    match args
    case Nil => if order == [] then Values([], env) else Mistaken
    case Cons(head, tail) =>
      if order == [] then Mistaken
      else
        var m := ArgValue(c, env, params[order[0]].kind, head, FlatAll(tail) + after);
        if m.Misread? then Mistaken
        else if m.Fails? then Failed(m.e)
        else if !TypeOk(params[order[0]], m.v) then Failed(ExpectArg)
        else
          var more := ArgValues(c, m.env, params, order[1..], tail, after);
          if more.Values? then Values([m.v] + more.vals, more.env) else more
  }

  /** A whole block: every expression in turn, the value of the last, unset for none. */
  ghost function AllValue(c: Context, env: Env, all: Exprs): (m: Meaning)
    decreases all, 0
  {
    match all
    case Nil => Yields(Unset, env)
    case Cons(head, tail) =>
      var m := ExprValue(c, env, head, FlatAll(tail));
      if m.Yields? && tail.Cons? then AllValue(c, m.env, tail) else m
  }

  // ---- The evaluator gives the meaning ----

  ghost predicate Same(m: Meaning, r: Res, next: nat) {
    match m
    case Yields(v, env) => r == Done(v, next, env)
    case Fails(e) => r == Trap(e)
    case Misread => true
  }

  lemma {:induction false} Split(block: seq<Val>, i: nat, a: seq<Val>, rest: seq<Val>)
    requires i <= |block| && block[i..] == a + rest
    ensures i + |a| <= |block| && block[i + |a|..] == rest && (a != [] ==> i < |block| && block[i] == a[0])
  {
    assert |block[i..]| == |a| + |rest|;
    assert block[i..][|a|..] == rest;
    if a != [] {
      assert block[i] == block[i..][0];
    }
  }

  lemma {:induction false} SplitHead(block: seq<Val>, i: nat, v: Val, a: seq<Val>, rest: seq<Val>)
    requires i <= |block| && block[i..] == ([v] + a) + rest
    ensures i < |block| && block[i] == v && block[i + 1..] == a + rest
  {
    assert ([v] + a) + rest == [v] + (a + rest);
    Split(block, i, [v], a + rest);
  }

  lemma {:induction false} ChainSplit(block: seq<Val>, i: nat, chain: Infixes, after: seq<Val>)
    requires i <= |block| && block[i..] == FlatChain(chain) + after && chain.Infix?
    ensures i < |block| && block[i] == Word(chain.sym)
    ensures block[i + 1..] == FlatTerm(chain.right) + (FlatChain(chain.rest) + after)
    ensures var j := i + 1 + |FlatTerm(chain.right)|;
      j <= |block| && block[j..] == FlatChain(chain.rest) + after &&
        i + |FlatChain(chain)| == j + |FlatChain(chain.rest)|
  {
    hide FlatTerm;
    var a, rest := FlatTerm(chain.right), FlatChain(chain.rest);
    assert FlatChain(chain) == [Word(chain.sym)] + (a + rest);
    SplitHead(block, i, Word(chain.sym), a + rest, after);
    assert (a + rest) + after == a + (rest + after);
    Split(block, i + 1, a, rest + after);
  }

  lemma {:induction false} GatherTwo(c: Context, env: Env, block: seq<Val>, i: nat, params: seq<Param>, slots: seq<Val>)
    requires |slots| == |params| >= 2 && i <= |block| && params[1].kind != Refine
    requires |params| > 2 ==> params[2].kind == Refine
    ensures var one := Argument(c, env, block, i, params[1], true);
      Gather(c, env, block, i, params, [], 1, slots, true) ==
        if one.Done? then
          if TypeOk(params[1], one.v) then Filled(slots[1 := one.v], one.next, one.env) else ArgTrap(ExpectArg)
        else if one.Trap? then ArgTrap(one.e)
        else ArgBorrows
  {
    hide Argument;
  }

  /** How the parameter takes the term is how Do_Args takes what stands in the block. */
  lemma {:induction false} TakesAgrees(block: seq<Val>, i: nat, kind: Kind, t: Term, after: seq<Val>)
    requires i <= |block| && block[i..] == FlatTerm(t) + after
    ensures match Takes(kind, t, after)
      case Evaluated =>
        kind == Normal || (kind == Quote && i < |block| && (block[i].Paren? || block[i].GetWord?))
      case AsIs(v) =>
        (kind == Quote || kind == Raw) &&
        if i < |block| then
          v == block[i] && |FlatTerm(t)| == 1 && !(kind == Quote && (block[i].Paren? || block[i].GetWord?))
        else v == Unset && FlatTerm(t) == []
      case NotThere => kind == Normal && i == |block|
      case Unfit => true
  {
    hide FlatExpr, FlatAll;
    Split(block, i, FlatTerm(t), after);
  }

  lemma NextEnd(c: Context, env: Env, block: seq<Val>)
    ensures Next(c, env, block, |block|, false) == End
  {
  }

  lemma {:induction false} AllKnown(params: seq<Param>, path: seq<nat>)
    requires KnownCount(params, path) == |path|
    ensures Known(params, path)
  {
    if path != [] {
      AllKnown(params, path[1..]);
      KnownSteps(params, path);
    }
  }

  lemma {:induction false} CountSteps(params: seq<Param>, path: seq<nat>)
    requires path != []
    ensures var n := KnownCount(params, path);
      if FindRef(params, path[0], 0) == |params| then n == 0
      else n == 1 + KnownCount(params, path[1..]) && path[..n][0] == path[0] && path[..n][1..] == path[1..][..n - 1]
  {
  }

  lemma {:induction false} LastIs(order: seq<nat>, vals: seq<Val>, q: nat)
    requires |order| <= |vals|
    ensures q !in order ==> LastValue(order, vals, q) == None
    ensures q in order ==> exists j: nat :: LastAt(order, q, j) && LastValue(order, vals, q) == vals[j]
  {
    if order == [] {
    } else if order[0] == q && q !in order[1..] {
      assert LastAt(order, q, 0);
    } else {
      LastIs(order[1..], vals[1..], q);
      if q in order[1..] {
        var j: nat :| LastAt(order[1..], q, j) && LastValue(order[1..], vals[1..], q) == vals[1..][j];
        assert order[j + 1 + 1..] == order[1..][j + 1..];
        assert LastAt(order, q, j + 1);
      }
    }
  }

  lemma {:induction false} SlotsAgree(c: Context, env: Env, block: seq<Val>, i: nat, params: seq<Param>,
      path: seq<nat>, vals: seq<Val>)
    requires i <= |block|
    requires Gather(c, env, block, i, params, path, 0, Nones(|params|), false).Filled?
    requires var t := TakeAll(c, env, block, i, params, Order(params, path, 0), false); t.Took? && t.vals == vals
    ensures Gather(c, env, block, i, params, path, 0, Nones(|params|), false).slots ==
      Slots(params, path, Order(params, path, 0), vals)
  {
    hide Gather, TakeAll, Order, Named, LastAt, LastValue;
    var order := Order(params, path, 0);
    var slots := Nones(|params|);
    var out := Gather(c, env, block, i, params, path, 0, slots, false).slots;
    forall q | 0 <= q < |params|
      ensures out[q] == Slots(params, path, order, vals)[q]
    {
      GatherFills(c, env, block, i, params, path, 0, slots, false, q);
      LastIs(order, vals, q);
    }
  }

  lemma {:induction false} TermAgrees(c: Context, env: Env, block: seq<Val>, i: nat, t: Term, after: seq<Val>)
    requires i <= |block| && block[i..] == FlatTerm(t) + after
    requires !TermValue(c, env, t, after).Misread?
    ensures i < |block| && Same(TermValue(c, env, t, after), First(c, env, block, i), i + |FlatTerm(t)|)
    decreases t, 0
  {
    hide Next, Call, Block, Finish, Gather, ExprValue, CallValue, AllValue, Params;
    match t
    case Literal(v) => Split(block, i, [v], after);
    case Variable(s) => Split(block, i, [Word(s)], after);
    case Fetch(s) => Split(block, i, [GetWord(s)], after);
    case Quoted(s) => Split(block, i, [LitWord(s)], after);
    case Group(body) =>
      Split(block, i, [Paren(FlatAll(body))], after);
      assert FlatAll(body)[0..] == FlatAll(body);
      AllAgrees(c, env, FlatAll(body), 0, body);
    case Assign(s, value) => AssignAgrees(c, env, block, i, s, value, after);
    case Select(s, refs) => Split(block, i, [Path(s, refs)], after);
    case Invoke(s, path, args) =>
      SplitHead(block, i, if path == [] then Word(s) else Path(s, path), FlatAll(args), after);
      CallAgrees(c, env, block, i, env[s], path, args, after);
    case Direct(fid, args) =>
      SplitHead(block, i, Func(fid), FlatAll(args), after);
      CallAgrees(c, env, block, i, Func(fid), [], args, after);
  }

  lemma {:induction false} AssignAgrees(c: Context, env: Env, block: seq<Val>, i: nat, s: nat, value: Expr,
      after: seq<Val>)
    requires i <= |block| && block[i..] == FlatTerm(Assign(s, value)) + after
    requires !TermValue(c, env, Assign(s, value), after).Misread?
    ensures i < |block| &&
      Same(TermValue(c, env, Assign(s, value), after), First(c, env, block, i), i + |FlatTerm(Assign(s, value))|)
    decreases value, 2
  {
    hide Chain, Call, Block, Finish, Gather, ExprValue, Params;
    SplitHead(block, i, SetWord(s), FlatExpr(value), after);
    if value == Expr(Absent, Stop) && after == [] {
    } else {
      hide Next;
      ExprAgrees(c, env, block, i + 1, value, after);
    }
  }

  lemma {:induction false} ExprAgrees(c: Context, env: Env, block: seq<Val>, i: nat, e: Expr, after: seq<Val>)
    requires i <= |block| && block[i..] == FlatExpr(e) + after
    requires !ExprValue(c, env, e, after).Misread?
    ensures i < |block| && Same(ExprValue(c, env, e, after), Next(c, env, block, i, false), i + |FlatExpr(e)|)
    decreases e, 0
  {
    hide Chain, First, TermValue, ChainValue, FlatTerm, FlatChain;
    var rest := FlatChain(e.chain) + after;
    assert FlatExpr(e) + after == FlatTerm(e.first) + rest;
    TermAgrees(c, env, block, i, e.first, rest);
    var m := TermValue(c, env, e.first, rest);
    if m.Yields? {
      Split(block, i, FlatTerm(e.first), rest);
      ChainAgrees(c, m.env, block, i + |FlatTerm(e.first)|, m.v, e.chain, after);
    }
  }

  lemma {:induction false} ChainAgrees(c: Context, env: Env, block: seq<Val>, i: nat, left: Val, chain: Infixes,
      after: seq<Val>)
    requires 0 < i <= |block| && block[i..] == FlatChain(chain) + after
    requires !ChainValue(c, env, left, chain, after).Misread?
    ensures Same(ChainValue(c, env, left, chain, after), Chain(c, env, block, i, left), i + |FlatChain(chain)|)
    decreases chain, 0, 1
  {
    hide First, Next, Operate, FlatTerm, OperandValue;
    if chain == Stop {
      assert block[i..] == after;
      if i < |block| {
        assert block[i] == after[0];
      }
    } else {
      InfixAgrees(c, env, block, i, left, chain, after);
    }
  }

  lemma {:induction false} InfixAgrees(c: Context, env: Env, block: seq<Val>, i: nat, left: Val, chain: Infixes,
      after: seq<Val>)
    requires 0 < i <= |block| && block[i..] == FlatChain(chain) + after && chain.Infix?
    requires !ChainValue(c, env, left, chain, after).Misread?
    ensures Same(ChainValue(c, env, left, chain, after), Chain(c, env, block, i, left), i + |FlatChain(chain)|)
    decreases chain, 0, 0
  {
    hide First, Next, Operate, FlatTerm, OperandValue, Applied, TypeOk;
    var s, right, rest := chain.sym, chain.right, chain.rest;
    var tail := FlatChain(rest) + after;
    ChainSplit(block, i, chain, after);
    OperateAgrees(c, env, block, i, left, env[s], right, tail);
    hide Same;
    var spec := c.ops(env[s].oid);
    var m := OperandValue(c, env, spec.right.kind, right, tail);
    if m.Yields? && TypeOk(spec.right, m.v) {
      var x := Applied(c, env[s], [left, m.v] + Nones(|spec.rest|), m.env);
      if x.Yields? {
        ChainAgrees(c, x.env, block, i + 1 + |FlatTerm(right)|, x.v, rest, after);
      }
    }
  }

  /** One operator: its slots are the value on its left, its operand, and none for every refinement. */
  lemma {:induction false} OperateAgrees(c: Context, env: Env, block: seq<Val>, i: nat, left: Val, func: Val,
      right: Term, tail: seq<Val>)
    requires i < |block| && func.Op? && block[i + 1..] == FlatTerm(right) + tail
    requires c.ops(func.oid).rest != [] ==> c.ops(func.oid).rest[0].kind == Refine
    requires !OperandValue(c, env, c.ops(func.oid).right.kind, right, tail).Misread?
    ensures var spec := c.ops(func.oid);
      var m := OperandValue(c, env, spec.right.kind, right, tail);
      Same(
        if !m.Yields? then m else if !TypeOk(spec.right, m.v) then Fails(ExpectArg)
        else Applied(c, func, [left, m.v] + Nones(|spec.rest|), m.env),
        Operate(c, env, block, i, func, left), i + 1 + |FlatTerm(right)|)
    decreases right, 2
  {
    hide Argument, FlatTerm, OperandValue;
    var spec := c.ops(func.oid);
    var params := Params(c, func);
    var slots := Nones(|params|)[0 := left];
    var m := OperandValue(c, env, spec.right.kind, right, tail);
    OperandAgrees(c, env, block, i + 1, spec.right, right, tail);
    GatherTwo(c, env, block, i + 1, params, slots);
    if m.Yields? && TypeOk(spec.right, m.v) {
      assert slots[1 := m.v] == [left, m.v] + Nones(|spec.rest|);
    }
  }

  lemma {:induction false} OperandAgrees(c: Context, env: Env, block: seq<Val>, i: nat, p: Param, t: Term,
      after: seq<Val>)
    requires i <= |block| && block[i..] == FlatTerm(t) + after
    requires !OperandValue(c, env, p.kind, t, after).Misread?
    ensures p.kind != Refine &&
      Same(OperandValue(c, env, p.kind, t, after), Argument(c, env, block, i, p, true), i + |FlatTerm(t)|)
    decreases t, 1
  {
    hide First, Chain, TermValue, FlatTerm, Takes;
    TakesAgrees(block, i, p.kind, t, after);
    if Takes(p.kind, t, after).Evaluated? {
      TermAgrees(c, env, block, i, t, after);
    }
  }

  lemma {:induction false} ArgAgrees(c: Context, env: Env, block: seq<Val>, i: nat, p: Param, e: Expr,
      after: seq<Val>)
    requires i <= |block| && block[i..] == FlatExpr(e) + after
    requires !ArgValue(c, env, p.kind, e, after).Misread?
    ensures p.kind != Refine &&
      Same(ArgValue(c, env, p.kind, e, after), Argument(c, env, block, i, p, false), i + |FlatExpr(e)|)
    decreases e, 1
  {
    hide First, Chain, ExprValue, FlatTerm, Takes, Next;
    var rest := FlatChain(e.chain) + after;
    assert FlatExpr(e) + after == FlatTerm(e.first) + rest;
    TakesAgrees(block, i, p.kind, e.first, rest);
    match Takes(p.kind, e.first, rest)
    case Evaluated => ExprAgrees(c, env, block, i, e, after);
    case AsIs(_) =>
    case NotThere => NextEnd(c, env, block);
  }

  /** The frame of a call, argument by argument. */
  lemma {:induction false} CallAgrees(c: Context, env: Env, block: seq<Val>, i: nat, func: Val, path: seq<nat>,
      args: Exprs, after: seq<Val>)
    requires i < |block| && func.Func? && block[i + 1..] == FlatAll(args) + after
    requires !CallValue(c, env, func, path, args, after).Misread?
    ensures Same(CallValue(c, env, func, path, args, after), Call(c, env, block, i, func, path),
      i + 1 + |FlatAll(args)|)
    decreases args, 2
  {
    hide Gather, FlatAll, ArgValues, Order, Known, KnownCount, Params, Slots;
    var params := Params(c, func);
    var n := KnownCount(params, path);
    var order := Order(params, path[..n], 0);
    var slots := Nones(|params|);
    GatherAgrees(c, env, block, i + 1, params, path, 0, slots, args, after);
    match ArgValues(c, env, params, order, args, after)
    case Values(vals, env') =>
      if n == |path| {
        AllKnown(params, path);
        assert path[..n] == path;
        GatherTakes(c, env, block, i + 1, params, path, 0, slots, false);
        SlotsAgree(c, env, block, i + 1, params, path, vals);
      }
    case Failed(e) =>
  }

  /** The walk over the parameters consumes the arguments in the order of the slots, or stops at the first error. */
  lemma {:induction false} GatherAgrees(c: Context, env: Env, block: seq<Val>, i: nat, params: seq<Param>,
      path: seq<nat>, k: nat, slots: seq<Val>, args: Exprs, after: seq<Val>)
    requires k <= |params| == |slots| && i <= |block| && block[i..] == FlatAll(args) + after
    requires !ArgValues(c, env, params, Order(params, path[..KnownCount(params, path)], k), args, after).Mistaken?
    ensures var n := KnownCount(params, path);
      match ArgValues(c, env, params, Order(params, path[..n], k), args, after)
      case Values(vals, env') =>
        && (n == |path| ==>
              TakeAll(c, env, block, i, params, Order(params, path[..n], k), false) ==
                Took(vals, i + |FlatAll(args)|, env'))
        && (n < |path| ==> Gather(c, env, block, i, params, path, k, slots, false) == ArgTrap(NoRefine))
      case Failed(e) => Gather(c, env, block, i, params, path, k, slots, false) == ArgTrap(e)
      case Mistaken => true
    decreases args, 1, |path|, |params| - k
  {
    hide Order, KnownCount, Argument, ArgValue, FlatExpr, FindRef, TypeOk, ArgSlots;
    var n := KnownCount(params, path);
    OrderSteps(params, path[..n], k);
    if k < |params| && params[k].kind != Refine {
      var order := Order(params, path[..n], k);
      assert order[0] == k && order[1..] == Order(params, path[..n], k + 1);
      var head, tail := args.head, args.tail;
      var rest := FlatAll(tail) + after;
      assert FlatAll(args) + after == FlatExpr(head) + rest;
      ArgAgrees(c, env, block, i, params[k], head, rest);
      Split(block, i, FlatExpr(head), rest);
      var m := ArgValue(c, env, params[k].kind, head, rest);
      if m.Yields? && TypeOk(params[k], m.v) {
        GatherAgrees(c, m.env, block, i + |FlatExpr(head)|, params, path, k + 1, slots[k := m.v], tail, after);
      }
    } else if path != [] {
      CountSteps(params, path);
      var h := FindRef(params, path[0], 0);
      if h < |params| {
        GatherAgrees(c, env, block, i, params, path[1..], h + 1, slots[h := Logic(true)], args, after);
      }
    }
  }

  lemma {:induction false} AllAgrees(c: Context, env: Env, block: seq<Val>, i: nat, all: Exprs)
    requires i <= |block| && block[i..] == FlatAll(all)
    requires !AllValue(c, env, all).Misread?
    ensures (all.Cons? ==> i < |block|) && Same(AllValue(c, env, all), Block(c, env, block, i), |block|)
    decreases all, 0
  {
    hide Next, ExprValue, FlatExpr;
    match all
    case Nil =>
    case Cons(head, tail) =>
      assert FlatAll(all) == FlatExpr(head) + FlatAll(tail);
      ExprAgrees(c, env, block, i, head, FlatAll(tail));
      Split(block, i, FlatExpr(head), FlatAll(tail));
      var m := ExprValue(c, env, head, FlatAll(tail));
      if m.Yields? && tail.Cons? {
        AllAgrees(c, m.env, block, i + |FlatExpr(head)|, tail);
      }
  }

  /** Whatever tree a block is laid out from, evaluating the block there gives what the tree yields. */
  lemma {:induction false} NextGives(c: Context, env: Env, block: seq<Val>, i: nat, op: bool)
    requires i <= |block|
    ensures forall e: Expr, after: seq<Val> {:trigger ExprValue(c, env, e, after)} ::
      !op && block[i..] == FlatExpr(e) + after ==>
        Same(ExprValue(c, env, e, after), Next(c, env, block, i, op), i + |FlatExpr(e)|)
    ensures forall t: Term, after: seq<Val> {:trigger TermValue(c, env, t, after)} ::
      op && block[i..] == FlatTerm(t) + after ==>
        Same(TermValue(c, env, t, after), Next(c, env, block, i, op), i + |FlatTerm(t)|)
  {
    hide First, Chain, ExprValue, TermValue, FlatTerm, FlatExpr;
    forall e: Expr, after: seq<Val> {:trigger ExprValue(c, env, e, after)}
      | !op && block[i..] == FlatExpr(e) + after && !ExprValue(c, env, e, after).Misread?
      ensures Same(ExprValue(c, env, e, after), Next(c, env, block, i, op), i + |FlatExpr(e)|)
    {
      ExprAgrees(c, env, block, i, e, after);
    }
    forall t: Term, after: seq<Val> {:trigger TermValue(c, env, t, after)}
      | op && block[i..] == FlatTerm(t) + after && !TermValue(c, env, t, after).Misread?
      ensures Same(TermValue(c, env, t, after), Next(c, env, block, i, op), i + |FlatTerm(t)|)
    {
      TermAgrees(c, env, block, i, t, after);
    }
  }

  lemma {:induction false} BlockGives(c: Context, env: Env, block: seq<Val>, i: nat)
    requires i <= |block|
    ensures forall all: Exprs {:trigger AllValue(c, env, all)} :: block[i..] == FlatAll(all) ==>
      Same(AllValue(c, env, all), Block(c, env, block, i), |block|)
  {
    hide Block, AllValue, FlatAll;
    forall all: Exprs {:trigger AllValue(c, env, all)} | block[i..] == FlatAll(all) && !AllValue(c, env, all).Misread?
      ensures Same(AllValue(c, env, all), Block(c, env, block, i), |block|)
    {
      AllAgrees(c, env, block, i, all);
    }
  }

  // ---- Plain infix chains ----

  /** Literals joined by operator words: v op1 r1 op2 r2 and so on. */
  function Infixed(syms: seq<nat>, rights: seq<Val>): seq<Val>
    requires |syms| == |rights|
  {
    if syms == [] then [] else [Word(syms[0]), rights[0]] + Infixed(syms[1..], rights[1..])
  }

  /** Operators of two evaluated operands. */
  ghost predicate Binary(c: Context, env: Env, s: nat) {
    s in env && env[s].Op? && c.ops(env[s].oid).right.kind == Normal
    && (c.ops(env[s].oid).rest != [] ==> c.ops(env[s].oid).rest[0].kind == Refine)
  }

  ghost predicate AllBinary(c: Context, env: Env, syms: seq<nat>) {
    forall k :: 0 <= k < |syms| ==> Binary(c, env, syms[k])
  }

  /** Values that stand for themselves in a block. */
  ghost predicate AllLiteral(vals: seq<Val>) {
    forall k :: 0 <= k < |vals| ==> vals[k].Lit? || vals[k].Unset? || vals[k].None? || vals[k].Logic?
  }

  /** The left fold of the operators over their operands, up to the first type or native error. */
  ghost function LeftFold(c: Context, env: Env, left: Val, syms: seq<nat>, rights: seq<Val>): Meaning
    requires |syms| == |rights| && AllBinary(c, env, syms)
    decreases |syms|
  {
    if syms == [] then Yields(left, env)
    else
      var spec := c.ops(env[syms[0]].oid);
      if !TypeOk(spec.right, rights[0]) then Fails(ExpectArg)
      else
        match Apply(c, env[syms[0]], [left, rights[0]] + Nones(|spec.rest|))
        case Ret(v) => LeftFold(c, env, v, syms[1..], rights[1..])
        case Fail(code) => Fails(Native(code))
  }

  function ChainOf(syms: seq<nat>, rights: seq<Val>): Infixes
    requires |syms| == |rights|
  {
    if syms == [] then Stop else Infix(syms[0], Literal(rights[0]), ChainOf(syms[1..], rights[1..]))
  }

  lemma {:induction false} FlatChainOf(syms: seq<nat>, rights: seq<Val>)
    requires |syms| == |rights|
    ensures FlatChain(ChainOf(syms, rights)) == Infixed(syms, rights)
    decreases |syms|
  {
    if syms != [] {
      FlatChainOf(syms[1..], rights[1..]);
      assert [Word(syms[0])] + [rights[0]] == [Word(syms[0]), rights[0]];
    }
  }

  lemma {:induction false} ChainFolds(c: Context, env: Env, left: Val, syms: seq<nat>, rights: seq<Val>,
      after: seq<Val>)
    requires |syms| == |rights| && !Continues(env, after) && AllBinary(c, env, syms) && AllLiteral(rights)
    ensures ChainValue(c, env, left, ChainOf(syms, rights), after) == LeftFold(c, env, left, syms, rights)
    decreases |syms|
  {
    if syms != [] {
      var spec := c.ops(env[syms[0]].oid);
      var tail := FlatChain(ChainOf(syms[1..], rights[1..])) + after;
      assert OperandValue(c, env, Normal, Literal(rights[0]), tail) == Yields(rights[0], env);
      hide OperandValue, FlatChain, Nones, TypeOk;
      var x := Apply(c, env[syms[0]], [left, rights[0]] + Nones(|spec.rest|));
      assert Binary(c, env, syms[0]);
      ChainFolds(c, env, if x.Ret? then x.v else left, syms[1..], rights[1..], after);
    }
  }

  lemma {:induction false} FoldsSomehow(c: Context, env: Env, left: Val, syms: seq<nat>, rights: seq<Val>)
    requires |syms| == |rights| && AllBinary(c, env, syms)
    ensures !LeftFold(c, env, left, syms, rights).Misread?
    decreases |syms|
  {
    if syms != [] {
      var spec := c.ops(env[syms[0]].oid);
      var x := Apply(c, env[syms[0]], [left, rights[0]] + Nones(|spec.rest|));
      FoldsSomehow(c, env, if x.Ret? then x.v else left, syms[1..], rights[1..]);
    }
  }

  lemma {:induction false} InfixedLong(syms: seq<nat>, rights: seq<Val>)
    requires |syms| == |rights|
    ensures |Infixed(syms, rights)| == 2 * |syms|
    decreases |syms|
  {
    if syms != [] {
      InfixedLong(syms[1..], rights[1..]);
    }
  }

  /**
   * An operator's operand takes no chain: operators on literals apply from the left, whatever they are, and the
   * expression ends where no operator word follows.
   */
  lemma {:induction false} InfixFoldsLeft(c: Context, env: Env, v: Val, syms: seq<nat>, rights: seq<Val>,
      after: seq<Val>)
    requires |syms| == |rights| && !Continues(env, after) && AllBinary(c, env, syms) && AllLiteral([v] + rights)
    ensures var block := [v] + Infixed(syms, rights) + after;
      Same(LeftFold(c, env, v, syms, rights), Next(c, env, block, 0, false), 1 + 2 * |syms|)
  {
    hide Next, LeftFold, Infixed, ChainValue, FlatChain;
    var e := Expr(Literal(v), ChainOf(syms, rights));
    var block := [v] + Infixed(syms, rights) + after;
    assert ([v] + rights)[0] == v && ([v] + rights)[1..] == rights;
    ChainFolds(c, env, v, syms, rights, after);
    FlatChainOf(syms, rights);
    InfixedLong(syms, rights);
    assert block[0..] == FlatExpr(e) + after;
    FoldsSomehow(c, env, v, syms, rights);
    ExprAgrees(c, env, block, 0, e, after);
  }
}

/** Which slot takes which value when a path names refinements, in whatever order it names them. */
module Refinements {
  import opened EvalSpec

  ghost predicate ArgSlots(params: seq<Param>, s: seq<nat>) {
    forall j {:trigger s[j]} :: 0 <= j < |s| ==> s[j] < |params| && params[s[j]].kind != Refine
  }

  lemma {:induction false} ArgSlotsJoin(params: seq<Param>, s: seq<nat>, t: seq<nat>)
    requires ArgSlots(params, s) && ArgSlots(params, t)
    ensures ArgSlots(params, s + t)
  {
  }

  /** The argument slots from k up to the next refinement. */
  ghost function ArgRun(params: seq<Param>, k: nat): (run: seq<nat>)
    requires k <= |params|
    ensures ArgSlots(params, run)
    decreases |params| - k
  {
    if k < |params| && params[k].kind != Refine then [k] + ArgRun(params, k + 1) else []
  }

  /** The argument slots of refinement r. */
  ghost function RefRun(params: seq<Param>, r: nat): (run: seq<nat>)
    ensures ArgSlots(params, run)
  {
    var h := FindRef(params, r, 0);
    if h == |params| then [] else ArgRun(params, h + 1)
  }

  /** The argument slots of the named refinements, in path order. */
  ghost function PathRuns(params: seq<Param>, path: seq<nat>): (order: seq<nat>)
    ensures ArgSlots(params, order)
  {
    if path == [] then []
    else
      ArgSlotsJoin(params, RefRun(params, path[0]), PathRuns(params, path[1..]));
      RefRun(params, path[0]) + PathRuns(params, path[1..])
  }

  /** The slot order of a path: what is left of the current run, then every named refinement's slots, item by item. */
  ghost function Order(params: seq<Param>, path: seq<nat>, k: nat): (order: seq<nat>)
    requires k <= |params|
    ensures ArgSlots(params, order)
  {
    ArgSlotsJoin(params, ArgRun(params, k), PathRuns(params, path));
    ArgRun(params, k) + PathRuns(params, path)
  }

  /** The values of successive arguments from i on, taken for these slots in turn. */
  datatype Taken = Took(vals: seq<Val>, next: nat, env: Env) | Refused

  ghost function TakeAll(c: Context, env: Env, block: seq<Val>, i: nat, params: seq<Param>, order: seq<nat>,
      op: bool): (t: Taken)
    requires i <= |block| && ArgSlots(params, order)
    ensures t.Took? ==> |t.vals| == |order|
    decreases |order|
  {
    if order == [] then Took([], i, env)
    else
      var one := Argument(c, env, block, i, params[order[0]], op);
      if one.Done? && TypeOk(params[order[0]], one.v) then
        var rest := TakeAll(c, one.env, block, one.next, params, order[1..], op);
        if rest.Took? then Took([one.v] + rest.vals, rest.next, rest.env) else Refused
      else Refused
  }

  ghost predicate Known(params: seq<Param>, path: seq<nat>) {
    forall j :: 0 <= j < |path| ==> FindRef(params, path[j], 0) < |params|
  }

  lemma {:induction false} ArgRunUnfold(params: seq<Param>, k: nat)
    requires k <= |params|
    ensures ArgRun(params, k) == if k < |params| && params[k].kind != Refine then [k] + ArgRun(params, k + 1) else []
  {
  }

  lemma {:induction false} PathRunsUnfold(params: seq<Param>, path: seq<nat>)
    ensures path == [] ==> PathRuns(params, path) == []
    ensures path != [] && FindRef(params, path[0], 0) < |params| ==>
      PathRuns(params, path) == ArgRun(params, FindRef(params, path[0], 0) + 1) + PathRuns(params, path[1..])
  {
    hide ArgSlots, FindRef, ArgRun;
  }

  lemma {:induction false} OrderIs(params: seq<Param>, path: seq<nat>, k: nat)
    requires k <= |params|
    ensures Order(params, path, k) == ArgRun(params, k) + PathRuns(params, path)
  {
  }

  lemma {:induction false} Joins(k: nat, a: seq<nat>, b: seq<nat>)
    ensures ([k] + a) + b == [k] + (a + b) && (([k] + a) + b)[1..] == a + b && [] + b == b
  {
  }

  lemma {:induction false} OrderSteps(params: seq<Param>, path: seq<nat>, k: nat)
    requires k <= |params|
    ensures k < |params| && params[k].kind != Refine ==>
      Order(params, path, k) == [k] + Order(params, path, k + 1) &&
        Order(params, path, k)[1..] == Order(params, path, k + 1)
    ensures (k < |params| ==> params[k].kind == Refine) && path != [] && FindRef(params, path[0], 0) < |params| ==>
      Order(params, path, k) == Order(params, path[1..], FindRef(params, path[0], 0) + 1)
    ensures (k < |params| ==> params[k].kind == Refine) && path == [] ==> Order(params, path, k) == []
  {
    hide ArgSlots, FindRef, ArgRun, RefRun, PathRuns, Order;
    OrderIs(params, path, k);
    ArgRunUnfold(params, k);
    PathRunsUnfold(params, path);
    if k < |params| && params[k].kind != Refine {
      OrderIs(params, path, k + 1);
      Joins(k, ArgRun(params, k + 1), PathRuns(params, path));
    } else if path == [] {
      Joins(k, [], []);
    } else if FindRef(params, path[0], 0) < |params| {
      OrderIs(params, path[1..], FindRef(params, path[0], 0) + 1);
      Joins(k, [], PathRuns(params, path));
    }
  }

  lemma {:induction false} KnownSteps(params: seq<Param>, path: seq<nat>)
    requires path != []
    ensures Known(params, path) <==> FindRef(params, path[0], 0) < |params| && Known(params, path[1..])
  {
    forall j | 0 <= j < |path| - 1
      ensures path[1..][j] == path[j + 1]
    {
    }
    if FindRef(params, path[0], 0) < |params| && Known(params, path[1..]) {
      forall j | 0 <= j < |path|
        ensures FindRef(params, path[j], 0) < |params|
      {
        assert j > 0 ==> path[j] == path[1..][j - 1];
      }
    }
  }

  lemma NoneUnknown(params: seq<Param>)
    ensures Known(params, [])
  {
  }

  /**
   * The walk with all its jumps is this: it succeeds exactly when every name of the path is a refinement and the
   * slots in their order all get a value of their type, and it has then consumed just those values.
   */
  lemma {:induction false} GatherTakes(c: Context, env: Env, block: seq<Val>, i: nat, params: seq<Param>,
      path: seq<nat>, k: nat, slots: seq<Val>, op: bool)
    requires k <= |params| == |slots| && i <= |block|
    ensures var a, t := Gather(c, env, block, i, params, path, k, slots, op),
      TakeAll(c, env, block, i, params, Order(params, path, k), op);
      && (a.Filled? <==> t.Took? && Known(params, path))
      && (a.Filled? ==> a.next == t.next && a.env == t.env)
    decreases block, |block| - i, |path|, |params| - k
  {
    hide Order, Known, Argument, TypeOk;
    OrderSteps(params, path, k);
    if k < |params| && params[k].kind != Refine {
      var one := Argument(c, env, block, i, params[k], op);
      if one.Done? && TypeOk(params[k], one.v) {
        GatherTakes(c, one.env, block, one.next, params, path, k + 1, slots[k := one.v], op);
      }
    } else if path != [] {
      var h := FindRef(params, path[0], 0);
      KnownSteps(params, path);
      if h < |params| {
        GatherTakes(c, env, block, i, params, path[1..], h + 1, slots[h := Logic(true)], op);
      }
    } else {
      NoneUnknown(params);
    }
  }

  /** Slot q is last taken at place j of the order. */
  ghost predicate LastAt(order: seq<nat>, q: nat, j: nat) {
    j < |order| && order[j] == q && q !in order[j + 1..]
  }

  ghost predicate Named(params: seq<Param>, path: seq<nat>, q: nat) {
    exists j :: 0 <= j < |path| && FindRef(params, path[j], 0) == q
  }

  lemma {:induction false} NamedSteps(params: seq<Param>, path: seq<nat>, q: nat)
    requires path != []
    ensures Named(params, path, q) <==> FindRef(params, path[0], 0) == q || Named(params, path[1..], q)
  {
    if Named(params, path, q) {
      var j :| 0 <= j < |path| && FindRef(params, path[j], 0) == q;
      assert j > 0 ==> path[1..][j - 1] == path[j];
    }
    if Named(params, path[1..], q) {
      var j :| 0 <= j < |path| - 1 && FindRef(params, path[1..][j], 0) == q;
      assert path[j + 1] == path[1..][j];
    }
  }

  lemma {:induction false} LastSteps(order: seq<nat>, q: nat)
    requires order != []
    ensures forall j: nat {:trigger LastAt(order, q, j)} :: LastAt(order, q, j) ==>
      if j == 0 then order[0] == q && q !in order[1..] else LastAt(order[1..], q, j - 1)
  {
    forall j: nat | LastAt(order, q, j) && j > 0
      ensures LastAt(order[1..], q, j - 1)
    {
      assert order[j + 1..] == order[1..][j..];
    }
  }

  lemma NothingLast(params: seq<Param>, q: nat)
    ensures !Named(params, [], q) && forall j: nat {:trigger LastAt([], q, j)} :: !LastAt([], q, j)
  {
  }

  /**
   * The slot at place j of the order holds the value consumed j-th; refinements named are true; every other slot
   * keeps what it held.
   */
  lemma {:induction false} GatherFills(c: Context, env: Env, block: seq<Val>, i: nat, params: seq<Param>,
      path: seq<nat>, k: nat, slots: seq<Val>, op: bool, q: nat)
    requires k <= |params| == |slots| && i <= |block| && q < |params|
    requires Gather(c, env, block, i, params, path, k, slots, op).Filled?
    ensures var out := Gather(c, env, block, i, params, path, k, slots, op).slots;
      var order := Order(params, path, k);
      var t := TakeAll(c, env, block, i, params, order, op);
      && t.Took? && (forall j: nat {:trigger LastAt(order, q, j)} :: LastAt(order, q, j) ==> out[q] == t.vals[j])
      && (params[q].kind == Refine ==> out[q] == if Named(params, path, q) then Logic(true) else slots[q])
      && (params[q].kind != Refine && q !in order ==> out[q] == slots[q])
    decreases block, |block| - i, |path|, |params| - k
  {
    hide Order, Known, Argument, TypeOk, Named, LastAt;
    GatherTakes(c, env, block, i, params, path, k, slots, op);
    OrderSteps(params, path, k);
    if k < |params| && params[k].kind != Refine {
      var one := Argument(c, env, block, i, params[k], op);
      LastSteps(Order(params, path, k), q);
      GatherFills(c, one.env, block, one.next, params, path, k + 1, slots[k := one.v], op, q);
    } else if path != [] {
      var h := FindRef(params, path[0], 0);
      NamedSteps(params, path, q);
      GatherFills(c, env, block, i, params, path[1..], h + 1, slots[h := Logic(true)], op, q);
    } else {
      NothingLast(params, q);
    }
  }

  /** Slot q when the walk from parameter k is through. */
  ghost predicate FilledAt(c: Context, env: Env, block: seq<Val>, i: nat, params: seq<Param>, path: seq<nat>, k: nat,
      slots: seq<Val>, op: bool, out: seq<Val>, q: nat)
    requires k <= |params| == |slots| == |out| && i <= |block| && q < |params|
  {
    var order := Order(params, path, k);
    var t := TakeAll(c, env, block, i, params, order, op);
    && t.Took? && (forall j: nat {:trigger LastAt(order, q, j)} :: LastAt(order, q, j) ==> out[q] == t.vals[j])
    && (params[q].kind == Refine ==> out[q] == if Named(params, path, q) then Logic(true) else slots[q])
    && (params[q].kind != Refine && q !in order ==> out[q] == slots[q])
  }

  /**
   * The value consumed j-th at place j of the order, true for the refinements named, elsewhere what was there before.
   */
  ghost predicate FilledSlots(c: Context, env: Env, block: seq<Val>, i: nat, params: seq<Param>, path: seq<nat>, k: nat,
      slots: seq<Val>, op: bool, out: seq<Val>)
    requires k <= |params| == |slots| && i <= |block|
  {
    |out| == |params| &&
    forall q :: 0 <= q < |params| ==> FilledAt(c, env, block, i, params, path, k, slots, op, out, q)
  }

  lemma {:induction false} GatherFilled(c: Context, env: Env, block: seq<Val>, i: nat, params: seq<Param>,
      path: seq<nat>, k: nat, slots: seq<Val>, op: bool)
    requires k <= |params| == |slots| && i <= |block|
    ensures var a := Gather(c, env, block, i, params, path, k, slots, op);
      a.Filled? ==> FilledSlots(c, env, block, i, params, path, k, slots, op, a.slots)
  {
    hide Gather, TakeAll, Order, Named;
    var a := Gather(c, env, block, i, params, path, k, slots, op);
    if a.Filled? {
      forall q | 0 <= q < |params|
        ensures FilledAt(c, env, block, i, params, path, k, slots, op, a.slots, q)
      {
        GatherFills(c, env, block, i, params, path, k, slots, op, q);
      }
    }
  }

  // ---- Distinct names ----

  ghost predicate Distinct(s: seq<nat>) {
    forall i, j :: 0 <= i < j < |s| ==> s[i] != s[j]
  }

  /** From parameter k the walk reaches parameter q without meeting a refinement. */
  ghost predicate Reach(params: seq<Param>, k: nat, q: nat) {
    k <= q < |params| && forall i {:trigger params[i]} :: k <= i <= q ==> params[i].kind != Refine
  }

  lemma {:induction false} ArgRunHolds(params: seq<Param>, k: nat, q: nat)
    requires k <= |params|
    ensures q in ArgRun(params, k) <==> Reach(params, k, q)
    decreases |params| - k
  {
    hide ArgSlots;
    if k < |params| && params[k].kind != Refine {
      ArgRunHolds(params, k + 1, q);
    }
  }

  lemma {:induction false} DistinctJoin(s: seq<nat>, t: seq<nat>)
    requires Distinct(s) && Distinct(t) && forall q :: q in t ==> q !in s
    ensures Distinct(s + t)
  {
    forall i, j | 0 <= i < j < |s + t|
      ensures (s + t)[i] != (s + t)[j]
    {
      if i < |s| <= j {
        assert t[j - |s|] in t && s[i] in s;
      }
    }
  }

  lemma {:induction false} ArgRunDistinct(params: seq<Param>, k: nat)
    requires k <= |params|
    ensures Distinct(ArgRun(params, k))
    decreases |params| - k
  {
    hide ArgSlots;
    if k < |params| && params[k].kind != Refine {
      ArgRunDistinct(params, k + 1);
      ArgRunHolds(params, k + 1, k);
      DistinctJoin([k], ArgRun(params, k + 1));
    }
  }

  lemma {:induction false} RefRunHolds(params: seq<Param>, r: nat, q: nat)
    ensures var h := FindRef(params, r, 0);
      q in RefRun(params, r) <==> h < |params| && Reach(params, h + 1, q)
    ensures var h := FindRef(params, r, 0);
      h < |params| ==> params[h].kind == Refine && params[h].sym == r
  {
    hide ArgRun, ArgSlots, Reach;
    var h := FindRef(params, r, 0);
    if h < |params| {
      ArgRunHolds(params, h + 1, q);
    }
  }

  /** The item of the path whose run holds slot q. */
  lemma {:induction false} RunOf(params: seq<Param>, path: seq<nat>, q: nat) returns (l: nat)
    requires q in PathRuns(params, path)
    ensures l < |path| && q in RefRun(params, path[l])
  {
    hide ArgSlots, RefRun;
    if q in RefRun(params, path[0]) {
      l := 0;
    } else {
      var l' := RunOf(params, path[1..], q);
      l := l' + 1;
    }
  }

  lemma DistinctNil()
    ensures Distinct([])
  {
  }

  lemma {:induction false} DistinctTail(s: seq<nat>)
    requires Distinct(s) && s != []
    ensures Distinct(s[1..]) && forall j :: 0 <= j < |s| - 1 ==> s[1..][j] != s[0]
  {
  }

  lemma {:induction false} RefRunDistinct(params: seq<Param>, r: nat)
    ensures Distinct(RefRun(params, r))
  {
    hide Distinct, ArgRun, ArgSlots;
    DistinctNil();
    var h := FindRef(params, r, 0);
    if h < |params| {
      ArgRunDistinct(params, h + 1);
    }
  }

  lemma {:induction false} RunsApart(params: seq<Param>, r: nat, r': nat, q: nat)
    requires r != r' && q in RefRun(params, r')
    ensures q !in RefRun(params, r)
  {
    hide RefRun, FindRef;
    RefRunHolds(params, r, q);
    RefRunHolds(params, r', q);
  }

  lemma {:induction false} RunsDistinct(params: seq<Param>, path: seq<nat>)
    requires Distinct(path)
    ensures Distinct(PathRuns(params, path))
  {
    if path != [] {
      DistinctTail(path);
      hide ArgSlots, RefRun, Distinct;
      RunsDistinct(params, path[1..]);
      RefRunDistinct(params, path[0]);
      forall q | q in PathRuns(params, path[1..])
        ensures q !in RefRun(params, path[0])
      {
        var l := RunOf(params, path[1..], q);
        RunsApart(params, path[0], path[1..][l], q);
      }
      DistinctJoin(RefRun(params, path[0]), PathRuns(params, path[1..]));
    } else {
      DistinctNil();
    }
  }

  /** With distinct names no slot is taken twice. */
  lemma {:induction false} OrderDistinct(params: seq<Param>, path: seq<nat>)
    requires Distinct(path)
    ensures Distinct(Order(params, path, 0))
  {
    hide Distinct, ArgSlots, ArgRun, PathRuns, RefRun, FindRef;
    ArgRunDistinct(params, 0);
    RunsDistinct(params, path);
    forall q | q in PathRuns(params, path)
      ensures q !in ArgRun(params, 0)
    {
      var l := RunOf(params, path, q);
      ArgRunHolds(params, 0, q);
      RefRunHolds(params, path[l], q);
    }
    DistinctJoin(ArgRun(params, 0), PathRuns(params, path));
  }

  /** Distinct slots are at most as many as there are parameters. */
  lemma {:induction false} DistinctFew(s: seq<nat>, n: nat)
    requires Distinct(s) && forall j :: 0 <= j < |s| ==> s[j] < n
    ensures |s| <= n
  {
    if s != [] {
      assert s[0] < n;
      if n - 1 in s {
        var j :| 0 <= j < |s| && s[j] == n - 1;
        DistinctFew(s[..j] + s[j + 1..], n - 1);
      } else {
        DistinctFew(s, n - 1);
      }
    }
  }

  lemma {:induction false} LastOnly(order: seq<nat>, j: nat)
    requires Distinct(order) && j < |order|
    ensures LastAt(order, order[j], j)
  {
  }

  /** Every item of the path is used exactly once, at its place: its slots follow those of the items before it. */
  lemma {:induction false} ItemOnce(params: seq<Param>, path: seq<nat>, l: nat)
    requires l < |path|
    ensures PathRuns(params, path) ==
      PathRuns(params, path[..l]) + RefRun(params, path[l]) + PathRuns(params, path[l + 1..])
    decreases l
  {
    hide ArgSlots, RefRun;
    if l == 0 {
      assert path[..0] == [];
    } else {
      ItemOnce(params, path[1..], l - 1);
      assert path[1..][..l - 1] == path[..l][1..] && path[1..][l..] == path[l + 1..] && path[..l][0] == path[0];
    }
  }

  // ---- The order of the names ----

  lemma {:induction false} SameSlots(params: seq<Param>, p: seq<nat>, p': seq<nat>, q: nat)
    requires forall r :: r in p ==> r in p'
    ensures q in Order(params, p, 0) ==> q in Order(params, p', 0)
    ensures Named(params, p, q) ==> Named(params, p', q)
  {
    hide ArgSlots, FindRef, ArgRun, RefRun, PathRuns;
    if q in PathRuns(params, p) {
      var l := RunOf(params, p, q);
      assert p[l] in p';
      var l' :| 0 <= l' < |p'| && p'[l'] == p[l];
      ItemOnce(params, p', l');
    }
    if Named(params, p, q) {
      var j :| 0 <= j < |p| && FindRef(params, p[j], 0) == q;
      assert p[j] in p';
      var l :| 0 <= l < |p'| && p'[l] == p[j];
    }
  }

  /**
   * Two paths naming the same refinements, each once, fill the same slots: the same ones are true, the same ones
   * stay none, and a slot that takes an argument holds, in either, the value consumed when its turn comes there.
   */
  lemma {:induction false} OrderIrrelevant(c: Context, env: Env, block: seq<Val>, env': Env, block': seq<Val>, i: nat,
      i': nat, params: seq<Param>, p: seq<nat>, p': seq<nat>, q: nat)
    requires i <= |block| && i' <= |block'| && q < |params|
    requires Distinct(p) && Distinct(p') && forall r :: r in p <==> r in p'
    requires Gather(c, env, block, i, params, p, 0, Nones(|params|), false).Filled?
    requires Gather(c, env', block', i', params, p', 0, Nones(|params|), false).Filled?
    ensures var out := Gather(c, env, block, i, params, p, 0, Nones(|params|), false).slots;
      var out' := Gather(c, env', block', i', params, p', 0, Nones(|params|), false).slots;
      var order, order' := Order(params, p, 0), Order(params, p', 0);
      var t, t' := TakeAll(c, env, block, i, params, order, false), TakeAll(c, env', block', i', params, order', false);
      && (params[q].kind == Refine ==> out[q] == out'[q] == if Named(params, p, q) then Logic(true) else None)
      && t.Took? && t'.Took? && (q in order <==> q in order')
      && (params[q].kind != Refine && q !in order ==> out[q] == None && out'[q] == None)
      && (forall j, j' :: 0 <= j < |order| && 0 <= j' < |order'| && order[j] == q && order'[j'] == q ==>
            out[q] == t.vals[j] && out'[q] == t'.vals[j'])
  {
    GatherFills(c, env, block, i, params, p, 0, Nones(|params|), false, q);
    GatherFills(c, env', block', i', params, p', 0, Nones(|params|), false, q);
    hide Gather, TakeAll, Order, LastAt, Named, Distinct;
    OrderDistinct(params, p);
    OrderDistinct(params, p');
    SameSlots(params, p, p', q);
    SameSlots(params, p', p, q);
    var order, order' := Order(params, p, 0), Order(params, p', 0);
    forall j | 0 <= j < |order| && order[j] == q
      ensures LastAt(order, q, j)
    {
      LastOnly(order, j);
    }
    forall j | 0 <= j < |order'| && order'[j] == q
      ensures LastAt(order', q, j)
    {
      LastOnly(order', j);
    }
  }
}

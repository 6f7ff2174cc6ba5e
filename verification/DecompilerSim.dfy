/** How trees relate to the stack code they are built from. */
module DecompilerSim {
  import opened Util
  import opened Wasm
  import opened DecompilerTree
  import opened DecompilerListing

  // ----- arities (src/ir-util.cc, ModuleContext::GetExprArity) -----

  datatype Arities = Arities(nargs: nat, nreturns: nat, unreachable: bool)

  function LabelArity(labels: seq<LabelInfo>, x: Var): nat {
    match Depth(LabelNames(labels), x)
    case None => 0
    case Some(d) => labels[|labels| - 1 - d].arity
  }

  function SigOf(m: Module, x: Var): FuncSig {
    match Resolve(FuncNames(m), x) case None => FuncSig([], []) case Some(i) => m.funcs[i].sig
  }

  function ArityOf(m: Module, f: Func, labels: seq<LabelInfo>, e: Expr): Arities {
    match e
    case Const(_, _) => Arities(0, 1, false)
    case LocalGet(_) => Arities(0, 1, false)
    case GlobalGet(_) => Arities(0, 1, false)
    case MemorySize => Arities(0, 1, false)
    case Op1Expr(_) => Arities(1, 1, false)
    case Load(_) => Arities(1, 1, false)
    case LocalTee(_) => Arities(1, 1, false)
    case MemoryGrow => Arities(1, 1, false)
    case Op2Expr(_) => Arities(2, 1, false)
    case Store(_) => Arities(2, 0, false)
    case Drop => Arities(1, 0, false)
    case GlobalSet(_) => Arities(1, 0, false)
    case LocalSet(_) => Arities(1, 0, false)
    case Nop => Arities(0, 0, false)
    case Select => Arities(3, 1, false)
    case Call(x) => Arities(|SigOf(m, x).params|, |SigOf(m, x).results|, false)
    case CallIndirect(sig) => Arities(|sig.params| + 1, |sig.results|, false)
    case Block(_, results, _) => Arities(0, |results|, false)
    case Loop(_, results, _) => Arities(0, |results|, false)
    case If(_, results, _, _) => Arities(1, |results|, false)
    case Br(x) => Arities(LabelArity(labels, x), 1, true)
    case BrIf(x) => Arities(LabelArity(labels, x) + 1, LabelArity(labels, x), false)
    case BrTable(_, x) => Arities(LabelArity(labels, x) + 1, 1, true)
    case Return => Arities(|f.sig.results|, 1, true)
    case Unreachable => Arities(0, 1, true)
  }

  predicate IsFlat(e: Expr) { !e.Block? && !e.Loop? && !e.If? }

  /** `br` and `br_if` carry no values, as their nodes do not take any; the targets of a `br_table`,
      whose node does, all take as many. */
  predicate CarriesRight(labels: seq<LabelInfo>, e: Expr) {
    match e
    case Br(x) => LabelArity(labels, x) == 0
    case BrIf(x) => LabelArity(labels, x) == 0
    case BrTable(xs, d) => forall i | 0 <= i < |xs| :: LabelArity(labels, xs[i]) == LabelArity(labels, d)
    case _ => true
  }

  /** The bodies the trees are right for: operand counts as validation demands, also in code that is
      not reached, and branches that carry what their nodes take. */
  predicate Fits(m: Module, f: Func, labels: seq<LabelInfo>, e: Expr)
    decreases e
  {
    match e
    case Block(name, results, body) => FitsList(m, f, labels + [LabelInfo(name, |results|)], 0, body, |results|)
    case Loop(name, results, body) => FitsList(m, f, labels + [LabelInfo(name, 0)], 0, body, |results|)
    case If(name, results, then_, else_) =>
      var inner := labels + [LabelInfo(name, |results|)];
      && FitsList(m, f, inner, 0, then_, |results|)
      && FitsList(m, f, inner, 0, else_, |results|)
    case _ => CarriesRight(labels, e)
  }

  /** `height` operands of the list's own are on the stack; `results` must be left. */
  predicate FitsList(m: Module, f: Func, labels: seq<LabelInfo>, height: nat, es: ExprList, results: nat)
    decreases es
  {
    match es
    case Nil => height == results
    case Cons(e, rest) =>
      var a := ArityOf(m, f, labels, e);
      && a.nargs <= height && Fits(m, f, labels, e)
      && if a.unreachable then FitsDead(m, f, labels, height - a.nargs + a.nreturns, rest)
         else FitsList(m, f, labels, height - a.nargs + a.nreturns, rest, results)
  }

  /** Behind an unconditional branch, which counts as one operand, nothing need be left. */
  predicate FitsDead(m: Module, f: Func, labels: seq<LabelInfo>, height: nat, es: ExprList)
    decreases es
  {
    match es
    case Nil => true
    case Cons(e, rest) =>
      var a := ArityOf(m, f, labels, e);
      a.nargs <= height && Fits(m, f, labels, e) && FitsDead(m, f, labels, height - a.nargs + a.nreturns, rest)
  }

  /** The end of the list cannot be reached. */
  predicate Stops(m: Module, f: Func, labels: seq<LabelInfo>, es: ExprList)
    decreases es
  {
    es.Cons? && (ArityOf(m, f, labels, es.head).unreachable || Stops(m, f, labels, es.tail))
  }

  // ----- the same ending on both sides -----

  function Exec(x: Place, es: ExprList, st: State): Result { ExecList(x.sem, x.m, x.f, x.labels, es, st) }

  function Run(x: Place, e: Expr, st: State): Result { ExecExpr(x.sem, x.m, x.f, x.labels, e, st) }

  ghost predicate SameStore(st: State, ts: TState) {
    st.locals == ts.locals && st.world == ts.world && st.fuel == ts.fuel
  }

  /** A run of the stack machine and an evaluation end in the same way, before their end is reached. */
  ghost predicate Ends(x: Place, r: Result, t: TResult) {
    && r.out == t.out && SameStore(r.st, t.ts) && !r.out.Normal?
    && (r.out.Branch? ==>
          && r.out.depth < |x.labels| && |t.vals| == x.labels[|x.labels| - 1 - r.out.depth].arity
          && |t.vals| <= |r.st.stack| && LastN(r.st.stack, |t.vals|) == t.vals)
  }

  /** `t` leaves `k` values where the stack machine leaves them above `base`. */
  ghost predicate Leaves(x: Place, base: seq<nat>, k: nat, exact: bool, r: Result, t: TResult) {
    if t.out.Normal?
    then |t.vals| >= k && (exact ==> |t.vals| == k) && r == Result(Normal, t.ts.Machine(base + LastN(t.vals, k)))
    else Ends(x, r, t)
  }

  /** The outermost label is that of the function. */
  predicate Proper(f: Func, labels: seq<LabelInfo>) {
    labels != [] && labels[0].arity == |f.sig.results|
  }

  // ----- instructions without nested lists -----

  /** `Leaves` for exactly `k` values. */
  ghost predicate LeavesAll(x: Place, base: seq<nat>, k: nat, r: Result, t: TResult) {
    if t.out.Normal? then |t.vals| == k && r == Result(Normal, t.ts.Machine(base + t.vals)) else Ends(x, r, t)
  }

  lemma AllLeft(x: Place, base: seq<nat>, k: nat, r: Result, t: TResult)
    requires LeavesAll(x, base, k, r, t)
    ensures Leaves(x, base, k, true, r, t)
  {}

  /** What lies below the operands of an instruction does not matter and stays. */
  ghost predicate Framed(x: Place, e: Expr, base: seq<nat>, vals: seq<nat>, ts: TState) {
    LeavesAll(x, base, ArityOf(x.m, x.f, x.labels, e).nreturns, Run(x, e, ts.Machine(base + vals)), Op(x, e, vals, ts))
  }

  /** A step needs only its operands. */
  lemma FrameStep(x: Place, e: Expr, base: seq<nat>, vals: seq<nat>, ts: TState)
    requires IsSimple(e) && |vals| == ArityOf(x.m, x.f, x.labels, e).nargs
    ensures Framed(x, e, base, vals, ts)
  {
    hide Framed, Step;
    match e
    case LocalSet(_) => FrameSetters(x, e, base, vals, ts);
    case LocalTee(_) => FrameSetters(x, e, base, vals, ts);
    case GlobalSet(_) => FrameSetters(x, e, base, vals, ts);
    case Op1Expr(_) => FrameOperators(x, e, base, vals, ts);
    case Op2Expr(_) => FrameOperators(x, e, base, vals, ts);
    case Load(_) => FrameOperators(x, e, base, vals, ts);
    case Store(_) => FrameOperators(x, e, base, vals, ts);
    case MemoryGrow => FrameOperators(x, e, base, vals, ts);
    case Drop => FrameOperators(x, e, base, vals, ts);
    case Select => FrameSelect(x, e, base, vals, ts);
    case _ => FrameConstants(x, e, base, vals, ts);
  }

  lemma SimpleRun(x: Place, e: Expr, st: State)
    requires IsSimple(e)
    ensures Run(x, e, st) == Step(x.sem, x.m, x.f, e, st)
  {
    hide Step;
  }

  lemma FrameConstants(x: Place, e: Expr, base: seq<nat>, vals: seq<nat>, ts: TState)
    requires e.Const? || e.LocalGet? || e.GlobalGet? || e.MemorySize? || e.Nop? || e.Unreachable?
    requires vals == []
    ensures Framed(x, e, base, vals, ts)
  {
    hide Resolve, ExecExpr, LastN;
    assert base + [] == base;
    SimpleRun(x, e, ts.Machine(base + vals));
    SimpleRun(x, e, ts.Machine(vals));
  }

  lemma FrameSetters(x: Place, e: Expr, base: seq<nat>, vals: seq<nat>, ts: TState)
    requires (e.LocalSet? || e.LocalTee? || e.GlobalSet?) && |vals| == 1
    ensures Framed(x, e, base, vals, ts)
  {
    hide Resolve, ExecExpr, LastN;
    var st, st0 := ts.Machine(base + vals), ts.Machine(vals);
    assert Top(st, 0) == Top(st0, 0) && st.stack[..|st.stack| - 1] == base && st0.stack[..0] == [];
    SimpleRun(x, e, ts.Machine(base + vals));
    SimpleRun(x, e, ts.Machine(vals));
  }

  lemma FrameOperators(x: Place, e: Expr, base: seq<nat>, vals: seq<nat>, ts: TState)
    requires e.Op1Expr? || e.Op2Expr? || e.Load? || e.Store? || e.MemoryGrow? || e.Drop?
    requires |vals| == ArityOf(x.m, x.f, x.labels, e).nargs
    ensures Framed(x, e, base, vals, ts)
  {
    hide ExecExpr, LastN;
    var st, st0 := ts.Machine(base + vals), ts.Machine(vals);
    var n := |vals|;
    assert st.stack[..|st.stack| - n] == base && st0.stack[..n - n] == [];
    assert Top(st, 0) == Top(st0, 0);
    if n > 1 { assert Top(st, 1) == Top(st0, 1); }
    SimpleRun(x, e, ts.Machine(base + vals));
    SimpleRun(x, e, ts.Machine(vals));
  }

  lemma FrameSelect(x: Place, e: Expr, base: seq<nat>, vals: seq<nat>, ts: TState)
    requires e.Select? && |vals| == 3
    ensures Framed(x, e, base, vals, ts)
  {
    hide ExecExpr, LastN;
    var st, st0 := ts.Machine(base + vals), ts.Machine(vals);
    assert st.stack[..|st.stack| - 3] == base && st0.stack[..0] == [];
    assert Top(st, 0) == Top(st0, 0) && Top(st, 1) == Top(st0, 1) && Top(st, 2) == Top(st0, 2);
    SimpleRun(x, e, ts.Machine(base + vals));
    SimpleRun(x, e, ts.Machine(vals));
  }

  lemma FrameJump(x: Place, e: Expr, base: seq<nat>, vals: seq<nat>, ts: TState)
    requires e.Br? || e.BrIf? || e.BrTable? || e.Return?
    requires Proper(x.f, x.labels) && CarriesRight(x.labels, e) && |vals| == ArityOf(x.m, x.f, x.labels, e).nargs
    ensures Framed(x, e, base, vals, ts)
  {
    hide Depth, LeavesAll;
    var st, st0 := ts.Machine(base + vals), ts.Machine(vals);
    if e.Return? {
      ReturnFramed(x, base, vals, ts);
    } else if e.Br? {
      JumpFramed(x, e.x, 1, base, vals, ts);
    } else {
      var n := |vals| - 1;
      var carried := vals[..n];
      assert Top(st, 0) == Top(st0, 0) == vals[n];
      assert DropN(st, 1) == ts.Machine(base + carried) && DropN(st0, 1) == ts.Machine(carried) by {
        assert st.stack[..|st.stack| - 1] == base + carried && st0.stack[..n] == carried;
      }
      if e.BrTable? {
        JumpFramed(x, if vals[n] < |e.targets| then e.targets[vals[n]] else e.default_, 1, base, carried, ts);
      } else {
        JumpFramed(x, e.x, 0, base, carried, ts);
        NothingLeft(x, base, ts);
        assert base + [] == base;
      }
    }
  }

  lemma NothingLeft(x: Place, base: seq<nat>, ts: TState)
    ensures LeavesAll(x, base, 0, Result(Normal, ts.Machine(base)), TResult(Normal, [], ts))
  {
    assert base + [] == base;
  }

  lemma ReturnFramed(x: Place, base: seq<nat>, vals: seq<nat>, ts: TState)
    requires Proper(x.f, x.labels) && |vals| == |x.f.sig.results|
    ensures LeavesAll(x, base, 1, Run(x, Return, ts.Machine(base + vals)), Op(x, Return, vals, ts))
  {}

  /** A branch to a label that takes `vals`. */
  lemma JumpFramed(x: Place, v: Var, k: nat, base: seq<nat>, vals: seq<nat>, ts: TState)
    requires LabelArity(x.labels, v) == |vals|
    ensures var r := BranchTo(x.labels, v, ts.Machine(vals));
            LeavesAll(x, base, k, BranchTo(x.labels, v, ts.Machine(base + vals)),
              TResult(r.out, r.st.stack, ts.Back(r.st)))
  {
    hide Depth;
  }

  /** The nodes of `br` and `br_if` do not take the values that the branch carries, and so do what it
      does if and only if it carries none. */
  lemma CarriedLost(x: Place, v: Var, vals: seq<nat>, c: nat, ts: TState)
    requires Depth(LabelNames(x.labels), v).Some? && |vals| == LabelArity(x.labels, v) && c != 0
    ensures Ends(x, Run(x, Br(v), ts.Machine(vals)), Op(x, Br(v), [], ts)) <==> vals == []
    ensures Ends(x, Run(x, BrIf(v), ts.Machine(vals + [c])), Op(x, BrIf(v), [c], ts)) <==> vals == []
  {
    hide Depth;
    assert (vals + [c])[..|vals|] == vals && [c][..0] == [];
  }

  lemma ResultCount(sem: Sem, m: Module, i: nat, args: seq<nat>, world: World, fuel: nat)
    requires i < |m.funcs|
    ensures var r := RunFunc(sem, m, i, args, world, fuel);
            !r.out.Branch? && (r.out.Normal? ==> |r.results| == |m.funcs[i].sig.results|)
  {
    hide ExecList;
  }

  lemma FrameDoCall(x: Place, i: nat, base: seq<nat>, vals: seq<nat>, ts: TState)
    requires i < |x.m.funcs| && |vals| == |x.m.funcs[i].sig.params|
    ensures var r0 := DoCall(x.sem, x.m, i, ts.Machine(vals));
            LeavesAll(x, base, |x.m.funcs[i].sig.results|, DoCall(x.sem, x.m, i, ts.Machine(base + vals)),
                      TResult(r0.out, r0.st.stack, ts.Back(r0.st)))
  {
    hide RunFunc, LastN;
    var st, st0 := ts.Machine(base + vals), ts.Machine(vals);
    var n := |vals|;
    assert st.stack[|st.stack| - n..] == vals && st.stack[..|st.stack| - n] == base;
    assert st0.stack[|st0.stack| - n..] == vals && st0.stack[..|st0.stack| - n] == [];
    if !x.m.funcs[i].imported && ts.fuel > 0 {
      ResultCount(x.sem, x.m, i, vals, ts.world, ts.fuel - 1);
    }
  }

  lemma FrameCall(x: Place, e: Expr, base: seq<nat>, vals: seq<nat>, ts: TState)
    requires (e.Call? || e.CallIndirect?) && |vals| == ArityOf(x.m, x.f, x.labels, e).nargs
    ensures Framed(x, e, base, vals, ts)
  {
    hide Resolve, DoCall;
    if e.Call? {
      var i := Resolve(FuncNames(x.m), e.x);
      if i.Some? { FrameDoCall(x, i.value, base, vals, ts); }
    } else {
      var st, st0 := ts.Machine(base + vals), ts.Machine(vals);
      var n := |vals| - 1;
      assert Top(st, 0) == Top(st0, 0);
      assert st.stack[..|st.stack| - 1] == base + vals[..n] && st0.stack[..|st0.stack| - 1] == vals[..n];
      var i := x.sem.table(Top(st, 0));
      if i.Some? && i.value < |x.m.funcs| && x.m.funcs[i.value].sig == e.sig {
        FrameDoCall(x, i.value, base, vals[..n], ts);
        assert DropN(st, 1) == ts.Machine(base + vals[..n]) && DropN(st0, 1) == ts.Machine(vals[..n]);
      }
    }
  }

  /** What lies below the operands of an instruction does not matter, and it leaves exactly as many
      values as its arity says. */
  lemma Frame(x: Place, e: Expr, base: seq<nat>, vals: seq<nat>, ts: TState)
    requires IsFlat(e) && Proper(x.f, x.labels) && CarriesRight(x.labels, e)
    requires |vals| == ArityOf(x.m, x.f, x.labels, e).nargs
    ensures Framed(x, e, base, vals, ts)
  {
    hide ExecExpr, ArityOf, LeavesAll, CarriesRight;
    match e
    case Call(_) => FrameCall(x, e, base, vals, ts);
    case CallIndirect(_) => FrameCall(x, e, base, vals, ts);
    case Br(_) => FrameJump(x, e, base, vals, ts);
    case BrIf(_) => FrameJump(x, e, base, vals, ts);
    case BrTable(_, _) => FrameJump(x, e, base, vals, ts);
    case Return => FrameJump(x, e, base, vals, ts);
    case _ => FrameStep(x, e, base, vals, ts);
  }

  // ----- nodes -----

  /** With `args` evaluated to one value each, `news` does what instruction `e` does with them.
      `Does` adds that it holds that instruction and those of `args`, and no others. */
  ghost predicate DoesAt(x: Place, e: Expr, args: seq<Node>, news: seq<Node>, base: seq<nat>, ts: TState) {
    var a := ArityOf(x.m, x.f, x.labels, e);
    var c, t := EvalItems(x, args, ts), EvalItems(x, news, ts);
    if !c.out.Normal? then t == c
    else |c.vals| == a.nargs ==> Leaves(x, base, a.nreturns, |news| == 1, Run(x, e, c.ts.Machine(base + c.vals)), t)
  }

  ghost predicate Does(m: Module, f: Func, labels: seq<LabelInfo>, e: Expr, args: seq<Node>, news: seq<Node>) {
    && (forall sem: Sem, base: seq<nat>, ts: TState :: DoesAt(Place(sem, m, f, labels), e, args, news, base, ts))
    && ConstMoved(Listings(args) + FlattenOne(e), Listings(news))
  }

  /** Evaluated at any time, the node gives `k` values if it ends normally. */
  ghost predicate Gives(m: Module, f: Func, labels: seq<LabelInfo>, n: Node, k: nat) {
    forall sem: Sem, ts: TState :: GivesAt(Place(sem, m, f, labels), n, k, ts)
  }

  predicate GivesAt(x: Place, n: Node, k: nat, ts: TState) {
    var t := EvalNode(x, n, ts);
    t.out.Normal? ==> |t.vals| == k
  }

  /** All of `items` give one value each. */
  ghost predicate Singles(m: Module, f: Func, labels: seq<LabelInfo>, items: seq<Node>) {
    forall i | 0 <= i < |items| :: Gives(m, f, labels, items[i], 1)
  }

  lemma {:induction false} SinglesCount(x: Place, items: seq<Node>, ts: TState)
    requires Singles(x.m, x.f, x.labels, items)
    ensures var t := EvalItems(x, items, ts);
            t.out.Normal? ==> |t.vals| == |items|
    decreases |items|
  {
    hide EvalNode;
    if items != [] {
      assert GivesAt(x, items[0], 1, ts);
      var a := EvalNode(x, items[0], ts);
      if a.out.Normal? { SinglesCount(x, items[1..], a.ts); }
    }
  }

  /** A single node that does an instruction gives as many values as the instruction. */
  lemma DoesGives(m: Module, f: Func, labels: seq<LabelInfo>, e: Expr, args: seq<Node>, n: Node)
    requires Does(m, f, labels, e, args, [n]) && Singles(m, f, labels, args)
    requires |args| == ArityOf(m, f, labels, e).nargs
    ensures Gives(m, f, labels, n, ArityOf(m, f, labels, e).nreturns)
  {
    hide EvalNode, EvalItems, Singles, ArityOf, ExecExpr;
    forall sem: Sem, ts: TState ensures GivesAt(Place(sem, m, f, labels), n, ArityOf(m, f, labels, e).nreturns, ts) {
      var x := Place(sem, m, f, labels);
      assert DoesAt(x, e, args, [n], [], ts);
      SinglesCount(x, args, ts);
      EvalOne(x, n, ts);
    }
  }

  lemma FlatDoes(m: Module, f: Func, labels: seq<LabelInfo>, e: Expr, args: seq<Node>)
    requires IsFlat(e) && Proper(f, labels) && CarriesRight(labels, e) && !(e.LocalTee? && args == [])
    ensures Does(m, f, labels, e, args, [ExprNode(e, args)])
  {
    hide Leaves, Framed, Op, ArityOf, CarriesRight, ConstMoved;
    NodeMoved(e, args, [ExprNode(e, args)]);
    forall sem: Sem, base: seq<nat>, ts: TState
      ensures DoesAt(Place(sem, m, f, labels), e, args, [ExprNode(e, args)], base, ts)
    {
      var x := Place(sem, m, f, labels);
      EvalOne(x, ExprNode(e, args), ts);
      FlatEval(x, e, args, ts);
      var c := EvalItems(x, args, ts);
      if c.out.Normal? && |c.vals| == ArityOf(m, f, labels, e).nargs {
        Frame(x, e, base, c.vals, c.ts);
        FramedIs(x, e, base, c.vals, c.ts);
      }
    }
  }

  lemma FlatEval(x: Place, e: Expr, args: seq<Node>, ts: TState)
    requires IsFlat(e) && !(e.LocalTee? && args == [])
    ensures EvalNode(x, ExprNode(e, args), ts) == OpItems(x, e, args, ts)
  {
    hide Op, EvalItems;
  }

  lemma FramedIs(x: Place, e: Expr, base: seq<nat>, vals: seq<nat>, ts: TState)
    requires Framed(x, e, base, vals, ts)
    ensures Leaves(x, base, ArityOf(x.m, x.f, x.labels, e).nreturns, true, Run(x, e, ts.Machine(base + vals)),
            Op(x, e, vals, ts))
  {
    hide ArityOf, ExecExpr;
    AllLeft(x, base, ArityOf(x.m, x.f, x.labels, e).nreturns, Run(x, e, ts.Machine(base + vals)), Op(x, e, vals, ts));
  }

  /** A first assignment is a declaration. */
  lemma DeclDoes(m: Module, f: Func, labels: seq<LabelInfo>, v: Var, args: seq<Node>)
    requires Proper(f, labels)
    ensures Does(m, f, labels, LocalSet(v), args, [DeclInit(v, args)])
  {
    hide Leaves, Framed, Op, ArityOf, ConstMoved;
    NodeMoved(LocalSet(v), args, [DeclInit(v, args)]);
    forall sem: Sem, base: seq<nat>, ts: TState
      ensures DoesAt(Place(sem, m, f, labels), LocalSet(v), args, [DeclInit(v, args)], base, ts)
    {
      var x := Place(sem, m, f, labels);
      EvalOne(x, DeclInit(v, args), ts);
      var c := EvalItems(x, args, ts);
      if c.out.Normal? && |c.vals| == ArityOf(m, f, labels, LocalSet(v)).nargs {
        Frame(x, LocalSet(v), base, c.vals, c.ts);
        FramedIs(x, LocalSet(v), base, c.vals, c.ts);
      }
    }
  }

  /** The two nodes a `local.tee` becomes when nothing is below its operand: set, then get. */
  predicate TeeSplit(v: Var, args: seq<Node>, news: seq<Node>) {
    args != [] && (news == [ExprNode(LocalTee(v), args), ExprNode(LocalTee(v), [])]
      || news == [DeclInit(v, args), ExprNode(LocalTee(v), [])])
  }

  lemma EvalTwo(x: Place, a: Node, b: Node, ts: TState)
    ensures var r := EvalNode(x, a, ts);
            EvalItems(x, [a, b], ts) ==
              if !r.out.Normal? then r
              else
                var s := EvalNode(x, b, r.ts);
                if s.out.Normal? then s.(vals := r.vals + s.vals) else s
  {
    hide EvalNode;
    assert [a, b] == [a] + [b];
    EvalConcat(x, [a], [b], ts);
    EvalOne(x, a, ts);
    var r := EvalNode(x, a, ts);
    EvalOne(x, b, r.ts);
  }

  /** The set keeps the value in the local, and the get reads it. */
  lemma SetThenGet(x: Place, v: Var, set_: Expr, w: nat, base: seq<nat>, ts: TState)
    requires set_ == LocalTee(v) || set_ == LocalSet(v)
    ensures var r := Run(x, LocalTee(v), ts.Machine(base + [w]));
            var s := Op(x, set_, [w], ts);
            if r.out.Normal?
            then s.out.Normal? && Op(x, LocalGet(v), [], s.ts) == TResult(Normal, [w], s.ts)
              && r.st == s.ts.Machine(base + [w])
            else Ends(x, r, s)
  {
    hide Resolve, ExecExpr;
    var st := ts.Machine(base + [w]);
    SimpleRun(x, LocalTee(v), st);
    SimpleRun(x, set_, ts.Machine([w]));
    assert Top(st, 0) == w;
    var i := Resolve(x.f.localNames, v);
    if i.Some? && i.value < |ts.locals| {
      var ts1 := ts.(locals := ts.locals[i.value := w]);
      SimpleRun(x, LocalGet(v), ts1.Machine([]));
      assert [] + [w] == [w];
    }
  }

  lemma TeeAt(x: Place, v: Var, args: seq<Node>, news: seq<Node>, base: seq<nat>, ts: TState)
    requires TeeSplit(v, args, news)
    ensures DoesAt(x, LocalTee(v), args, news, base, ts)
  {
    hide EvalItems, ExecExpr, Op;
    EvalTwo(x, news[0], news[1], ts);
    var c := EvalItems(x, args, ts);
    var set_ := if news[0].DeclInit? then LocalSet(v) else LocalTee(v);
    if c.out.Normal? && |c.vals| == 1 {
      var w := c.vals[0];
      assert c.vals == [w];
      SetThenGet(x, v, set_, w, base, c.ts);
      var s := Op(x, set_, [w], c.ts);
      assert EvalNode(x, news[0], ts) == s;
      if s.out.Normal? {
        assert EvalNode(x, news[1], s.ts) == TResult(Normal, [w], s.ts);
        assert LastN(s.vals + [w], 1) == [w];
      }
    }
  }

  lemma TeeDoes(m: Module, f: Func, labels: seq<LabelInfo>, v: Var, args: seq<Node>, news: seq<Node>)
    requires TeeSplit(v, args, news)
    ensures Does(m, f, labels, LocalTee(v), args, news)
  {
    hide DoesAt, ConstMoved;
    NodeMoved(LocalTee(v), args, news);
    forall sem: Sem, base: seq<nat>, ts: TState
      ensures DoesAt(Place(sem, m, f, labels), LocalTee(v), args, news, base, ts)
    {
      TeeAt(Place(sem, m, f, labels), v, args, news, base, ts);
    }
  }

  lemma TeeGetGives(m: Module, f: Func, labels: seq<LabelInfo>, v: Var)
    ensures Gives(m, f, labels, ExprNode(LocalTee(v), []), 1)
  {
    hide Resolve;
  }

  // ----- nested lists -----

  /** The node does what the list does, and leaves its `n` results last. */
  ghost predicate BodyAt(x: Place, es: ExprList, n: nat, node: Node, base: seq<nat>, ts: TState) {
    Leaves(x, base, n, false, Exec(x, es, ts.Machine(base)), EvalNode(x, node, ts))
  }

  ghost predicate Body(m: Module, f: Func, labels: seq<LabelInfo>, es: ExprList, n: nat, node: Node) {
    && (forall sem: Sem, base: seq<nat>, ts: TState :: BodyAt(Place(sem, m, f, labels), es, n, node, base, ts))
    && ConstMoved(Flatten(es), Listing(node))
  }

  /** Leaving a body on both sides. */
  lemma LeaveMatches(x: Place, name: string, n: nat, base: seq<nat>, entry: State, r: Result, t: TResult)
    requires Leaves(x.Inside(name, n), base, n, false, r, t) && entry.stack == base
    ensures Leaves(x, base, n, true, Leave(entry, n, r), LeaveBody(n, t))
  {
    var y := x.Inside(name, n);
    if t.out.Branch? && t.out.depth > 0 {
      assert y.labels[|y.labels| - 1 - t.out.depth] == x.labels[|x.labels| - 1 - (t.out.depth - 1)];
    }
    if t.out == Branch(0) {
      assert y.labels[|y.labels| - 1].arity == n;
      assert LastN(t.vals, n) == t.vals;
    }
    if t.out.Normal? { assert LastN(LastN(t.vals, n), n) == LastN(t.vals, n); }
  }

  lemma BlockDoes(m: Module, f: Func, labels: seq<LabelInfo>, e: Expr, b: Node)
    requires e.Block? && Body(m, f, labels + [LabelInfo(e.name, |e.results|)], e.body, |e.results|, b)
    ensures Does(m, f, labels, e, [], [ExprNode(e, [b])])
  {
    hide Leaves, ExecList, Leave, LeaveBody, ConstMoved, Listing, Listings, Flatten, FlattenOne;
    var node := ExprNode(e, [b]);
    BlockMoved(e, b);
    forall sem: Sem, base: seq<nat>, ts: TState ensures DoesAt(Place(sem, m, f, labels), e, [], [node], base, ts) {
      var x := Place(sem, m, f, labels);
      var y, n := x.Inside(e.name, |e.results|), |e.results|;
      EvalOne(x, node, ts);
      assert BodyAt(Place(sem, m, f, y.labels), e.body, n, b, base, ts);
      LeaveMatches(x, e.name, n, base, ts.Machine(base), Exec(y, e.body, ts.Machine(base)), EvalNode(y, b, ts));
      assert base + [] == base;
    }
  }

  lemma BodyMoved(m: Module, f: Func, labels: seq<LabelInfo>, es: ExprList, n: nat, node: Node)
    requires Body(m, f, labels, es, n, node)
    ensures ConstMoved(Flatten(es), Listing(node))
  {}

  lemma IfDoes(m: Module, f: Func, labels: seq<LabelInfo>, e: Expr, c: Node, bodies: seq<Node>)
    requires e.If? && |bodies| == (if e.else_.Nil? then 1 else 2) && (e.else_.Nil? ==> e.results == [])
    requires Body(m, f, labels + [LabelInfo(e.name, |e.results|)], e.then_, |e.results|, bodies[0])
    requires e.else_.Cons? ==> Body(m, f, labels + [LabelInfo(e.name, |e.results|)], e.else_, |e.results|, bodies[1])
    ensures Does(m, f, labels, e, [c], [ExprNode(e, [c] + bodies)])
  {
    hide DoesAt, Body, ConstMoved;
    assert ConstMoved(Flatten(e.then_), Listing(bodies[0]))
      && (e.else_.Cons? ==> ConstMoved(Flatten(e.else_), Listing(bodies[1]))) by {
      BodyMoved(m, f, labels + [LabelInfo(e.name, |e.results|)], e.then_, |e.results|, bodies[0]);
      if e.else_.Cons? { BodyMoved(m, f, labels + [LabelInfo(e.name, |e.results|)], e.else_, |e.results|, bodies[1]); }
    }
    IfMoved(e, c, bodies);
    forall sem: Sem, base: seq<nat>, ts: TState
      ensures DoesAt(Place(sem, m, f, labels), e, [c], [ExprNode(e, [c] + bodies)], base, ts)
    {
      IfAt(Place(sem, m, f, labels), e, c, bodies, base, ts);
    }
  }

  lemma {:induction false} IfAt(x: Place, e: Expr, c: Node, bodies: seq<Node>, base: seq<nat>, ts: TState)
    requires e.If? && |bodies| == (if e.else_.Nil? then 1 else 2) && (e.else_.Nil? ==> e.results == [])
    requires Body(x.m, x.f, x.labels + [LabelInfo(e.name, |e.results|)], e.then_, |e.results|, bodies[0])
    requires e.else_.Cons?
             ==> Body(x.m, x.f, x.labels + [LabelInfo(e.name, |e.results|)], e.else_, |e.results|, bodies[1])
    ensures DoesAt(x, e, [c], [ExprNode(e, [c] + bodies)], base, ts)
  {
    hide Leaves, ExecList, Leave, LeaveBody, ConstMoved, Flatten, Listing;
    var node := ExprNode(e, [c] + bodies);
    var y, n := x.Inside(e.name, |e.results|), |e.results|;
    EvalOne(x, c, ts);
    EvalOne(x, node, ts);
    var v := EvalNode(x, c, ts);
    if v.out.Normal? && |v.vals| == 1 {
      var st := v.ts.Machine(base + v.vals);
      assert Top(st, 0) == v.vals[0] && DropN(st, 1) == v.ts.Machine(base);
      if v.vals[0] != 0 || e.else_.Cons? {
        var body, es := if v.vals[0] != 0 then bodies[0] else bodies[1], if v.vals[0] != 0 then e.then_ else e.else_;
        assert BodyAt(Place(x.sem, x.m, x.f, y.labels), es, n, body, base, v.ts);
        LeaveMatches(x, e.name, n, base, v.ts.Machine(base), Exec(y, es, v.ts.Machine(base)), EvalNode(y, body, v.ts));
        assert node.children[1..] == bodies;
      } else {
        EmptyElse(x, e, base, v.ts);
      }
    }
  }

  lemma EmptyElse(x: Place, e: Expr, base: seq<nat>, ts: TState)
    requires e.If? && e.else_.Nil? && e.results == []
    ensures var y := x.Inside(e.name, 0);
            Leaves(x, base, 0, true, Leave(ts.Machine(base), 0, Exec(y, e.else_, ts.Machine(base))),
              TResult(Normal, [], ts))
  {
    assert base + [] == base;
  }

  lemma LoopAt(x: Place, e: Expr, b: Node, base: seq<nat>, ts: TState)
    requires e.Loop? && Body(x.m, x.f, x.labels + [LabelInfo(e.name, 0)], e.body, |e.results|, b)
    ensures Leaves(x, base, |e.results|, true, Run(x, e, ts.Machine(base)), EvalNode(x, ExprNode(e, [b]), ts))
    decreases ts.fuel
  {
    hide Leaves, ExecList, LeaveBody, Body;
    var y, n := x.Inside(e.name, 0), |e.results|;
    assert BodyAt(y, e.body, n, b, base, ts) by { BodyIs(y, e.body, n, b, base, ts); }
    var r, t := Exec(y, e.body, ts.Machine(base)), EvalNode(y, b, ts);
    LoopEnd(x, e, base, ts, r, t);
    if t.out == Branch(0) && t.ts.fuel > 0 {
      LoopAt(x, e, b, base, t.ts.(fuel := t.ts.fuel - 1));
    }
  }

  lemma BodyIs(x: Place, es: ExprList, n: nat, node: Node, base: seq<nat>, ts: TState)
    requires Body(x.m, x.f, x.labels, es, n, node)
    ensures BodyAt(x, es, n, node, base, ts)
  {
    hide BodyAt;
    assert BodyAt(Place(x.sem, x.m, x.f, x.labels), es, n, node, base, ts);
  }

  lemma LoopEnd(x: Place, e: Expr, base: seq<nat>, ts: TState, r: Result, t: TResult)
    requires e.Loop? && Leaves(x.Inside(e.name, 0), base, |e.results|, false, r, t)
    ensures r.out == t.out && SameStore(r.st, t.ts)
    ensures r.out == Branch(0) && r.st.fuel == 0
            ==> Leaves(x, base, |e.results|, true, r.(out := Exhausted), t.(out := Exhausted))
    ensures r.out != Branch(0)
            ==> Leaves(x, base, |e.results|, true, Leave(ts.Machine(base), 0, r), LeaveBody(|e.results|, t))
  {
    var y := x.Inside(e.name, 0);
    if t.out.Branch? && t.out.depth > 0 {
      assert y.labels[|y.labels| - 1 - t.out.depth] == x.labels[|x.labels| - 1 - (t.out.depth - 1)];
    }
    if t.out.Normal? { assert LastN(LastN(t.vals, |e.results|), |e.results|) == LastN(t.vals, |e.results|); }
  }

  lemma LoopDoes(m: Module, f: Func, labels: seq<LabelInfo>, e: Expr, b: Node)
    requires e.Loop? && Body(m, f, labels + [LabelInfo(e.name, 0)], e.body, |e.results|, b)
    ensures Does(m, f, labels, e, [], [ExprNode(e, [b])])
  {
    hide Leaves, ExecExpr, EvalNode, Body, ConstMoved, Listing, Listings, Flatten, FlattenOne;
    var node := ExprNode(e, [b]);
    BodyMoved(m, f, labels + [LabelInfo(e.name, 0)], e.body, |e.results|, b);
    BlockMoved(e, b);
    forall sem: Sem, base: seq<nat>, ts: TState ensures DoesAt(Place(sem, m, f, labels), e, [], [node], base, ts) {
      var x := Place(sem, m, f, labels);
      EvalOne(x, node, ts);
      LoopAt(x, e, b, base, ts);
      assert base + [] == base;
    }
  }

  // ----- lists under construction -----

  /** Evaluating `items`, and then running `rest` on the last `n` values, does what `es` does.
      `Continues` adds that they hold the same instructions. */
  ghost predicate ContinuesAt(
    x: Place, es: ExprList, rest: ExprList, items: seq<Node>, n: nat, base: seq<nat>, ts: TState)
  {
    var t, r := EvalItems(x, items, ts), Exec(x, es, ts.Machine(base));
    if t.out.Normal? then |t.vals| >= n && r == Exec(x, rest, t.ts.Machine(base + LastN(t.vals, n)))
    else Ends(x, r, t)
  }

  ghost predicate Continues(
    m: Module, f: Func, labels: seq<LabelInfo>, es: ExprList, rest: ExprList, items: seq<Node>, n: nat)
  {
    && (forall sem: Sem, base: seq<nat>, ts: TState ::
          ContinuesAt(Place(sem, m, f, labels), es, rest, items, n, base, ts))
    && ConstMoved(Flatten(es), Listings(items) + Flatten(rest))
  }

  lemma ContinuesStart(m: Module, f: Func, labels: seq<LabelInfo>, es: ExprList)
    ensures Continues(m, f, labels, es, es, [], 0)
  {
    hide ExecList, Flatten;
    assert [] + Flatten(es) == Flatten(es);
    forall sem: Sem, base: seq<nat>, ts: TState ensures ContinuesAt(Place(sem, m, f, labels), es, es, [], 0, base, ts) {
      assert base + LastN([], 0) == base;
    }
  }

  lemma LastTwo(a: seq<nat>, b: seq<nat>, n: nat)
    requires |b| <= n <= |a| + |b|
    ensures LastN(a + b, n) == LastN(a, n - |b|) + b
  {}

  /** One instruction more: its operands are replaced by what it becomes. */
  lemma ContinuesStep(
    m: Module, f: Func, labels: seq<LabelInfo>, es: ExprList, e: Expr, rest: ExprList,
    pre: seq<Node>, args: seq<Node>, news: seq<Node>, n: nat)
    requires Continues(m, f, labels, es, Cons(e, rest), pre + args, n)
    requires Does(m, f, labels, e, args, news) && Singles(m, f, labels, args)
    requires |args| == ArityOf(m, f, labels, e).nargs <= n && (|news| == 1 || n == |args|)
    ensures Continues(m, f, labels, es, rest, pre + news, n - |args| + ArityOf(m, f, labels, e).nreturns)
  {
    hide ContinuesAt, DoesAt, ArityOf, Singles, ConstMoved, Listings, Flatten, FlattenOne;
    StepMoved(es, e, rest, pre, args, news);
    var n' := n - |args| + ArityOf(m, f, labels, e).nreturns;
    var items := pre + news;
    forall sem: Sem, base: seq<nat>, ts: TState
      ensures ContinuesAt(Place(sem, m, f, labels), es, rest, items, n', base, ts)
    {
      var x := Place(sem, m, f, labels);
      assert ContinuesAt(x, es, Cons(e, rest), pre + args, n, base, ts);
      var p := EvalItems(x, pre, ts);
      SinglesCount(x, args, p.ts);
      var mid := LastN(p.vals, n - |args|);
      assert DoesAt(x, e, args, news, base + mid, p.ts);
      StepAt(x, es, e, rest, pre, args, news, n, base, ts);
    }
  }

  lemma StepAt(
    x: Place, es: ExprList, e: Expr, rest: ExprList, pre: seq<Node>, args: seq<Node>, news: seq<Node>, n: nat,
    base: seq<nat>, ts: TState)
    requires ContinuesAt(x, es, Cons(e, rest), pre + args, n, base, ts)
    requires |args| == ArityOf(x.m, x.f, x.labels, e).nargs <= n && (|news| == 1 || n == |args|)
    requires var p := EvalItems(x, pre, ts);
             && DoesAt(x, e, args, news, base + LastN(p.vals, n - |args|), p.ts)
             && (EvalItems(x, args, p.ts).out.Normal? ==> |EvalItems(x, args, p.ts).vals| == |args|)
    ensures ContinuesAt(x, es, rest, pre + news, n - |args| + ArityOf(x.m, x.f, x.labels, e).nreturns, base, ts)
  {
    hide EvalItems, ArityOf, ExecExpr, LastN;
    EvalConcat(x, pre, args, ts);
    EvalConcat(x, pre, news, ts);
    var p := EvalItems(x, pre, ts);
    if p.out.Normal? {
      var c, t := EvalItems(x, args, p.ts), EvalItems(x, news, p.ts);
      var k := ArityOf(x.m, x.f, x.labels, e).nreturns;
      if c.out.Normal? {
        StepValues(base, p.vals, c.vals, n);
        ListStep(x, e, rest, c.ts.Machine((base + LastN(p.vals, n - |args|)) + c.vals));
        if t.out.Normal? { StepResults(base, p.vals, t.vals, n - |args|, k, |news| == 1); }
      }
    }
  }

  lemma ListStep(x: Place, e: Expr, rest: ExprList, st: State)
    ensures var r := Run(x, e, st);
            Exec(x, Cons(e, rest), st) == if r.out.Normal? then Exec(x, rest, r.st) else r
  {
    hide ExecExpr;
  }

  lemma StepValues(base: seq<nat>, ps: seq<nat>, cs: seq<nat>, n: nat)
    requires |cs| <= n <= |ps| + |cs|
    ensures base + LastN(ps + cs, n) == (base + LastN(ps, n - |cs|)) + cs
  {
    LastTwo(ps, cs, n);
    assert base + (LastN(ps, n - |cs|) + cs) == (base + LastN(ps, n - |cs|)) + cs;
  }

  lemma StepResults(base: seq<nat>, ps: seq<nat>, vs: seq<nat>, n: nat, k: nat, exact: bool)
    requires n <= |ps| && |vs| >= k && (exact ==> |vs| == k) && (exact || n == 0)
    ensures |ps + vs| >= n + k
    ensures base + LastN(ps + vs, n + k) == (base + LastN(ps, n)) + LastN(vs, k)
  {
    hide LastN;
    if exact {
      LastTwo(ps, vs, n + k);
      LastAll(vs);
    } else {
      LastOnly(ps, vs, k);
    }
    assert base + (LastN(ps, n) + LastN(vs, k)) == (base + LastN(ps, n)) + LastN(vs, k);
  }

  lemma LastAll(vs: seq<nat>)
    ensures LastN(vs, |vs|) == vs
  {}

  lemma LastOnly(ps: seq<nat>, vs: seq<nat>, k: nat)
    requires k <= |vs|
    ensures LastN(ps + vs, k) == LastN(vs, k) && LastN(ps, 0) == []
    ensures LastN(ps, 0) + LastN(vs, k) == LastN(vs, k)
  {
    var all := ps + vs;
    assert all[|ps|..] == vs;
    assert all[|all| - k..] == all[|ps|..][|vs| - k..];
  }

  /** At the end the items, as statements, are the body. */
  lemma ContinuesEnd(m: Module, f: Func, labels: seq<LabelInfo>, es: ExprList, items: seq<Node>, n: nat, node: Node)
    requires Continues(m, f, labels, es, Nil, items, n)
    requires node == Statements(items) || items == [node]
    ensures Body(m, f, labels, es, n, node)
  {
    hide ContinuesAt, BodyAt, ConstMoved, Listings, Listing, Flatten;
    EndMoved(es, items, node);
    forall sem: Sem, base: seq<nat>, ts: TState ensures BodyAt(Place(sem, m, f, labels), es, n, node, base, ts) {
      var x := Place(sem, m, f, labels);
      assert ContinuesAt(x, es, Nil, items, n, base, ts);
      EndAt(x, es, items, n, node, base, ts);
    }
  }

  lemma EndAt(x: Place, es: ExprList, items: seq<Node>, n: nat, node: Node, base: seq<nat>, ts: TState)
    requires ContinuesAt(x, es, Nil, items, n, base, ts)
    requires node == Statements(items) || items == [node]
    ensures BodyAt(x, es, n, node, base, ts)
  {
    hide Ends;
    if node != Statements(items) { EvalOne(x, node, ts); }
  }

  // ----- moving items -----

  /** Two lists of items with the same effects and the same last `n` values. */
  ghost predicate AlikeAt(x: Place, a: seq<Node>, b: seq<Node>, n: nat, ts: TState) {
    var s, t := EvalItems(x, a, ts), EvalItems(x, b, ts);
    && s.out == t.out && s.ts.locals == t.ts.locals && s.ts.world == t.ts.world && s.ts.fuel == t.ts.fuel
    && if s.out.Normal? then |s.vals| >= n ==> |t.vals| >= n && LastN(s.vals, n) == LastN(t.vals, n)
      else s.vals == t.vals
  }

  ghost predicate Alike(m: Module, f: Func, labels: seq<LabelInfo>, a: seq<Node>, b: seq<Node>, n: nat) {
    && (forall sem: Sem, ts: TState :: AlikeAt(Place(sem, m, f, labels), a, b, n, ts))
    && ConstMoved(Listings(a), Listings(b))
  }

  lemma ContinuesAlike(
    m: Module, f: Func, labels: seq<LabelInfo>, es: ExprList, rest: ExprList, a: seq<Node>, b: seq<Node>, n: nat)
    requires Continues(m, f, labels, es, rest, a, n) && Alike(m, f, labels, a, b, n)
    ensures Continues(m, f, labels, es, rest, b, n)
  {
    hide EvalItems, ExecList, ConstMoved, Listings, Flatten;
    AlikeMoved(es, rest, a, b);
    forall sem: Sem, base: seq<nat>, ts: TState
      ensures ContinuesAt(Place(sem, m, f, labels), es, rest, b, n, base, ts)
    {
      var x := Place(sem, m, f, labels);
      assert ContinuesAt(x, es, rest, a, n, base, ts) && AlikeAt(x, a, b, n, ts);
    }
  }

  /** Variables that read temporaries below `bound` only. */
  predicate Vars(vars: seq<Node>, bound: nat) {
    forall i | 0 <= i < |vars| :: IsVar(vars[i]) && Within(vars[i], 0, bound)
  }

  /** The temporaries `F`, `F + 1`, ... as values. */
  function FlushedVars(F: nat, count: nat): (r: seq<Node>)
    ensures |r| == count && forall i | 0 <= i < count :: r[i] == FlushedVar(F + i)
  {
    seq(count, i requires 0 <= i < count => FlushedVar(F + i))
  }

  lemma VarsKeep(vars: seq<Node>, bound: nat, hi: nat, a: TState, b: TState)
    requires Vars(vars, bound) && Untouched(a, b, bound, hi)
    ensures VarValues(vars, a) == VarValues(vars, b)
  {
    forall i | 0 <= i < |vars| ensures VarValue(vars[i], a) == VarValue(vars[i], b) {
      if vars[i].FlushedVar? { assert a.Temp(vars[i].index) == b.Temp(vars[i].index); }
    }
  }

  /** Items whose evaluation leaves `k` values in all. */
  ghost predicate GroupGives(m: Module, f: Func, labels: seq<LabelInfo>, items: seq<Node>, k: nat) {
    forall sem: Sem, ts: TState :: GroupGivesAt(Place(sem, m, f, labels), items, k, ts)
  }

  predicate GroupGivesAt(x: Place, items: seq<Node>, k: nat, ts: TState) {
    var t := EvalItems(x, items, ts);
    t.out.Normal? ==> |t.vals| == k
  }

  /** Evaluating two lists of items one after the other. */
  function Then(r: TResult, s: TResult): TResult {
    if !r.out.Normal? then r else if s.out.Normal? then s.(vals := r.vals + s.vals) else s
  }

  lemma EvalThen(x: Place, a: seq<Node>, b: seq<Node>, ts: TState)
    ensures EvalItems(x, a + b, ts) == Then(EvalItems(x, a, ts), EvalItems(x, b, EvalItems(x, a, ts).ts))
  {
    hide EvalItems;
    EvalConcat(x, a, b, ts);
  }

  /** An effect can be moved below variables it does not assign. */
  lemma LiftAlike(
    m: Module, f: Func, labels: seq<LabelInfo>, pre: seq<Node>, vars: seq<Node>, tail: seq<Node>, bound: nat, hi: nat)
    requires Vars(vars, bound) && AllWithin(tail, bound, hi) && GroupGives(m, f, labels, tail, 0)
    ensures Alike(m, f, labels, pre + vars + tail, pre + tail + vars, |vars|)
  {
    hide AlikeAt, GroupGivesAt, ConstMoved, Listings;
    var a, b := pre + vars + tail, pre + tail + vars;
    LiftMoved(pre, vars, tail);
    forall sem: Sem, ts: TState ensures AlikeAt(Place(sem, m, f, labels), a, b, |vars|, ts) {
      var x := Place(sem, m, f, labels);
      assert GroupGivesAt(x, tail, 0, EvalItems(x, pre, ts).ts);
      LiftAt(x, pre, vars, tail, bound, hi, ts);
    }
  }

  lemma {:induction false} LiftAt(
    x: Place, pre: seq<Node>, vars: seq<Node>, tail: seq<Node>, bound: nat, hi: nat, ts: TState)
    requires Vars(vars, bound) && AllWithin(tail, bound, hi) && GroupGivesAt(x, tail, 0, EvalItems(x, pre, ts).ts)
    ensures AlikeAt(x, pre + vars + tail, pre + tail + vars, |vars|, ts)
  {
    hide EvalItems, Vars, AllWithin;
    var p := EvalItems(x, pre, ts);
    EvalThen(x, pre, vars, ts);
    EvalThen(x, pre + vars, tail, ts);
    EvalThen(x, pre, tail, ts);
    EvalThen(x, pre + tail, vars, ts);
    assert forall i | 0 <= i < |vars| :: IsVar(vars[i]) by { VarsAre(vars, bound); }
    if p.out.Normal? {
      EvalVars(x, vars, p.ts);
      TempsLocalItems(x, tail, bound, hi, p.ts, p.ts);
      var t := EvalItems(x, tail, p.ts);
      if t.out.Normal? {
        EvalVars(x, vars, t.ts);
        VarsKeep(vars, bound, hi, p.ts, t.ts);
        assert t.vals == [];
        var vv := VarValues(vars, p.ts);
        assert (p.vals + vv) + [] == p.vals + vv && (p.vals + []) + vv == p.vals + vv;
      }
    }
  }

  lemma VarsAre(vars: seq<Node>, bound: nat)
    requires Vars(vars, bound)
    ensures forall i | 0 <= i < |vars| :: IsVar(vars[i])
  {}

  /** Pending values can be flushed into fresh temporaries before an effect, and read back after it. */
  lemma FlushAlike(
    m: Module, f: Func, labels: seq<LabelInfo>, pre: seq<Node>, vars: seq<Node>, group: seq<Node>, tail: seq<Node>,
    bound: nat, F: nat, count: nat)
    requires Vars(vars, bound) && bound <= F && AllWithin(group, bound, F) && AllWithin(tail, bound, F)
    requires GroupGives(m, f, labels, group, count) && GroupGives(m, f, labels, tail, 0)
    ensures Alike(m, f, labels, pre + vars + group + tail,
                  pre + [FlushToVars(F, count, group)] + tail + vars + FlushedVars(F, count), |vars| + count)
  {
    hide AlikeAt, GroupGivesAt, Vars, AllWithin, ConstMoved, Listings;
    var a, b := pre + vars + group + tail, pre + [FlushToVars(F, count, group)] + tail + vars + FlushedVars(F, count);
    VarsAre(vars, bound);
    FlushMoved(pre, vars, group, tail, F, count, FlushedVars(F, count));
    var n := |vars| + count;
    forall sem: Sem, ts: TState ensures AlikeAt(Place(sem, m, f, labels), a, b, n, ts) {
      var x := Place(sem, m, f, labels);
      var p := EvalItems(x, pre, ts);
      var g := EvalItems(x, group, p.ts);
      assert GroupGivesAt(x, group, count, p.ts) && GroupGivesAt(x, tail, 0, g.ts);
      FlushAt(x, pre, vars, group, tail, bound, F, count, ts);
    }
  }

  lemma {:induction false} FlushAt(
    x: Place, pre: seq<Node>, vars: seq<Node>, group: seq<Node>, tail: seq<Node>, bound: nat, F: nat, count: nat,
    ts: TState)
    requires Vars(vars, bound) && bound <= F && AllWithin(group, bound, F) && AllWithin(tail, bound, F)
    requires var p := EvalItems(x, pre, ts);
             GroupGivesAt(x, group, count, p.ts) && GroupGivesAt(x, tail, 0, EvalItems(x, group, p.ts).ts)
    ensures AlikeAt(x, pre + vars + group + tail,
                    pre + [FlushToVars(F, count, group)] + tail + vars + FlushedVars(F, count), |vars| + count, ts)
  {
    hide EvalItems, EvalNode, Vars, AllWithin, Assigned;
    var p := EvalItems(x, pre, ts);
    var flush, fvs := [FlushToVars(F, count, group)], FlushedVars(F, count);
    EvalThen(x, pre, vars, ts);
    EvalThen(x, pre + vars, group, ts);
    EvalThen(x, pre + vars + group, tail, ts);
    EvalThen(x, pre, flush, ts);
    EvalThen(x, pre + flush, tail, ts);
    EvalThen(x, pre + flush + tail, vars, ts);
    EvalThen(x, pre + flush + tail + vars, fvs, ts);
    VarsAre(vars, bound);
    if p.out.Normal? {
      EvalVars(x, vars, p.ts);
      var g := EvalItems(x, group, p.ts);
      EvalFlush(x, F, count, group, p.ts);
      if g.out.Normal? {
        FlushedTail(x, vars, group, tail, bound, F, count, p.ts);
        var vv := VarValues(vars, p.ts);
        assert ((p.vals + vv) + g.vals) + [] == p.vals + vv + g.vals;
        assert (((p.vals + []) + []) + vv) + g.vals == p.vals + vv + g.vals;
      }
    }
  }

  lemma EvalFlush(x: Place, F: nat, count: nat, group: seq<Node>, ts: TState)
    ensures var g := EvalItems(x, group, ts);
            EvalItems(x, [FlushToVars(F, count, group)], ts) ==
              if !g.out.Normal? then g
              else if |g.vals| != count then g.(out := Wrong)
              else TResult(Normal, [], g.ts.(temps := Assigned(g.ts.temps, F, g.vals)))
  {
    hide EvalItems, Assigned;
    EvalOne(x, FlushToVars(F, count, group), ts);
  }

  /** After the flush: the effect ends as without it, and the variables read what they read before. */
  lemma {:induction false} FlushedTail(
    x: Place, vars: seq<Node>, group: seq<Node>, tail: seq<Node>, bound: nat, F: nat, count: nat, ts: TState)
    requires Vars(vars, bound) && bound <= F && AllWithin(group, bound, F) && AllWithin(tail, bound, F)
    requires forall i | 0 <= i < |vars| :: IsVar(vars[i])
    requires var g := EvalItems(x, group, ts);
             g.out.Normal? && |g.vals| == count && GroupGivesAt(x, tail, 0, g.ts)
    ensures var g := EvalItems(x, group, ts);
            var h := EvalItems(x, tail, g.ts);
            var h' := EvalItems(x, tail, g.ts.(temps := Assigned(g.ts.temps, F, g.vals)));
            && h.out == h'.out && h.vals == h'.vals
            && h.ts.locals == h'.ts.locals && h.ts.world == h'.ts.world && h.ts.fuel == h'.ts.fuel
            && (h.out.Normal? ==> h.vals == [])
            && (h.out.Normal? ==> EvalItems(x, vars, h'.ts) == TResult(Normal, VarValues(vars, ts), h'.ts))
            && (h.out.Normal? ==> EvalItems(x, FlushedVars(F, count), h'.ts) == TResult(Normal, g.vals, h'.ts))
  {
    hide EvalItems, Vars, AllWithin;
    var g := EvalItems(x, group, ts);
    TempsLocalItems(x, group, bound, F, ts, ts);
    var g' := g.ts.(temps := Assigned(g.ts.temps, F, g.vals));
    assert forall i: nat | i < F :: g'.Temp(i) == g.ts.Temp(i);
    TempsLocalItems(x, tail, bound, F, g.ts, g');
    TempsLocalItems(x, tail, bound, F, g', g');
    var h' := EvalItems(x, tail, g');
    if h'.out.Normal? {
      assert Untouched(ts, h'.ts, bound, F + count) by {
        forall i: nat | i < bound || i >= F + count ensures ts.Temp(i) == h'.ts.Temp(i) {
          assert ts.Temp(i) == g.ts.Temp(i) && g.ts.Temp(i) == g'.Temp(i) && g'.Temp(i) == h'.ts.Temp(i);
        }
      }
      VarsKeep(vars, bound, F + count, ts, h'.ts);
      EvalVars(x, vars, h'.ts);
      EvalVars(x, FlushedVars(F, count), h'.ts);
      forall i | 0 <= i < count ensures h'.ts.Temp(F + i) == g.vals[i] {
        assert g'.Temp(F + i) == h'.ts.Temp(F + i);
      }
      assert VarValues(FlushedVars(F, count), h'.ts) == g.vals;
    }
  }

  // ----- the shape of a list of items -----

  /** The invariant of the construction: `depth` operands are the last items, each one value; of
      these the first `inVars` are variables, reading temporaries below `bound` only, and the others
      assign none of those.  `lo` and `flushed` are the first temporary of the list and the next. */
  ghost predicate Shape(
    m: Module, f: Func, labels: seq<LabelInfo>, items: seq<Node>, depth: nat, inVars: nat, lo: nat, bound: nat,
    flushed: nat)
  {
    && inVars <= depth <= |items| && lo <= bound <= flushed
    && AllWithin(items, lo, flushed)
    && Vars(items[|items| - depth..|items| - depth + inVars], bound)
    && AllWithin(items[|items| - depth + inVars..], bound, flushed)
    && Singles(m, f, labels, items[|items| - depth..])
  }

  lemma VarGives(m: Module, f: Func, labels: seq<LabelInfo>, n: Node)
    requires IsVar(n)
    ensures Gives(m, f, labels, n, 1)
  {
    hide EvalNode;
    forall sem: Sem, ts: TState ensures GivesAt(Place(sem, m, f, labels), n, 1, ts) {
      EvalVar(Place(sem, m, f, labels), n, ts);
    }
  }

  lemma SinglesGive(m: Module, f: Func, labels: seq<LabelInfo>, items: seq<Node>)
    requires Singles(m, f, labels, items)
    ensures GroupGives(m, f, labels, items, |items|)
  {
    hide EvalItems, Singles;
    forall sem: Sem, ts: TState ensures GroupGivesAt(Place(sem, m, f, labels), items, |items|, ts) {
      SinglesCount(Place(sem, m, f, labels), items, ts);
    }
  }

  lemma GroupAndLast(m: Module, f: Func, labels: seq<LabelInfo>, items: seq<Node>, n: Node, k: nat)
    requires Singles(m, f, labels, items) && Gives(m, f, labels, n, k)
    ensures GroupGives(m, f, labels, items + [n], |items| + k)
  {
    hide EvalItems, EvalNode, Singles;
    var all, total := items + [n], |items| + k;
    forall sem: Sem, ts: TState ensures GroupGivesAt(Place(sem, m, f, labels), all, total, ts) {
      var x := Place(sem, m, f, labels);
      EvalThen(x, items, [n], ts);
      SinglesCount(x, items, ts);
      var r := EvalItems(x, items, ts);
      EvalOne(x, n, r.ts);
      assert GivesAt(x, n, k, r.ts);
    }
  }

  lemma OneGives(m: Module, f: Func, labels: seq<LabelInfo>, n: Node, k: nat)
    requires Gives(m, f, labels, n, k)
    ensures GroupGives(m, f, labels, [n], k)
  {
    GroupAndLast(m, f, labels, [], n, k);
    assert [] + [n] == [n];
  }

  lemma NothingGives(m: Module, f: Func, labels: seq<LabelInfo>)
    ensures GroupGives(m, f, labels, [], 0)
  {}

  lemma UnreachableRun(x: Place, e: Expr, st: State)
    requires ArityOf(x.m, x.f, x.labels, e).unreachable
    ensures !Run(x, e, st).out.Normal?
  {
    hide Depth;
  }

  /** A list with an unconditional branch never ends normally. */
  lemma {:induction false} StopsRun(x: Place, es: ExprList, st: State)
    requires Stops(x.m, x.f, x.labels, es)
    ensures !Exec(x, es, st).out.Normal?
    decreases es
  {
    hide ExecExpr, ArityOf;
    if ArityOf(x.m, x.f, x.labels, es.head).unreachable {
      UnreachableRun(x, es.head, st);
    } else {
      var r := Run(x, es.head, st);
      if r.out.Normal? { StopsRun(x, es.tail, r.st); }
    }
  }

  // ----- the end of a function -----

  /** The items never end normally. */
  ghost predicate Never(m: Module, f: Func, labels: seq<LabelInfo>, items: seq<Node>) {
    forall sem: Sem, ts: TState :: NeverAt(Place(sem, m, f, labels), items, ts)
  }

  predicate NeverAt(x: Place, items: seq<Node>, ts: TState) { !EvalItems(x, items, ts).out.Normal? }

  lemma EmptyEnds(m: Module, f: Func, labels: seq<LabelInfo>)
    ensures !Never(m, f, labels, [])
  {
    var sem := Sem((_, _) => None, (_, _, _) => None, (_, _, _) => None, (_, _, _, _) => None, _ => 0,
                   (_, mem) => (0, mem), (_, _, world) => HostTrap(world), _ => None, i => i);
    assert !NeverAt(Place(sem, m, f, labels), [], TState([], World(map[], []), 0, map[]));
  }

  lemma NothingToRun(x: Place, st: State)
    ensures Exec(x, Nil, st).out.Normal?
  {}

  /** Items that stand for a list with an unconditional branch never end normally, and stand for it
      however many values are asked for. */
  lemma ContinuesStop(m: Module, f: Func, labels: seq<LabelInfo>, es: ExprList, items: seq<Node>, n: nat, k: nat)
    requires Continues(m, f, labels, es, Nil, items, n) && Stops(m, f, labels, es)
    ensures Continues(m, f, labels, es, Nil, items, k) && Never(m, f, labels, items)
  {
    hide EvalItems, ExecList, Ends, Flatten, Listings, Stops;
    forall sem: Sem, base: seq<nat>, ts: TState
      ensures ContinuesAt(Place(sem, m, f, labels), es, Nil, items, k, base, ts)
      ensures NeverAt(Place(sem, m, f, labels), items, ts)
    {
      var x := Place(sem, m, f, labels);
      assert ContinuesAt(x, es, Nil, items, n, base, ts);
      StopsRun(x, es, ts.Machine(base));
      var t := EvalItems(x, items, ts);
      NothingToRun(x, t.ts.Machine(base + LastN(t.vals, n)));
    }
    forall sem: Sem, ts: TState ensures NeverAt(Place(sem, m, f, labels), items, ts) {
      assert ContinuesAt(Place(sem, m, f, labels), es, Nil, items, k, [], ts);
    }
  }

  /** Two lists of items that leave a function in the same way, with the same instructions but
      perhaps for a final `return`. */
  ghost predicate ExitAlike(m: Module, f: Func, labels: seq<LabelInfo>, a: seq<Node>, b: seq<Node>, n: nat) {
    && (forall sem: Sem, ts: TState :: ExitAlikeAt(Place(sem, m, f, labels), a, b, n, ts))
    && Kept(Listings(a), Listings(b))
  }

  predicate ExitAlikeAt(x: Place, a: seq<Node>, b: seq<Node>, n: nat, ts: TState) {
    LeaveBody(n, EvalItems(x, a, ts)) == LeaveBody(n, EvalItems(x, b, ts))
  }

  lemma ExitSame(m: Module, f: Func, labels: seq<LabelInfo>, items: seq<Node>, n: nat)
    ensures ExitAlike(m, f, labels, items, items, n)
  {}

  /** The tree is right for its function: every run ends alike, whatever the temporaries hold. */
  ghost predicate RunsAs(m: Module, f: Func, root: Node) {
    forall sem: Sem, i: nat, args: seq<nat>, world: World, fuel: nat, temps: map<nat, nat>
      | i < |m.funcs| && m.funcs[i] == f ::
      EvalFunc(sem, m, f, root, args, world, fuel, temps) == RunFunc(sem, m, i, args, world, fuel)
  }

  function LastOf(es: ExprList): Option<Expr>
    decreases es
  {
    match es case Nil => None case Cons(e, rest) => if rest.Nil? then Some(e) else LastOf(rest)
  }

  // ----- how many items a list leaves -----

  /** Items and operands of a list so far, and how many of the operands are variables. */
  datatype Tally = Tally(items: int, depth: int, inVars: int)

  function Least(a: int, b: int): int { if a < b then a else b }

  /** One instruction more, in a list that began with `base` operands below its own.  Every instruction
      leaves one item in place of its operands; a lone tee leaves two.  A flush adds an item, and
      several results become as many items more. */
  function Counted(m: Module, f: Func, labels: seq<LabelInfo>, e: Expr, t: Tally, base: int): Tally {
    var a := ArityOf(m, f, labels, e);
    var items := t.items - a.nargs + if e.LocalTee? && base + t.depth == 1 then 2 else 1;
    var depth := t.depth - a.nargs + a.nreturns;
    var inVars := Least(t.inVars, t.depth - a.nargs);
    if a.nreturns == 1 then Tally(items, depth, if e.Const? && inVars == depth - 1 then depth else inVars)
    else if a.nreturns == 0 then Tally(items + (if depth > inVars then 1 else 0), depth, depth)
    else Tally(items + a.nreturns, depth, depth)
  }

  function CountedList(m: Module, f: Func, labels: seq<LabelInfo>, es: ExprList, t: Tally, base: int): Tally
    decreases es
  {
    match es case Nil => t case Cons(e, rest) =>
      CountedList(m, f, labels, rest, Counted(m, f, labels, e, t, base), base)
  }

  /** The items on the stack at the end of a function's body. */
  function ItemCount(m: Module, f: Func): int {
    CountedList(m, f, [LabelInfo("", |f.sig.results|)], f.body, Tally(0, 0, 0), 0).items
  }

  /** The return statement finds as many items as there are results. */
  predicate ReturnFits(m: Module, f: Func) {
    f.sig.results == [] || LastOf(f.body) == Some(Return) || |f.sig.results| <= ItemCount(m, f)
  }

  /** There are at least as many items as operands, and at least one after an instruction. */
  lemma {:induction false} CountCovers(
    m: Module, f: Func, labels: seq<LabelInfo>, es: ExprList, t: Tally, base: nat, results: nat)
    requires 0 <= t.inVars <= t.depth <= t.items
    requires FitsList(m, f, labels, t.depth, es, results) || FitsDead(m, f, labels, t.depth, es)
    ensures var u := CountedList(m, f, labels, es, t, base);
            && (es.Cons? ==> u.items >= 1)
            && (FitsList(m, f, labels, t.depth, es, results) && !Stops(m, f, labels, es) ==> u.items >= results)
    decreases es
  {
    hide ArityOf, Fits;
    if es.Cons? {
      var u := Counted(m, f, labels, es.head, t, base);
      assert u.items >= 1 && 0 <= u.inVars <= u.depth <= u.items;
      CountCovers(m, f, labels, es.tail, u, base, results);
    }
  }

  /** With at most one result, or where the end of the body can be reached, the return statement fits. */
  lemma ReturnUsuallyFits(m: Module, f: Func)
    requires FitsList(m, f, [LabelInfo("", |f.sig.results|)], 0, f.body, |f.sig.results|)
    requires |f.sig.results| <= 1 || !Stops(m, f, [LabelInfo("", |f.sig.results|)], f.body)
    ensures ReturnFits(m, f)
  {
    hide ArityOf;
    CountCovers(m, f, [LabelInfo("", |f.sig.results|)], f.body, Tally(0, 0, 0), 0, |f.sig.results|);
  }

  /** A function with two results that only traps leaves one item, and the return statement wants two;
      behind a `nop` there are two. */
  lemma TooFewItems(m: Module, f: Func)
    requires |f.sig.results| == 2
    ensures f.body == Cons(Unreachable, Nil) ==>
              FitsList(m, f, [LabelInfo("", 2)], 0, f.body, 2) && ItemCount(m, f) == 1 && !ReturnFits(m, f)
    ensures f.body == Cons(Nop, Cons(Unreachable, Nil)) ==>
              FitsList(m, f, [LabelInfo("", 2)], 0, f.body, 2) && ItemCount(m, f) == 2 && ReturnFits(m, f)
  {
    var labels := [LabelInfo("", 2)];
    var t0 := Tally(0, 0, 0);
    if f.body == Cons(Unreachable, Nil) {
      assert Counted(m, f, labels, Unreachable, t0, 0) == Tally(1, 1, 0);
      assert CountedList(m, f, labels, Nil, Tally(1, 1, 0), 0) == Tally(1, 1, 0);
    }
    if f.body == Cons(Nop, Cons(Unreachable, Nil)) {
      assert Counted(m, f, labels, Nop, t0, 0) == Tally(1, 0, 0);
      assert Counted(m, f, labels, Unreachable, Tally(1, 0, 0), 0) == Tally(2, 1, 0);
      assert CountedList(m, f, labels, Cons(Unreachable, Nil), Tally(1, 0, 0), 0)
          == CountedList(m, f, labels, Nil, Tally(2, 1, 0), 0) == Tally(2, 1, 0);
    }
  }

  /** A `return` without values at the end of a function can be left out. */
  lemma ReturnDropped(m: Module, f: Func, labels: seq<LabelInfo>, items: seq<Node>)
    requires labels == [LabelInfo("", |f.sig.results|)] && items != [] && Last(items) == ExprNode(Return, [])
    requires Continues(m, f, labels, f.body, Nil, items, |f.sig.results|)
    ensures ExitAlike(m, f, labels, items, items[..|items| - 1], |f.sig.results|)
  {
    hide ContinuesAt, EvalItems, LeaveBody, Kept, Listings;
    var pre, n := items[..|items| - 1], |f.sig.results|;
    DropKept(items);
    forall sem: Sem, ts: TState ensures ExitAlikeAt(Place(sem, m, f, labels), items, pre, n, ts) {
      var x := Place(sem, m, f, labels);
      assert ContinuesAt(x, f.body, Nil, items, n, [], ts);
      ReturnAt(x, items, ts);
    }
  }

  lemma ReturnAt(x: Place, items: seq<Node>, ts: TState)
    requires x.labels == [LabelInfo("", |x.f.sig.results|)] && items != [] && Last(items) == ExprNode(Return, [])
    requires ContinuesAt(x, x.f.body, Nil, items, |x.f.sig.results|, [], ts)
    ensures ExitAlikeAt(x, items, items[..|items| - 1], |x.f.sig.results|, ts)
  {
    hide ExecList;
    var pre, back := items[..|items| - 1], ExprNode(Return, []);
    assert items == pre + [back];
    EvalThen(x, pre, [back], ts);
    var p := EvalItems(x, pre, ts);
    EvalOne(x, back, p.ts);
    if p.out.Normal? {
      assert EvalNode(x, back, p.ts) == TResult(Branch(0), [], p.ts) by { ReturnNode(x, p.ts); }
      assert LastN(p.vals, 0) == [];
    }
  }

  lemma ReturnNode(x: Place, ts: TState)
    requires |x.labels| == 1
    ensures EvalNode(x, ExprNode(Return, []), ts) == TResult(Branch(0), [], ts)
  {
    assert EvalItems(x, [], ts) == TResult(Normal, [], ts);
    assert ts.Back(ts.Machine([])) == ts;
  }

  /** Leaving the results and returning them is the same. */
  lemma EndReturnAdded(m: Module, f: Func, labels: seq<LabelInfo>, items: seq<Node>, n: nat)
    requires |labels| == 1 && n <= |items|
    requires Singles(m, f, labels, items[|items| - n..]) || Never(m, f, labels, items)
    ensures ExitAlike(m, f, labels, items, items[..|items| - n] + [EndReturn(items[|items| - n..])], n)
  {
    hide EvalItems, LeaveBody, Gives, Kept, Listings;
    var k := |items| - n;
    var pre, cs, all := items[..k], items[k..], items[..k] + [EndReturn(items[k..])];
    assert items == pre + cs;
    ReturnKept(pre, cs);
    forall sem: Sem, ts: TState ensures ExitAlikeAt(Place(sem, m, f, labels), items, all, n, ts) {
      var x := Place(sem, m, f, labels);
      var p := EvalItems(x, pre, ts);
      if Singles(m, f, labels, cs) {
        SinglesCount(x, cs, p.ts);
      } else {
        assert NeverAt(x, items, ts);
      }
      EndReturnAt(x, pre, cs, n, ts);
    }
  }

  lemma EndReturnAt(x: Place, pre: seq<Node>, cs: seq<Node>, n: nat, ts: TState)
    requires |x.labels| == 1
    requires var c := EvalItems(x, cs, EvalItems(x, pre, ts).ts);
             c.out.Normal? ==> |c.vals| == n || !EvalItems(x, pre + cs, ts).out.Normal?
    ensures ExitAlikeAt(x, pre + cs, pre + [EndReturn(cs)], n, ts)
  {
    hide EvalItems;
    EvalThen(x, pre, cs, ts);
    EvalThen(x, pre, [EndReturn(cs)], ts);
    var p := EvalItems(x, pre, ts);
    EvalOne(x, EndReturn(cs), p.ts);
    var c := EvalItems(x, cs, p.ts);
    if p.out.Normal? && c.out.Normal? {
      assert LastN(p.vals + c.vals, n) == c.vals;
    }
  }

  lemma {:induction false} EvalDecls(x: Place, decls: seq<Node>, ts: TState)
    requires forall d | d in decls :: d.Decl?
    ensures EvalItems(x, decls, ts) == TResult(Normal, [], ts)
  {
    if decls != [] {
      EvalDecls(x, decls[1..], ts);
      assert decls[0] in decls && decls[0].Decl?;
      assert EvalNode(x, decls[0], ts) == TResult(Normal, [], ts);
      var none: seq<nat> := [];
      assert none + none == none;
    }
  }

  /** Declarations can come first. */
  lemma DeclsFirst(
    m: Module, f: Func, labels: seq<LabelInfo>, items: seq<Node>, decls: seq<Node>, ended: seq<Node>, n: nat)
    requires ExitAlike(m, f, labels, items, ended, n) && forall d | d in decls :: d.Decl?
    ensures ExitAlike(m, f, labels, items, decls + ended, n)
  {
    hide EvalItems, LeaveBody, Kept, Listings;
    var all := decls + ended;
    DeclsKept(Listings(items), decls, ended);
    forall sem: Sem, ts: TState ensures ExitAlikeAt(Place(sem, m, f, labels), items, all, n, ts) {
      var x := Place(sem, m, f, labels);
      assert ExitAlikeAt(x, items, ended, n, ts);
      EvalDecls(x, decls, ts);
      EvalThen(x, decls, ended, ts);
      var t := EvalItems(x, ended, ts);
      assert [] + t.vals == t.vals;
    }
  }

  /** The items of a function body, ended as a function, run as the function does. */
  lemma {:induction false} FunctionRuns(
    m: Module, f: Func, labels: seq<LabelInfo>, items: seq<Node>, all: seq<Node>, root: Node)
    requires labels == [LabelInfo("", |f.sig.results|)]
    requires Continues(m, f, labels, f.body, Nil, items, |f.sig.results|)
    requires ExitAlike(m, f, labels, items, all, |f.sig.results|)
    requires root == Statements(all) || all == [root]
    ensures RunsAs(m, f, root) && Kept(Flatten(f.body), Listing(root))
  {
    hide ContinuesAt, EvalItems, LeaveBody, ExecList, EvalFunc, RunFunc, ExitAlikeAt, Kept, ConstMoved, Listings,
      Listing, Flatten;
    FunctionKept(f.body, items, all, root);
    forall sem: Sem, i: nat, args: seq<nat>, world: World, fuel: nat, temps: map<nat, nat>
      | i < |m.funcs| && m.funcs[i] == f
      ensures EvalFunc(sem, m, f, root, args, world, fuel, temps) == RunFunc(sem, m, i, args, world, fuel)
    {
      var x := Place(sem, m, f, labels);
      var ts := TState(args + Zeros(|f.locals|), world, fuel, temps);
      assert ContinuesAt(x, f.body, Nil, items, |f.sig.results|, [], ts);
      assert ExitAlikeAt(x, items, all, |f.sig.results|, ts);
      if root != Statements(all) { EvalOne(x, root, ts); }
      FunctionRun(x, i, items, all, root, args, ts);
    }
  }

  lemma FunctionRun(x: Place, i: nat, items: seq<Node>, all: seq<Node>, root: Node, args: seq<nat>, ts: TState)
    requires i < |x.m.funcs| && x.m.funcs[i] == x.f && x.labels == [LabelInfo("", |x.f.sig.results|)]
    requires ts.locals == args + Zeros(|x.f.locals|)
    requires ContinuesAt(x, x.f.body, Nil, items, |x.f.sig.results|, [], ts)
    requires ExitAlikeAt(x, items, all, |x.f.sig.results|, ts)
    requires root == Statements(all) || EvalItems(x, all, ts) == EvalNode(x, root, ts)
    ensures EvalFunc(x.sem, x.m, x.f, root, args, ts.world, ts.fuel, ts.temps)
            == RunFunc(x.sem, x.m, i, args, ts.world, ts.fuel)
  {
    hide EvalItems;
    var n := |x.f.sig.results|;
    var t, r := EvalItems(x, items, ts), Exec(x, x.f.body, ts.Machine([]));
    assert EvalItems(x, all, ts)
      == EvalNode(x, root, ts) by { if root == Statements(all) { StatementsEval(x, all, ts); } }
    assert ts == TState(args + Zeros(|x.f.locals|), ts.world, ts.fuel, ts.temps);
    if t.out.Normal? {
      assert [] + LastN(t.vals, n) == LastN(t.vals, n);
    } else if t.out == Branch(0) {
      assert |t.vals| == n;
    }
  }

  lemma StatementsEval(x: Place, all: seq<Node>, ts: TState)
    ensures EvalNode(x, Statements(all), ts) == EvalItems(x, all, ts)
  {}
}

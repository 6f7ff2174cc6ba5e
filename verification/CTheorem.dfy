/** The main induction: every expression, list and function is simulated by its code. */
module CTheorem {
  import opened Util
  import opened Wasm
  import opened Validation
  import opened CLang
  import opened CCompile
  import opened CSimulation
  import opened CRefinement

  /** What is required of an expression translated in context `x` on type stack `ts`. */
  ghost predicate Ready(x: Ctx, ts: seq<ValType>, inner: set<string>, w: State, c: CState<Sym>) {
    x.Ok() && x.base <= |ts| && Related(x.f, ts, w, c) && Fresh(x.labels, inner)
  }

  ghost predicate ReadyExpr(x: Ctx, ts: seq<ValType>, e: Expr, whole: seq<Stmt>, a: nat, w: State, c: CState<Sym>) {
    && Ready(x, ts, LabelsOf(e), w, c)
    && !CheckExpr(x.m, x.f, x.labels, x.base, ts, e).Invalid?
    && NamedExpr(|x.labels|, e) && DistinctLabels(e)
    && UniqueLabels(whole) && CodeAt(whole, a, CompileExpr(x.m, x.f, x.labels, ts, e).stmts)
  }

  ghost predicate ReadyList(
    x: Ctx, ts: seq<ValType>, es: ExprList, whole: seq<Stmt>, a: nat, w: State, c: CState<Sym>)
  {
    && Ready(x, ts, LabelsOfList(es), w, c)
    && !CheckList(x.m, x.f, x.labels, x.base, ts, es).Invalid?
    && NamedList(|x.labels|, es) && DistinctLabelsList(es)
    && UniqueLabels(whole) && CodeAt(whole, a, CompileList(x.m, x.f, x.labels, ts, es).stmts)
  }

  ghost predicate SimulatedExpr(
    x: Ctx, ts: seq<ValType>, e: Expr, whole: seq<Stmt>, a: nat, w: State, c: CState<Sym>, c': CState<Sym>)
    requires x.labels != []
  {
    var code := CompileExpr(x.m, x.f, x.labels, ts, e);
    && a + |code.stmts| <= |whole|
    && Simulates(x, ts, CheckExpr(x.m, x.f, x.labels, x.base, ts, e), code.used, whole, a, a + |code.stmts|,
                 w, ExecExpr(x.sem, x.m, x.f, Infos(x.labels), e, w), c, c')
  }

  ghost predicate SimulatedList(
    x: Ctx, ts: seq<ValType>, es: ExprList, whole: seq<Stmt>, a: nat, w: State, c: CState<Sym>, c': CState<Sym>)
    requires x.labels != []
  {
    var code := CompileList(x.m, x.f, x.labels, ts, es);
    && a + |code.stmts| <= |whole|
    && Simulates(x, ts, CheckList(x.m, x.f, x.labels, x.base, ts, es), code.used, whole, a, a + |code.stmts|,
                 w, ExecList(x.sem, x.m, x.f, Infos(x.labels), es, w), c, c')
  }

  // ----- jumps -----

  /** The target of an unconditional branch; `return` branches to the function label. */
  function BrTarget(x: Ctx, e: Expr): Var
    requires (e.Br? || e.Return?) && x.labels != []
  {
    if e.Br? then e.x else Index(|x.labels| - 1)
  }

  lemma BrShape(x: Ctx, ts: seq<ValType>, e: Expr, w: State)
    requires (e.Br? || e.Return?) && x.labels != [] && NamedExpr(|x.labels|, e)
    requires !CheckExpr(x.m, x.f, x.labels, x.base, ts, e).Invalid?
    ensures var v := BrTarget(x, e);
            && CompileExpr(x.m, x.f, x.labels, ts, e)
              == Code(GotoStmts(x.labels, ts, v), ts, {FindLabelIndex(x.labels, v)})
            && CheckExpr(x.m, x.f, x.labels, x.base, ts, e) == Dead
            && ExecExpr(x.sem, x.m, x.f, Infos(x.labels), e, w) == BranchTo(Infos(x.labels), v, w)
            && ValidBranch(x.labels, x.base, ts, v) && NamedLabel(|x.labels|, v)
  {
    hide ExecList, CheckList, CompileList, NamedList, GotoStmts, EndsWith;
  }

  lemma {:induction false} SimBr(
    x: Ctx, ts: seq<ValType>, e: Expr, whole: seq<Stmt>, a: nat, w: State, c: CState<Sym>)
    returns (c': CState<Sym>)
    requires (e.Br? || e.Return?) && ReadyExpr(x, ts, e, whole, a, w, c)
    ensures SimulatedExpr(x, ts, e, whole, a, w, c, c')
  {
    hide Simulates, Related, ExecExpr, CheckExpr, CompileExpr, NamedExpr, CodeAt, BranchTo, ValidBranch, GotoStmts,
      ValidModule, WritableModule, FindLabelIndex, DistinctLabels, LabelsOf, UniqueLabels, Infos, NamedLabel;
    BrShape(x, ts, e, w);
    c' := SimGoto(x, ts, BrTarget(x, e), whole, a, w, c);
    assert CodeAt(whole, a, CompileExpr(x.m, x.f, x.labels, ts, e).stmts);
    CodeFits(whole, a, CompileExpr(x.m, x.f, x.labels, ts, e).stmts);
  }

  lemma CodeFits(whole: seq<Stmt>, a: nat, code: seq<Stmt>)
    requires CodeAt(whole, a, code)
    ensures a + |code| <= |whole|
  {}

  /** A condition has been dropped from the operand stack. */
  lemma AfterCondition(x: Ctx, ts: seq<ValType>, w: State, c: CState<Sym>)
    requires x.base <= |ts| && Related(x.f, ts, w, c) && EndsWith(x.base, ts, [I32])
    ensures Related(x.f, ts[..|ts| - 1], DropN(w, 1), c) && DropTypes(ts, 1) == ts[..|ts| - 1]
    ensures StackVar(ts, 0) in c.vars && c.vars[StackVar(ts, 0)] == Top(w, 0)
    ensures KeepsBase(x.base, w, DropN(w, 1))
  {
    DropSlots(x.f, ts, |ts| - 1, w, c, DropN(w, 1));
    ReadSlot(x.f, ts, 0, w, c);
  }

  lemma ArrivedWider(f: Func, ts: seq<ValType>, l: Label, w: State, c: CState<Sym>)
    requires ts != [] && Arrived(f, ts[..|ts| - 1], l, w, c)
    ensures Arrived(f, ts, l, w, c)
  {
    forall k | 0 <= k < l.height
      ensures Holds(c, k, ts[k], w.stack[k])
    {
      assert Holds(c, k, ts[..|ts| - 1][k], w.stack[k]);
    }
  }

  /** A jump nested in the statement at `a`, taken after one operand was dropped. */
  lemma NestedJump(
    x: Ctx, ts: seq<ValType>, v: Var, used: set<nat>, typing: Typing, whole: seq<Stmt>, a: nat, w: State,
    c: CState<Sym>)
    returns (c': CState<Sym>)
    requires x.Ok() && x.base <= |ts| && Related(x.f, ts, w, c) && EndsWith(x.base, ts, [I32])
    requires ValidBranch(x.labels, x.base, ts[..|ts| - 1], v) && NamedLabel(|x.labels|, v)
    requires a < |whole| && FindLabelIndex(x.labels, v) in used
    requires ExecStmt(x.sem, x.Prog(), whole[a], c)
             == ExecFrom(x.sem, x.Prog(), GotoStmts(x.labels, ts[..|ts| - 1], v), 0, c)
    ensures Simulates(x, ts, typing, used, whole, a, a + 1, w, BranchTo(Infos(x.labels), v, DropN(w, 1)), c, c')
  {
    hide ExecFrom, Jump, ExecStmt, CompileModule, ValidModule, WritableModule, LocalsRelated, SlotsRelated, BranchTo,
      ValidBranch, FindLabelIndex;
    AfterCondition(x, ts, w, c);
    c' := SimGotoNested(x, ts[..|ts| - 1], v, DropN(w, 1), c);
    RunStatement(x.sem, x.Prog(), whole, a, c);
    ArrivedWider(x.f, ts, x.labels[FindLabelIndex(x.labels, v)], DropN(w, 1), c');
  }

  lemma BrIfFacts(x: Ctx, ts: seq<ValType>, e: Expr, w: State)
    requires e.BrIf? && x.labels != [] && |w.stack| == |ts|
    requires !CheckExpr(x.m, x.f, x.labels, x.base, ts, e).Invalid? && NamedExpr(|x.labels|, e)
    ensures EndsWith(x.base, ts, [I32])
    ensures var ts1 := ts[..|ts| - 1];
            && CheckExpr(x.m, x.f, x.labels, x.base, ts, e) == Typed(ts1)
            && ValidBranch(x.labels, x.base, ts1, e.x) && NamedLabel(|x.labels|, e.x)
            && CompileExpr(x.m, x.f, x.labels, ts, e).stmts == [CIf(StackVar(ts, 0), GotoStmts(x.labels, ts1, e.x), [])]
            && CompileExpr(x.m, x.f, x.labels, ts, e).used == {FindLabelIndex(x.labels, e.x)}
            && ExecExpr(x.sem, x.m, x.f, Infos(x.labels), e, w)
               == if Top(w, 0) != 0 then BranchTo(Infos(x.labels), e.x, DropN(w, 1)) else Result(Normal, DropN(w, 1))
  {}

  lemma {:induction false} SimBrIf(
    x: Ctx, ts: seq<ValType>, e: Expr, whole: seq<Stmt>, a: nat, w: State, c: CState<Sym>)
    returns (c': CState<Sym>)
    requires e.BrIf? && ReadyExpr(x, ts, e, whole, a, w, c)
    ensures SimulatedExpr(x, ts, e, whole, a, w, c, c')
  {
    hide CheckExpr, CompileExpr, ExecExpr, NamedExpr, DistinctLabels, ValidBranch, GotoStmts, FindLabelIndex, BranchTo,
      ExecStmt, ExecFrom;
    BrIfFacts(x, ts, e, w);
    AfterCondition(x, ts, w, c);
    var ts1 := ts[..|ts| - 1];
    RunIf(x.sem, x.Prog(), StackVar(ts, 0), GotoStmts(x.labels, ts1, e.x), [], c);
    CodeAtNth(whole, a, CompileExpr(x.m, x.f, x.labels, ts, e).stmts, 0);
    if Top(w, 0) != 0 {
      c' := NestedJump(x, ts, e.x, {FindLabelIndex(x.labels, e.x)}, Typed(ts1), whole, a, w, c);
    } else {
      c' := c;
      RunNothing(x.sem, x.Prog(), c);
      RunStatement(x.sem, x.Prog(), whole, a, c);
    }
  }

  lemma RunNothing(sem: Sem, p: CProg<Sym>, c: CState<Sym>)
    ensures ExecFrom(sem, p, [], 0, c) == CResult(CNormal, c)
  {}

  /** A `switch` runs one arm, unless control falls out of it. */
  lemma RunArm(sem: Sem, p: CProg<Sym>, v: Sym, arms: seq<Arm<Sym>>, n: nat, c: CState<Sym>)
    requires n < |arms| && v in c.vars && (c.vars[v] == n || (c.vars[v] >= |arms| && n == |arms| - 1))
    requires !ExecFrom(sem, p, arms[n].stmts, 0, c).out.CNormal?
    ensures ExecStmt(sem, p, CSwitch(v, arms), c) == ExecFrom(sem, p, arms[n].stmts, 0, c)
  {}

  /** The target a branch table selects. */
  function Selected(e: Expr, n: nat): Var
    requires e.BrTable?
  {
    if n < |e.targets| then e.targets[n] else e.default_
  }

  lemma TableFacts(x: Ctx, ts: seq<ValType>, e: Expr, w: State)
    requires e.BrTable? && x.labels != [] && |w.stack| == |ts|
    requires !CheckExpr(x.m, x.f, x.labels, x.base, ts, e).Invalid? && NamedExpr(|x.labels|, e)
    ensures EndsWith(x.base, ts, [I32]) && CheckExpr(x.m, x.f, x.labels, x.base, ts, e) == Dead
    ensures var v := Selected(e, Top(w, 0));
            && ValidBranch(x.labels, x.base, ts[..|ts| - 1], v) && NamedLabel(|x.labels|, v)
            && v in e.targets + [e.default_]
            && ExecExpr(x.sem, x.m, x.f, Infos(x.labels), e, w) == BranchTo(Infos(x.labels), v, DropN(w, 1))
  {}

  lemma TableCode(x: Ctx, ts: seq<ValType>, e: Expr, v: Var)
    requires e.BrTable? && x.labels != [] && ts != []
    ensures var all := e.targets + [e.default_];
            var code := CompileExpr(x.m, x.f, x.labels, ts, e);
            && code.stmts == [CSwitch(StackVar(ts, 0), SwitchArms(x.labels, ts[..|ts| - 1], all))]
            && (v in all ==> FindLabelIndex(x.labels, v) in code.used)
  {}

  lemma SimBrTable(
    x: Ctx, ts: seq<ValType>, e: Expr, whole: seq<Stmt>, a: nat, w: State, c: CState<Sym>)
    returns (c': CState<Sym>)
    requires e.BrTable? && ReadyExpr(x, ts, e, whole, a, w, c)
    ensures SimulatedExpr(x, ts, e, whole, a, w, c, c')
  {
    var all := e.targets + [e.default_];
    var code := CompileExpr(x.m, x.f, x.labels, ts, e);
    TableFacts(x, ts, e, w);
    var v := Selected(e, Top(w, 0));
    TableCode(x, ts, e, v);
    CodeAtNth(whole, a, code.stmts, 0);
    var n := if Top(w, 0) < |e.targets| then Top(w, 0) else |e.targets|;
    c' := SimArm(x, ts, v, SwitchArms(x.labels, ts[..|ts| - 1], all), n, code.used, whole, a, w, c);
  }

  /** The arm `n` of a `switch` at `a` jumps to `v`. */
  lemma SimArm(
    x: Ctx, ts: seq<ValType>, v: Var, arms: seq<Arm<Sym>>, n: nat, used: set<nat>,
    whole: seq<Stmt>, a: nat, w: State, c: CState<Sym>)
    returns (c': CState<Sym>)
    requires x.Ok() && x.base <= |ts| && Related(x.f, ts, w, c) && EndsWith(x.base, ts, [I32])
    requires ValidBranch(x.labels, x.base, ts[..|ts| - 1], v) && NamedLabel(|x.labels|, v)
    requires n < |arms| && arms[n].stmts == GotoStmts(x.labels, ts[..|ts| - 1], v)
    requires Top(w, 0) == n || (Top(w, 0) >= |arms| && n == |arms| - 1)
    requires a < |whole| && whole[a] == CSwitch(StackVar(ts, 0), arms) && FindLabelIndex(x.labels, v) in used
    ensures Simulates(x, ts, Dead, used, whole, a, a + 1, w, BranchTo(Infos(x.labels), v, DropN(w, 1)), c, c')
  {
    AfterCondition(x, ts, w, c);
    var c1 := SimGotoNested(x, ts[..|ts| - 1], v, DropN(w, 1), c);
    RunArm(x.sem, x.Prog(), StackVar(ts, 0), arms, n, c);
    c' := NestedJump(x, ts, v, used, Dead, whole, a, w, c);
  }

  // ----- the induction -----

  lemma InnerReady(x: Ctx, ts: seq<ValType>, l: Label, inner: set<string>, outer: set<string>, w: State, c: CState<Sym>)
    requires Ready(x, ts, outer, w, c) && l.height == |ts| && |l.results| <= 1
    requires inner <= outer && l.name !in inner && l.name in outer
    ensures Ready(x.Inner(l), ts, inner, w, c)
    ensures Infos(x.Inner(l).labels) == Infos(x.labels) + [LabelInfo(l.name, |l.BranchTypes()|)]
  {
    InfosSnoc(x.labels, l);
  }

  /** A nested list that validates ends with the declared results, or not at all. */
  lemma BodyFacts(x: Ctx, l: Label, ts: seq<ValType>, body: ExprList)
    requires !CheckBody(x.m, x.f, x.Inner(l).labels, ts, l.results, body).Invalid? && l.height == |ts|
    ensures |l.results| <= 1
    ensures var t := CheckList(x.m, x.f, x.Inner(l).labels, x.Inner(l).base, ts, body);
            !t.Invalid? && (t.Typed? ==> t == Typed(ts + l.results))
  {}

  function BlockLabelOf(ts: seq<ValType>, e: Expr): Label
    requires e.Block?
  {
    Label(BlockLabel, e.name, e.results, |ts|)
  }

  lemma BlockCode(x: Ctx, ts: seq<ValType>, e: Expr, whole: seq<Stmt>, a: nat)
    requires e.Block? && x.labels != [] && CodeAt(whole, a, CompileExpr(x.m, x.f, x.labels, ts, e).stmts)
    ensures var l := BlockLabelOf(ts, e);
            var code := CompileList(x.m, x.f, x.Inner(l).labels, ts, e.body);
            CodeAt(whole, a, code.stmts) && CodeAt(whole, a + |code.stmts|, DeclOf(x, l, code.used))
  {
    var code := CompileList(x.m, x.f, x.Inner(BlockLabelOf(ts, e)).labels, ts, e.body);
    CodeAtConcat(whole, a, code.stmts, LabelDecl(code, |x.labels|, e.name));
  }

  lemma BlockReady(x: Ctx, ts: seq<ValType>, e: Expr, whole: seq<Stmt>, a: nat, w: State, c: CState<Sym>)
    requires e.Block? && ReadyExpr(x, ts, e, whole, a, w, c)
    ensures var l := BlockLabelOf(ts, e);
            var code := CompileList(x.m, x.f, x.Inner(l).labels, ts, e.body);
            && ReadyList(x.Inner(l), ts, e.body, whole, a, w, c)
            && CodeAt(whole, a + |code.stmts|, DeclOf(x, l, code.used))
  {
    hide LocalsRelated, SlotsRelated, ValidModule, WritableModule, CodeAt, CompileExpr, CompileList, UniqueLabels,
      ReadyList, Ready;
    BlockParts(x, ts, e, whole, a, w, c);
    var l := BlockLabelOf(ts, e);
    BodyFacts(x, l, ts, e.body);
    InnerReady(x, ts, l, LabelsOfList(e.body), LabelsOf(e), w, c);
    BlockCode(x, ts, e, whole, a);
    BlockAssembled(x, ts, e, whole, a, w, c);
  }

  lemma BlockParts(x: Ctx, ts: seq<ValType>, e: Expr, whole: seq<Stmt>, a: nat, w: State, c: CState<Sym>)
    requires e.Block? && ReadyExpr(x, ts, e, whole, a, w, c)
    ensures x.labels != [] && Ready(x, ts, LabelsOf(e), w, c) && UniqueLabels(whole)
    ensures CodeAt(whole, a, CompileExpr(x.m, x.f, x.labels, ts, e).stmts)
    ensures !CheckBody(x.m, x.f, x.Inner(BlockLabelOf(ts, e)).labels, ts, e.results, e.body).Invalid?
    ensures e.name !in LabelsOfList(e.body) && DistinctLabelsList(e.body) && NamedList(|x.labels| + 1, e.body)
  {
    hide LocalsRelated, SlotsRelated, ValidModule, WritableModule, CodeAt, CompileExpr, UniqueLabels;
  }

  lemma BlockAssembled(x: Ctx, ts: seq<ValType>, e: Expr, whole: seq<Stmt>, a: nat, w: State, c: CState<Sym>)
    requires e.Block? && x.labels != [] && UniqueLabels(whole)
    requires var y := x.Inner(BlockLabelOf(ts, e));
             && Ready(y, ts, LabelsOfList(e.body), w, c)
             && !CheckList(x.m, x.f, y.labels, y.base, ts, e.body).Invalid?
             && CodeAt(whole, a, CompileList(x.m, x.f, y.labels, ts, e.body).stmts)
    requires DistinctLabelsList(e.body) && NamedList(|x.labels| + 1, e.body)
    ensures ReadyList(x.Inner(BlockLabelOf(ts, e)), ts, e.body, whole, a, w, c)
  {
    hide Ready, CheckList, CompileList, CodeAt, UniqueLabels;
  }

  lemma BlockDone(
    x: Ctx, ts: seq<ValType>, e: Expr, whole: seq<Stmt>, a: nat, w: State, c: CState<Sym>, c': CState<Sym>)
    requires e.Block? && x.labels != [] && x.base <= |ts| == |w.stack| && UniqueLabels(whole)
    requires var l := BlockLabelOf(ts, e);
             var code := CompileList(x.m, x.f, x.Inner(l).labels, ts, e.body);
             && !CheckBody(x.m, x.f, x.Inner(l).labels, ts, l.results, e.body).Invalid?
             && SimulatedList(x.Inner(l), ts, e.body, whole, a, w, c, c')
             && CodeAt(whole, a + |code.stmts|, DeclOf(x, l, code.used))
    ensures SimulatedExpr(x, ts, e, whole, a, w, c, c')
  {
    hide Simulates, ExecList, UniqueLabels, ExecFrom, ExecStmt, CompileModule, CheckList, Leave;
    var l := BlockLabelOf(ts, e);
    var y := x.Inner(l);
    BodyFacts(x, l, ts, e.body);
    InfosSnoc(x.labels, l);
    var code := CompileList(x.m, x.f, y.labels, ts, e.body);
    var q := a + |code.stmts|;
    var r := ExecList(x.sem, x.m, x.f, Infos(y.labels), e.body, w);
    Weaken(y, ts, CheckList(x.m, x.f, y.labels, y.base, ts, e.body), Typed(ts + e.results), code.used, code.used,
           whole, a, q, w, r, c, c');
    LeaveBlock(x, ts, l, code.used, whole, a, q, w, r, c, c');
  }

  lemma SimBlock(
    x: Ctx, ts: seq<ValType>, e: Expr, whole: seq<Stmt>, a: nat, w: State, c: CState<Sym>)
    returns (c': CState<Sym>)
    requires e.Block? && ReadyExpr(x, ts, e, whole, a, w, c)
    ensures SimulatedExpr(x, ts, e, whole, a, w, c, c')
    decreases w.fuel, 1, e, 0
  {
    BlockReady(x, ts, e, whole, a, w, c);
    c' := SimList(x.Inner(BlockLabelOf(ts, e)), ts, e.body, whole, a, w, c);
    BlockDone(x, ts, e, whole, a, w, c, c');
  }

  function LoopLabelOf(ts: seq<ValType>, e: Expr): Label
    requires e.Loop?
  {
    Label(LoopLabel, e.name, e.results, |ts|)
  }

  /** The facts about a loop with a body, apart from those about its body's run. */
  ghost predicate LoopShape(x: Ctx, ts: seq<ValType>, e: Expr, whole: seq<Stmt>, a: nat, w: State, c: CState<Sym>)
    requires e.Loop? && x.labels != []
  {
    var l := LoopLabelOf(ts, e);
    var code := CompileList(x.m, x.f, x.Inner(l).labels, ts, e.body);
    && x.base <= |ts| == |w.stack|
    && Infos(x.Inner(l).labels) == Infos(x.labels) + [LabelInfo(l.name, 0)]
    && !CheckBody(x.m, x.f, x.Inner(l).labels, ts, l.results, e.body).Invalid?
    && UniqueLabels(whole)
    && CodeAt(whole, a, [CLabel(Named(e.name))]) && CodeAt(whole, a + 1, code.stmts)
    && (forall i | 0 <= i < |x.labels| && a + 1 < |whole| && code.stmts != [] ::
      whole[a + 1] != CLabel(LabelSym(x.labels, i)))
    && ExecFrom(x.sem, x.Prog(), whole, a, c) == ExecFrom(x.sem, x.Prog(), whole, a + 1, c)
  }

  lemma LoopReady(x: Ctx, ts: seq<ValType>, e: Expr, whole: seq<Stmt>, a: nat, w: State, c: CState<Sym>)
    requires e.Loop? && e.body.Cons? && ReadyExpr(x, ts, e, whole, a, w, c)
    ensures ReadyList(x.Inner(LoopLabelOf(ts, e)), ts, e.body, whole, a + 1, w, c)
    ensures LoopShape(x, ts, e, whole, a, w, c)
  {
    var l := LoopLabelOf(ts, e);
    var y := x.Inner(l);
    BodyFacts(x, l, ts, e.body);
    InnerReady(x, ts, l, LabelsOfList(e.body), LabelsOf(e), w, c);
    var code := CompileList(x.m, x.f, y.labels, ts, e.body);
    CodeAtConcat(whole, a, [CLabel(Named(e.name))], code.stmts);
    PassLabel(x.sem, x.Prog(), whole, a, [CLabel(Named(e.name))], e.name, c);
    CodeLabelsList(x.m, x.f, y.labels, ts, e.body);
    forall i | 0 <= i < |x.labels| && a + 1 < |whole| && code.stmts != []
      ensures whole[a + 1] != CLabel(LabelSym(x.labels, i))
    {
      EnclosingNotInside(x, whole, a + 1, code.stmts, LabelsOfList(e.body), i);
    }
  }

  /** From the body, which starts after the label, to the whole loop: fuel ran out, the body ended,
      or it branched further out. */
  lemma LoopSteps(
    x: Ctx, ts: seq<ValType>, l: Label, used: set<nat>, whole: seq<Stmt>, a: nat, b: nat, w: State, r: Result,
    c: CState<Sym>, c1: CState<Sym>)
    requires x.labels != [] && x.base <= |ts| == |w.stack| && l.kind.LoopLabel? && l.height == |ts|
    requires UniqueLabels(whole) && CodeAt(whole, a, [CLabel(Named(l.name))]) && a + 1 <= b <= |whole|
    requires forall i | 0 <= i < |x.labels| && a + 1 < b :: whole[a + 1] != CLabel(LabelSym(x.labels, i))
    requires ExecFrom(x.sem, x.Prog(), whole, a, c) == ExecFrom(x.sem, x.Prog(), whole, a + 1, c)
    requires Simulates(x.Inner(l), ts, Typed(ts + l.results), used, whole, a + 1, b, w, r, c, c1)
    requires r.out == Branch(0) ==> r.st.fuel == 0
    ensures var r' := if r.out == Branch(0) then r.(out := Exhausted) else Leave(w, 0, r);
            Simulates(x, ts, Typed(ts + l.results), used - {|x.labels|}, whole, a, b, w, r', c, c1)
  {
    hide ExecFrom, Jump, ExecStmt, CompileModule, Related, SlotsRelated, LocalsRelated;
    if r.out == Branch(0) {
      CodeAtNth(whole, a, [CLabel(Named(l.name))], 0);
      JumpBack(x.sem, x.Prog(), whole, a, a + 1, Named(l.name), c1);
      assert LabelSym(x.Inner(l).labels, |x.labels|) == Named(l.name);
    } else if r.out.Branch? {
      LeaveToOuter(x, ts, Typed(ts + l.results), l, used, whole, a + 1, b, b, w, r, 0, c, c1);
      JumpShift(x.sem, x.Prog(), whole, a, a + 1, LabelSym(x.labels, |x.labels| - r.out.depth), c1);
    } else if r.out.Normal? {
      KeepsLess(x.base, |ts|, w, r.st);
    }
  }

  /** The loop is left, or runs out of fuel. */
  lemma LoopExit(
    x: Ctx, ts: seq<ValType>, e: Expr, whole: seq<Stmt>, a: nat, w: State, r: Result, c: CState<Sym>, c1: CState<Sym>)
    requires e.Loop? && e.body.Cons? && x.labels != [] && LoopShape(x, ts, e, whole, a, w, c)
    requires SimulatedList(x.Inner(LoopLabelOf(ts, e)), ts, e.body, whole, a + 1, w, c, c1)
    requires r == ExecList(x.sem, x.m, x.f, Infos(x.Inner(LoopLabelOf(ts, e)).labels), e.body, w)
    requires r.out == Branch(0) ==> r.st.fuel == 0
    ensures SimulatedExpr(x, ts, e, whole, a, w, c, c1)
  {
    hide Simulates, ExecList, UniqueLabels, ExecFrom, CompileList, CheckList, Related;
    var l := LoopLabelOf(ts, e);
    var y := x.Inner(l);
    var code := CompileList(x.m, x.f, y.labels, ts, e.body);
    BodyFacts(x, l, ts, e.body);
    Weaken(y, ts, CheckList(x.m, x.f, y.labels, y.base, ts, e.body), Typed(ts + e.results), code.used, code.used,
           whole, a + 1, a + 1 + |code.stmts|, w, r, c, c1);
    LoopSteps(x, ts, l, code.used, whole, a, a + 1 + |code.stmts|, w, r, c, c1);
  }

  lemma RestartRelated(
    f: Func, ts: seq<ValType>, l: Label, w: State, w1: State, c1: CState<Sym>, w2: State, c2: CState<Sym>)
    requires |w.stack| == |ts| == l.height && KeepsBase(|ts|, w, w1) && Arrived(f, ts, l, w1, c1)
    requires w1.fuel > 0 && w2 == w1.(stack := w.stack, fuel := w1.fuel - 1) && c2 == c1.(fuel := w1.fuel - 1)
    ensures Related(f, ts, w2, c2)
  {
    forall k | 0 <= k < |ts|
      ensures Holds(c2, k, ts[k], w2.stack[k])
    {
      assert Holds(c1, k, ts[k], w1.stack[k]);
      assert w1.stack[..|ts|][k] == w.stack[..|ts|][k];
    }
  }

  /** A branch back to the loop: both sides start over with one unit of fuel less. */
  lemma LoopAgain(
    x: Ctx, ts: seq<ValType>, e: Expr, whole: seq<Stmt>, a: nat, w: State, r: Result, c: CState<Sym>, c1: CState<Sym>)
    returns (w2: State, c2: CState<Sym>)
    requires e.Loop? && e.body.Cons? && x.labels != [] && LoopShape(x, ts, e, whole, a, w, c)
    requires SimulatedList(x.Inner(LoopLabelOf(ts, e)), ts, e.body, whole, a + 1, w, c, c1)
    requires r == ExecList(x.sem, x.m, x.f, Infos(x.Inner(LoopLabelOf(ts, e)).labels), e.body, w)
    requires r.out == Branch(0) && r.st.fuel > 0
    ensures w2.fuel < w.fuel && w2.stack == w.stack && Related(x.f, ts, w2, c2)
    ensures ExecExpr(x.sem, x.m, x.f, Infos(x.labels), e, w) == ExecExpr(x.sem, x.m, x.f, Infos(x.labels), e, w2)
    ensures ExecFrom(x.sem, x.Prog(), whole, a, c) == ExecFrom(x.sem, x.Prog(), whole, a, c2)
  {
    hide ExecFrom, Jump, ExecStmt, CompileModule, LocalsRelated, SlotsRelated, CheckBody, CompileList, ExecList;
    var l := LoopLabelOf(ts, e);
    var y := x.Inner(l);
    w2 := r.st.(stack := w.stack, fuel := r.st.fuel - 1);
    c2 := c1.(fuel := r.st.fuel - 1);
    assert y.labels[|x.labels|] == l && LabelSym(y.labels, |x.labels|) == Named(l.name);
    CodeAtNth(whole, a, [CLabel(Named(e.name))], 0);
    JumpBack(x.sem, x.Prog(), whole, a, a + 1, Named(e.name), c1);
    RestartRelated(x.f, ts, l, w, r.st, c1, w2, c2);
  }

  lemma SimLoop(
    x: Ctx, ts: seq<ValType>, e: Expr, whole: seq<Stmt>, a: nat, w: State, c: CState<Sym>)
    returns (c': CState<Sym>)
    requires e.Loop? && ReadyExpr(x, ts, e, whole, a, w, c)
    ensures SimulatedExpr(x, ts, e, whole, a, w, c, c')
    decreases w.fuel, 1, e, 0
  {
    if e.body.Nil? {
      c' := c;
      EmptyLoop(x, ts, e, whole, a, w, c);
    } else {
      LoopReady(x, ts, e, whole, a, w, c);
      c' := SimList(x.Inner(LoopLabelOf(ts, e)), ts, e.body, whole, a + 1, w, c);
      var r := ExecList(x.sem, x.m, x.f, Infos(x.Inner(LoopLabelOf(ts, e)).labels), e.body, w);
      if r.out == Branch(0) && r.st.fuel > 0 {
        var w2, c2 := LoopAgain(x, ts, e, whole, a, w, r, c, c');
        c' := SimLoop(x, ts, e, whole, a, w2, c2);
        SameRun(x, ts, e, whole, a, w, w2, c, c2, c');
      } else {
        LoopExit(x, ts, e, whole, a, w, r, c, c');
      }
    }
  }

  /** A loop without a body, for which nothing is written: its type has no results. */
  lemma EmptyLoop(x: Ctx, ts: seq<ValType>, e: Expr, whole: seq<Stmt>, a: nat, w: State, c: CState<Sym>)
    requires e.Loop? && e.body.Nil? && ReadyExpr(x, ts, e, whole, a, w, c)
    ensures SimulatedExpr(x, ts, e, whole, a, w, c, c)
  {
    BodyFacts(x, LoopLabelOf(ts, e), ts, e.body);
    assert ts == ts + e.results;
    assert e.results == [] by { assert |ts| == |ts + e.results|; }
  }

  lemma SameRun(
    x: Ctx, ts: seq<ValType>, e: Expr, whole: seq<Stmt>, a: nat, w: State, w2: State, c: CState<Sym>, c2: CState<Sym>,
    c': CState<Sym>)
    requires x.labels != [] && w2.stack == w.stack && x.base <= |w.stack|
    requires a + |CompileExpr(x.m, x.f, x.labels, ts, e).stmts| <= |whole|
    requires ExecExpr(x.sem, x.m, x.f, Infos(x.labels), e, w) == ExecExpr(x.sem, x.m, x.f, Infos(x.labels), e, w2)
    requires ExecFrom(x.sem, x.Prog(), whole, a, c) == ExecFrom(x.sem, x.Prog(), whole, a, c2)
    requires SimulatedExpr(x, ts, e, whole, a, w2, c2, c')
    ensures SimulatedExpr(x, ts, e, whole, a, w, c, c')
  {
    hide ExecExpr, ExecFrom, CompileExpr, Infos;
  }

  function IfLabelOf(ts: seq<ValType>, e: Expr): Label
    requires e.If? && ts != []
  {
    Label(IfLabel, e.name, e.results, |ts| - 1)
  }

  /** The code of a conditional, taken apart. */
  lemma IfCode(x: Ctx, ts: seq<ValType>, e: Expr, whole: seq<Stmt>, a: nat)
    requires e.If? && x.labels != [] && ts != []
    requires CodeAt(whole, a, CompileExpr(x.m, x.f, x.labels, ts, e).stmts)
    ensures var ts1 := ts[..|ts| - 1];
            var l := Label(IfLabel, e.name, e.results, |ts1|);
            var t := CompileList(x.m, x.f, x.labels + [l], ts1, e.then_);
            var f := CompileList(x.m, x.f, x.labels + [l], ts1, e.else_);
            var code := CompileExpr(x.m, x.f, x.labels, ts, e);
            && a < |whole| && whole[a] == CIf(StackVar(ts, 0), t.stmts, f.stmts)
            && code.used == t.used + f.used - {|x.labels|}
            && |code.stmts| == 1 + |DeclOf(x, l, t.used + f.used)|
            && CodeAt(whole, a + 1, DeclOf(x, l, t.used + f.used))
  {
    var ts1 := ts[..|ts| - 1];
    var l := Label(IfLabel, e.name, e.results, |ts1|);
    var t := CompileList(x.m, x.f, x.labels + [l], ts1, e.then_);
    var f := CompileList(x.m, x.f, x.labels + [l], ts1, e.else_);
    var code := CompileExpr(x.m, x.f, x.labels, ts, e);
    assert code.stmts == [CIf(StackVar(ts, 0), t.stmts, f.stmts)] + DeclOf(x, l, t.used + f.used);
    CodeAtConcat(whole, a, [CIf(StackVar(ts, 0), t.stmts, f.stmts)], DeclOf(x, l, t.used + f.used));
    CodeAtNth(whole, a, code.stmts, 0);
  }

  /** From the type stack without the condition to the one with it. */
  lemma Widen(
    x: Ctx, ts: seq<ValType>, typing: Typing, used: set<nat>, whole: seq<Stmt>, a: nat, b: nat,
    w: State, w1: State, r: Result, c: CState<Sym>, c': CState<Sym>)
    requires a <= b <= |whole| && ts != [] && KeepsBase(x.base, w, w1) && x.base <= |ts| - 1
    requires Simulates(x, ts[..|ts| - 1], typing, used, whole, a, b, w1, r, c, c')
    ensures Simulates(x, ts, typing, used, whole, a, b, w, r, c, c')
  {
    hide ExecFrom, Jump, ExecStmt, CompileModule, LocalsRelated, SlotsRelated;
    if r.out.Branch? {
      ArrivedWider(x.f, ts, x.labels[|x.labels| - 1 - r.out.depth], r.st, c');
    }
  }

  /** The facts about a conditional with the chosen branch `body`, apart from those about its run. */
  ghost predicate IfShape(
    x: Ctx, ts: seq<ValType>, e: Expr, body: ExprList, sub: Code, both: set<nat>, whole: seq<Stmt>, a: nat, w: State,
    c: CState<Sym>)
    requires e.If? && x.labels != [] && ts != []
  {
    var ts1 := ts[..|ts| - 1];
    var l := IfLabelOf(ts, e);
    var code := CompileExpr(x.m, x.f, x.labels, ts, e);
    && x.base <= |ts| - 1 && |w.stack| == |ts| && EndsWith(x.base, ts, [I32])
    && body == (if Top(w, 0) != 0 then e.then_ else e.else_)
    && sub == CompileList(x.m, x.f, x.Inner(l).labels, ts1, body)
    && Infos(x.Inner(l).labels) == Infos(x.labels) + [LabelInfo(l.name, |l.results|)]
    && !CheckBody(x.m, x.f, x.Inner(l).labels, ts1, l.results, body).Invalid?
    && UniqueLabels(whole) && a < |whole|
    && ExecStmt(x.sem, x.Prog(), whole[a], c) == ExecFrom(x.sem, x.Prog(), sub.stmts, 0, c)
    && sub.used <= both && code.used == both - {|x.labels|}
    && |code.stmts| == 1 + |DeclOf(x, l, both)| && CodeAt(whole, a + 1, DeclOf(x, l, both))
    && LabelsWithin(sub.stmts, LabelsOfList(body)) && Fresh(x.Inner(l).labels, LabelsOfList(body))
    && CheckExpr(x.m, x.f, x.labels, x.base, ts, e) == Typed(ts1 + e.results)
  }

  lemma RunIf(sem: Sem, p: CProg<Sym>, v: Sym, t: seq<Stmt>, f: seq<Stmt>, c: CState<Sym>)
    requires v in c.vars
    ensures ExecStmt(sem, p, CIf(v, t, f), c) == ExecFrom(sem, p, if c.vars[v] != 0 then t else f, 0, c)
  {}

  function ChosenBody(e: Expr, w: State): ExprList
    requires e.If? && w.stack != []
  {
    if Top(w, 0) != 0 then e.then_ else e.else_
  }

  lemma IfBodyReady(
    x: Ctx, ts: seq<ValType>, e: Expr, body: ExprList, whole: seq<Stmt>, a: nat, w: State, c: CState<Sym>)
    requires e.If? && ReadyExpr(x, ts, e, whole, a, w, c) && (body == e.then_ || body == e.else_)
    ensures ts != [] && w.stack != [] && EndsWith(x.base, ts, [I32])
    ensures x.labels != [] && x.base < |ts| && Related(x.f, ts, w, c) && UniqueLabels(whole)
    ensures LabelsWithin(CompileList(x.m, x.f, x.Inner(IfLabelOf(ts, e)).labels, ts[..|ts| - 1], body).stmts,
            LabelsOfList(body))
    ensures Fresh(x.Inner(IfLabelOf(ts, e)).labels, LabelsOfList(body))
    ensures var y := x.Inner(IfLabelOf(ts, e));
            var ts1 := ts[..|ts| - 1];
            && ReadyList(y, ts1, body, CompileList(x.m, x.f, y.labels, ts1, body).stmts, 0, DropN(w, 1), c)
            && !CheckBody(x.m, x.f, y.labels, ts1, e.results, body).Invalid?
            && Infos(y.labels) == Infos(x.labels) + [LabelInfo(e.name, |e.results|)]
    ensures CheckExpr(x.m, x.f, x.labels, x.base, ts, e) == Typed(ts[..|ts| - 1] + e.results)
  {
    AfterCondition(x, ts, w, c);
    var ts1 := ts[..|ts| - 1];
    var l := IfLabelOf(ts, e);
    var y := x.Inner(l);
    assert !CheckBody(x.m, x.f, y.labels, ts1, e.results, e.then_).Invalid?;
    assert !CheckBody(x.m, x.f, y.labels, ts1, e.results, e.else_).Invalid?;
    BodyFacts(x, l, ts1, body);
    assert Ready(x, ts1, LabelsOf(e), DropN(w, 1), c);
    InnerReady(x, ts1, l, LabelsOfList(body), LabelsOf(e), DropN(w, 1), c);
    CodeLabelsList(x.m, x.f, y.labels, ts1, body);
  }

  lemma IfReady(x: Ctx, ts: seq<ValType>, e: Expr, whole: seq<Stmt>, a: nat, w: State, c: CState<Sym>)
    returns (body: ExprList, sub: Code, both: set<nat>)
    requires e.If? && ReadyExpr(x, ts, e, whole, a, w, c)
    ensures ts != [] && IfShape(x, ts, e, body, sub, both, whole, a, w, c)
    ensures body < e
    ensures ReadyList(x.Inner(IfLabelOf(ts, e)), ts[..|ts| - 1], body, sub.stmts, 0, DropN(w, 1), c)
  {
    hide ExecFrom, ExecStmt, LocalsRelated, SlotsRelated, CheckExpr, CompileExpr, Fresh, LabelsWithin, LabelsOk, CodeAt,
         CheckBody, CompileList, ReadyList, UniqueLabels;
    IfBodyReady(x, ts, e, e.then_, whole, a, w, c);
    AfterCondition(x, ts, w, c);
    var ts1 := ts[..|ts| - 1];
    var y := x.Inner(IfLabelOf(ts, e));
    body := ChosenBody(e, w);
    sub := CompileList(x.m, x.f, y.labels, ts1, body);
    var t := CompileList(x.m, x.f, y.labels, ts1, e.then_);
    var f := CompileList(x.m, x.f, y.labels, ts1, e.else_);
    both := t.used + f.used;
    IfBodyReady(x, ts, e, body, whole, a, w, c);
    IfCode(x, ts, e, whole, a);
    RunIf(x.sem, x.Prog(), StackVar(ts, 0), t.stmts, f.stmts, c);
  }

  /** The branch of the conditional, seen from outside its label. */
  lemma IfBranchDone(
    x: Ctx, ts: seq<ValType>, e: Expr, body: ExprList, sub: Code, both: set<nat>, whole: seq<Stmt>, a: nat,
    w: State, c: CState<Sym>, c': CState<Sym>)
    requires e.If? && x.labels != [] && ts != [] && IfShape(x, ts, e, body, sub, both, whole, a, w, c)
    requires SimulatedList(x.Inner(IfLabelOf(ts, e)), ts[..|ts| - 1], body, sub.stmts, 0, DropN(w, 1), c, c')
    ensures var l := IfLabelOf(ts, e);
            var r := ExecList(x.sem, x.m, x.f, Infos(x.Inner(l).labels), body, DropN(w, 1));
            Simulates(x.Inner(l), ts[..|ts| - 1], Typed(ts[..|ts| - 1] + e.results), both, whole, a, a + 1,
              DropN(w, 1), r, c, c')
  {
    hide Simulates, ExecList, UniqueLabels, ExecFrom, ExecStmt, CompileExpr, CheckExpr;
    var ts1, w1 := ts[..|ts| - 1], DropN(w, 1);
    var l := IfLabelOf(ts, e);
    var y := x.Inner(l);
    var r := ExecList(x.sem, x.m, x.f, Infos(y.labels), body, w1);
    BodyFacts(x, l, ts1, body);
    Weaken(y, ts1, CheckList(x.m, x.f, y.labels, y.base, ts1, body), Typed(ts1 + e.results), sub.used, both,
           sub.stmts, 0, |sub.stmts|, w1, r, c, c');
    LiftNested(y, ts1, Typed(ts1 + e.results), both, sub.stmts, LabelsOfList(body), whole, a, w1, r, c, c');
  }

  lemma ExecIf(x: Ctx, e: Expr, w: State)
    requires e.If? && w.stack != []
    ensures ExecExpr(x.sem, x.m, x.f, Infos(x.labels), e, w) ==
              Leave(DropN(w, 1), |e.results|,
                ExecList(x.sem, x.m, x.f, Infos(x.labels) + [LabelInfo(e.name, |e.results|)], ChosenBody(e, w),
                  DropN(w, 1)))
  {}

  lemma IfDone(
    x: Ctx, ts: seq<ValType>, e: Expr, body: ExprList, sub: Code, both: set<nat>, whole: seq<Stmt>, a: nat,
    w: State, c: CState<Sym>, c': CState<Sym>)
    requires e.If? && x.labels != [] && ts != [] && IfShape(x, ts, e, body, sub, both, whole, a, w, c)
    requires SimulatedList(x.Inner(IfLabelOf(ts, e)), ts[..|ts| - 1], body, sub.stmts, 0, DropN(w, 1), c, c')
    ensures SimulatedExpr(x, ts, e, whole, a, w, c, c')
  {
    hide Simulates, ExecList, ExecExpr, UniqueLabels, ExecFrom, ExecStmt, CompileExpr, CheckExpr, Leave;
    IfBranchDone(x, ts, e, body, sub, both, whole, a, w, c, c');
    ExecIf(x, e, w);
    var ts1, w1 := ts[..|ts| - 1], DropN(w, 1);
    var l := IfLabelOf(ts, e);
    var r := ExecList(x.sem, x.m, x.f, Infos(x.Inner(l).labels), body, w1);
    LeaveBlock(x, ts1, l, both, whole, a, a + 1, w1, r, c, c');
    var b := a + 1 + |DeclOf(x, l, both)|;
    Widen(x, ts, Typed(ts1 + e.results), both - {|x.labels|}, whole, a, b, w, w1, Leave(w1, |e.results|, r), c, c');
  }

  lemma SimIf(
    x: Ctx, ts: seq<ValType>, e: Expr, whole: seq<Stmt>, a: nat, w: State, c: CState<Sym>)
    returns (c': CState<Sym>)
    requires e.If? && ReadyExpr(x, ts, e, whole, a, w, c)
    ensures SimulatedExpr(x, ts, e, whole, a, w, c, c')
    decreases w.fuel, 1, e, 0
  {
    var body, sub, both := IfReady(x, ts, e, whole, a, w, c);
    c' := SimList(x.Inner(IfLabelOf(ts, e)), ts[..|ts| - 1], body, sub.stmts, 0, DropN(w, 1), c);
    IfDone(x, ts, e, body, sub, both, whole, a, w, c, c');
  }

  lemma SimExpr(
    x: Ctx, ts: seq<ValType>, e: Expr, whole: seq<Stmt>, a: nat, w: State, c: CState<Sym>)
    returns (c': CState<Sym>)
    requires ReadyExpr(x, ts, e, whole, a, w, c)
    ensures SimulatedExpr(x, ts, e, whole, a, w, c, c')
    decreases w.fuel, 1, e, 1
  {
    match e
    case Call(_) => c' := SimCall(x, ts, e, whole, a, w, c);
    case CallIndirect(_) => c' := SimCallIndirect(x, ts, e, whole, a, w, c);
    case Return => c' := SimBr(x, ts, e, whole, a, w, c);
    case Br(_) => c' := SimBr(x, ts, e, whole, a, w, c);
    case BrIf(_) => c' := SimBrIf(x, ts, e, whole, a, w, c);
    case BrTable(_, _) => c' := SimBrTable(x, ts, e, whole, a, w, c);
    case Block(_, _, _) => c' := SimBlock(x, ts, e, whole, a, w, c);
    case Loop(_, _, _) => c' := SimLoop(x, ts, e, whole, a, w, c);
    case If(_, _, _, _) => c' := SimIf(x, ts, e, whole, a, w, c);
    case _ => c' := SimSimpleExpr(x, ts, e, whole, a, w, c);
  }

  lemma SimpleCode(m: Module, f: Func, labels: seq<Label>, ts: seq<ValType>, e: Expr)
    requires IsSimple(e) && labels != []
    ensures CompileExpr(m, f, labels, ts, e) == CompileSimple(m, f, ts, e)
    ensures CompileSimple(m, f, ts, e).used == {}
  {}

  lemma SimpleCheck(m: Module, f: Func, labels: seq<Label>, base: nat, ts: seq<ValType>, e: Expr)
    requires IsSimple(e)
    ensures CheckExpr(m, f, labels, base, ts, e) == CheckSimple(m, f, base, ts, e)
  {
    hide CheckSimple;
  }

  lemma SimpleStep(sem: Sem, m: Module, f: Func, labels: seq<LabelInfo>, depth: nat, e: Expr, w: State)
    requires IsSimple(e)
    ensures ExecExpr(sem, m, f, labels, e, w) == Step(sem, m, f, e, w)
    ensures NamedExpr(depth, e) ==> NamedExpr(0, e)
  {
    hide Step;
  }

  lemma SimpleShape(x: Ctx, ts: seq<ValType>, e: Expr, w: State)
    requires IsSimple(e) && x.labels != []
    ensures CompileExpr(x.m, x.f, x.labels, ts, e) == CompileSimple(x.m, x.f, ts, e)
    ensures CheckExpr(x.m, x.f, x.labels, x.base, ts, e) == CheckSimple(x.m, x.f, x.base, ts, e)
    ensures ExecExpr(x.sem, x.m, x.f, Infos(x.labels), e, w) == Step(x.sem, x.m, x.f, e, w)
    ensures NamedExpr(|x.labels|, e) ==> NamedExpr(0, e)
    ensures CompileSimple(x.m, x.f, ts, e).used == {}
  {
    hide *;
    SimpleCode(x.m, x.f, x.labels, ts, e);
    SimpleCheck(x.m, x.f, x.labels, x.base, ts, e);
    SimpleStep(x.sem, x.m, x.f, Infos(x.labels), |x.labels|, e, w);
  }

  lemma SimSimpleExpr(
    x: Ctx, ts: seq<ValType>, e: Expr, whole: seq<Stmt>, a: nat, w: State, c: CState<Sym>)
    returns (c': CState<Sym>)
    requires IsSimple(e) && ReadyExpr(x, ts, e, whole, a, w, c)
    ensures SimulatedExpr(x, ts, e, whole, a, w, c, c')
  {
    hide Simulates, ExecExpr, CheckExpr, CompileExpr, NamedExpr, CompileSimple, CheckSimple, Step, StepMatches,
         SlotsRelated, LocalsRelated, CompileModule;
    SimpleShape(x, ts, e, w);
    assert Writable(x.f);
    SimSimple(x.sem, x.m, x.f, x.base, ts, e, w, c);
    StepKeepsBase(x, ts, e, w);
    TypesAgreeSimple(x.m, x.f, x.base, ts, e);
    var code := CompileSimple(x.m, x.f, ts, e);
    c' := RunOne(x.sem, x.Prog(), code.stmts, c).st;
    if Step(x.sem, x.m, x.f, e, w).out.Normal? { NormalIsTyped(x, ts, e, w, c); }
    LiftStatement(x, ts, code.types, CheckSimple(x.m, x.f, x.base, ts, e), code.stmts, whole, a,
                  w, Step(x.sem, x.m, x.f, e, w), c);
    CodeFits(whole, a, code.stmts);
  }

  lemma NormalIsTyped(x: Ctx, ts: seq<ValType>, e: Expr, w: State, c: CState<Sym>)
    requires IsSimple(e) && x.labels != [] && x.base <= |ts| && !CheckSimple(x.m, x.f, x.base, ts, e).Invalid?
    requires Step(x.sem, x.m, x.f, e, w).out.Normal?
    ensures CheckSimple(x.m, x.f, x.base, ts, e).Typed?
  {}

  lemma RunCall(sem: Sem, p: CProg<Sym>, res: Option<Sym>, f: Sym, args: seq<Sym>, vals: seq<nat>, c: CState<Sym>)
    requires f in p.fenv && p.fenv[f] < |p.funcs| && Values(args, c) == Some(vals)
    ensures ExecStmt(sem, p, CCall(res, f, args), c) == CallC(sem, p, p.fenv[f], res, vals, c)
  {}

  lemma RunCallIndirect(
    sem: Sem, p: CProg<Sym>, res: Option<Sym>, sig: FuncSig, elem: Sym, args: seq<Sym>, vals: seq<nat>, i: nat,
    c: CState<Sym>)
    requires elem in c.vars && sem.table(c.vars[elem]) == Some(i) && Values(args, c) == Some(vals)
    requires i < |p.funcs| && p.funcs[i].sig == sig
    ensures ExecStmt(sem, p, CCallIndirect(res, sig, elem, args), c) == CallC(sem, p, i, res, vals, c)
  {}

  /** How a direct call is typed, translated and run. */
  lemma CallShape(x: Ctx, ts: seq<ValType>, e: Expr, i: nat, w: State)
    requires e.Call? && x.labels != [] && Resolve(FuncNames(x.m), e.x) == Some(i)
    requires |x.m.funcs[i].sig.params| <= |ts|
    ensures var sig := x.m.funcs[i].sig;
            var k := |ts| - |sig.params|;
            var s: Stmt := CCall(ResultSlot(k, sig.results), GlobalVar(e.x), ArgVars(ts, |sig.params|, 0));
            && CompileExpr(x.m, x.f, x.labels, ts, e) == Code([s], ts[..k] + sig.results, {})
            && ExecExpr(x.sem, x.m, x.f, Infos(x.labels), e, w) == DoCall(x.sem, x.m, i, w)
            && CheckExpr(x.m, x.f, x.labels, x.base, ts, e) == Apply(x.base, ts, sig.params, sig.results)
  {
    hide DoCall;
    var sig := x.m.funcs[i].sig;
    assert ResultVar(ts, |sig.params| - 1, sig.results) == ResultSlot(|ts| - |sig.params|, sig.results);
  }

  /** The emitted statement calls the function the instruction names, with its operands. */
  lemma CallStatement(x: Ctx, ts: seq<ValType>, v: Var, i: nat, res: Option<Sym>, n: nat, w: State, c: CState<Sym>)
    requires v.Name? && Resolve(FuncNames(x.m), v) == Some(i) && Related(x.f, ts, w, c) && n <= |ts|
    ensures ExecStmt(x.sem, x.Prog(), CCall(res, GlobalVar(v), ArgVars(ts, n, 0)), c)
         == CallC(x.sem, x.Prog(), i, res, w.stack[|ts| - n..], c)
  {
    hide ExecStmt, CallC, LocalsRelated, SlotsRelated, CompileFunc, Values, ArgVars;
    ArgumentValues(x.f, ts, n, 0, w, c);
    assert w.stack[|ts| - n..|ts|] == w.stack[|ts| - n..];
    RunCall(x.sem, x.Prog(), res, GlobalVar(v), ArgVars(ts, n, 0), w.stack[|ts| - n..], c);
  }

  lemma CallFacts(
    x: Ctx, ts: seq<ValType>, e: Expr, whole: seq<Stmt>, a: nat, w: State, c: CState<Sym>)
    returns (i: nat)
    requires e.Call? && ReadyExpr(x, ts, e, whole, a, w, c)
    ensures x.Ok() && x.labels != [] && Related(x.f, ts, w, c)
    ensures CodeAt(whole, a, CompileExpr(x.m, x.f, x.labels, ts, e).stmts)
    ensures e.x.Name? && Resolve(FuncNames(x.m), e.x) == Some(i) && i < |x.m.funcs|
    ensures EndsWith(x.base, ts, x.m.funcs[i].sig.params)
    ensures CheckExpr(x.m, x.f, x.labels, x.base, ts, e)
         == Typed(ts[..|ts| - |x.m.funcs[i].sig.params|] + x.m.funcs[i].sig.results)
  {
    i := Resolve(FuncNames(x.m), e.x).value;
  }

  lemma CallDone(x: Ctx, ts: seq<ValType>, e: Expr, i: nat, whole: seq<Stmt>, a: nat, w: State, c: CState<Sym>)
    requires e.Call? && e.x.Name? && x.labels != [] && Related(x.f, ts, w, c)
    requires Resolve(FuncNames(x.m), e.x) == Some(i) && i < |x.m.funcs| && |x.m.funcs[i].sig.params| <= |ts|
    requires CheckExpr(x.m, x.f, x.labels, x.base, ts, e)
         == Typed(ts[..|ts| - |x.m.funcs[i].sig.params|] + x.m.funcs[i].sig.results)
    requires CodeAt(whole, a, CompileExpr(x.m, x.f, x.labels, ts, e).stmts)
    requires CallSimulated(x, ts, i, w, c)
    ensures var k := |ts| - |x.m.funcs[i].sig.params|;
            SimulatedExpr(x, ts, e, whole, a, w, c,
              CallC(x.sem, x.Prog(), i, ResultSlot(k, x.m.funcs[i].sig.results), w.stack[k..], c).st)
  {
    hide ExecStmt, CallC, DoCall, CompileExpr, ExecExpr, CheckExpr, Simulates, LocalsRelated, SlotsRelated;
    var sig := x.m.funcs[i].sig;
    var k := |ts| - |sig.params|;
    CallShape(x, ts, e, i, w);
    var res := ResultSlot(k, sig.results);
    CallStatement(x, ts, e.x, i, res, |sig.params|, w, c);
    var s: Stmt := CCall(res, GlobalVar(e.x), ArgVars(ts, |sig.params|, 0));
    assert RunOne(x.sem, x.Prog(), [s], c) == CallC(x.sem, x.Prog(), i, res, w.stack[k..], c);
    LiftStatement(x, ts, ts[..k] + sig.results, Typed(ts[..k] + sig.results), [s], whole, a, w,
      DoCall(x.sem, x.m, i, w), c);
  }

  lemma SimCall(
    x: Ctx, ts: seq<ValType>, e: Expr, whole: seq<Stmt>, a: nat, w: State, c: CState<Sym>)
    returns (c': CState<Sym>)
    requires e.Call? && ReadyExpr(x, ts, e, whole, a, w, c)
    ensures SimulatedExpr(x, ts, e, whole, a, w, c, c')
    decreases w.fuel, 0
  {
    var i := CallFacts(x, ts, e, whole, a, w, c);
    c' := SimCallTo(x, ts, e, i, whole, a, w, c);
  }

  lemma SimCallTo(x: Ctx, ts: seq<ValType>, e: Expr, i: nat, whole: seq<Stmt>, a: nat, w: State, c: CState<Sym>)
    returns (c': CState<Sym>)
    requires e.Call? && x.Ok() && x.labels != [] && Related(x.f, ts, w, c)
    requires CodeAt(whole, a, CompileExpr(x.m, x.f, x.labels, ts, e).stmts)
    requires e.x.Name? && Resolve(FuncNames(x.m), e.x) == Some(i) && i < |x.m.funcs|
    requires EndsWith(x.base, ts, x.m.funcs[i].sig.params)
    requires CheckExpr(x.m, x.f, x.labels, x.base, ts, e)
         == Typed(ts[..|ts| - |x.m.funcs[i].sig.params|] + x.m.funcs[i].sig.results)
    ensures SimulatedExpr(x, ts, e, whole, a, w, c, c')
    decreases w.fuel, 0, 0
  {
    hide CallC, DoCall, CheckExpr, CompileExpr, ExecExpr, SimulatedExpr, CallSimulated, LocalsRelated, SlotsRelated,
         RunC, RunFunc, CompileModule, ValidModule, WritableModule, Resolve;
    var k := |ts| - |x.m.funcs[i].sig.params|;
    if !x.m.funcs[i].imported && w.fuel > 0 {
      SimFunc(x.sem, x.m, i, w.stack[k..], w.world, w.fuel - 1);
    }
    ImportStaysImport(x.m, i);
    CallMatches(x, ts, i, w, c);
    CallDone(x, ts, e, i, whole, a, w, c);
    c' := CallC(x.sem, x.Prog(), i, ResultSlot(k, x.m.funcs[i].sig.results), w.stack[k..], c).st;
  }

  /** The statement emitted for an indirect call, and what both sides do when it finds function `i`. */
  lemma IndirectCall(x: Ctx, ts: seq<ValType>, e: Expr, i: nat, w: State, c: CState<Sym>)
    requires e.CallIndirect? && x.labels != [] && EndsWith(x.base, ts, [I32])
    requires Related(x.f, ts, w, c) && |e.sig.params| < |ts|
    requires x.sem.table(Top(w, 0)) == Some(i) && i < |x.m.funcs| && x.m.funcs[i].sig == e.sig
    ensures var k := |ts| - 1 - |e.sig.params|;
            var w1 := DropN(w, 1);
            var s: Stmt := CCallIndirect(ResultSlot(k, e.sig.results), e.sig, StackVar(ts, 0),
              ArgVars(ts, |e.sig.params|, 1));
            && CompileExpr(x.m, x.f, x.labels, ts, e) == Code([s], ts[..k] + e.sig.results, {})
            && ExecStmt(x.sem, x.Prog(), s, c)
              == CallC(x.sem, x.Prog(), i, ResultSlot(k, e.sig.results), w1.stack[k..], c)
            && ExecExpr(x.sem, x.m, x.f, Infos(x.labels), e, w) == DoCall(x.sem, x.m, i, w1)
  {
    hide ExecStmt, CallC, DoCall, LocalsRelated;
    var n := |e.sig.params|;
    var k := |ts| - 1 - n;
    ArgumentValues(x.f, ts, n, 1, w, c);
    ReadSlot(x.f, ts, 0, w, c);
    assert w.stack[k..|ts| - 1] == DropN(w, 1).stack[k..];
    assert x.Prog().funcs[i].sig == e.sig;
    var res := ResultSlot(k, e.sig.results);
    RunCallIndirect(x.sem, x.Prog(), res, e.sig, StackVar(ts, 0), ArgVars(ts, n, 1), DropN(w, 1).stack[k..], i, c);
    assert ResultVar(ts, n, e.sig.results) == res;
  }

  function IndirectStmt(ts: seq<ValType>, sig: FuncSig): Stmt
    requires ts != [] && |sig.params| < |ts|
  {
    CCallIndirect(ResultVar(ts, |sig.params|, sig.results), sig, StackVar(ts, 0), ArgVars(ts, |sig.params|, 1))
  }

  lemma IndirectStmtTraps(x: Ctx, ts: seq<ValType>, sig: FuncSig, w: State, c: CState<Sym>)
    requires Related(x.f, ts, w, c) && ts != [] && |sig.params| < |ts|
    requires var t := x.sem.table(Top(w, 0)); t.None? || t.value >= |x.m.funcs| || x.m.funcs[t.value].sig != sig
    ensures ExecStmt(x.sem, x.Prog(), IndirectStmt(ts, sig), c) == CResult(CTrapped, c)
  {
    hide LocalsRelated, SlotsRelated;
    ArgumentValues(x.f, ts, |sig.params|, 1, w, c);
    ReadSlot(x.f, ts, 0, w, c);
    var t := x.sem.table(Top(w, 0));
    assert t.Some? && t.value < |x.m.funcs| ==> x.Prog().funcs[t.value].sig == x.m.funcs[t.value].sig;
  }

  /** An indirect call through an empty table slot, or at the wrong type, traps. */
  lemma IndirectTrap(x: Ctx, ts: seq<ValType>, e: Expr, whole: seq<Stmt>, a: nat, w: State, c: CState<Sym>)
    requires e.CallIndirect? && ReadyExpr(x, ts, e, whole, a, w, c)
    requires ts != [] && |e.sig.params| < |ts|
    requires var t := x.sem.table(Top(w, 0)); t.None? || t.value >= |x.m.funcs| || x.m.funcs[t.value].sig != e.sig
    ensures SimulatedExpr(x, ts, e, whole, a, w, c, c)
  {
    hide ExecStmt, LocalsRelated, SlotsRelated;
    var code, s := CompileExpr(x.m, x.f, x.labels, ts, e), IndirectStmt(ts, e.sig);
    assert code.stmts == [s];
    IndirectStmtTraps(x, ts, e.sig, w, c);
    LiftStatement(x, ts, code.types, CheckExpr(x.m, x.f, x.labels, x.base, ts, e), [s], whole, a,
                  w, Result(Trap, DropN(w, 1)), c);
  }

  lemma IndirectFacts(x: Ctx, ts: seq<ValType>, e: Expr, whole: seq<Stmt>, a: nat, w: State, c: CState<Sym>)
    requires e.CallIndirect? && ReadyExpr(x, ts, e, whole, a, w, c)
    ensures EndsWith(x.base, ts, [I32]) && EndsWith(x.base, ts[..|ts| - 1], e.sig.params)
    ensures CheckExpr(x.m, x.f, x.labels, x.base, ts, e) == Typed(ts[..|ts| - 1 - |e.sig.params|] + e.sig.results)
    ensures x.Ok() && x.labels != [] && Related(x.f, ts, w, c) && Related(x.f, ts[..|ts| - 1], DropN(w, 1), c)
    ensures CodeAt(whole, a, CompileExpr(x.m, x.f, x.labels, ts, e).stmts)
  {
    IndirectTypes(x, ts, e);
    AfterCondition(x, ts, w, c);
  }

  lemma SimCallIndirect(
    x: Ctx, ts: seq<ValType>, e: Expr, whole: seq<Stmt>, a: nat, w: State, c: CState<Sym>)
    returns (c': CState<Sym>)
    requires e.CallIndirect? && ReadyExpr(x, ts, e, whole, a, w, c)
    ensures SimulatedExpr(x, ts, e, whole, a, w, c, c')
    decreases w.fuel, 0
  {
    IndirectFacts(x, ts, e, whole, a, w, c);
    var t := x.sem.table(Top(w, 0));
    if t.Some? && t.value < |x.m.funcs| && x.m.funcs[t.value].sig == e.sig {
      c' := SimCallFound(x, ts, e, t.value, whole, a, w, c);
    } else {
      c' := c;
      IndirectTrap(x, ts, e, whole, a, w, c);
    }
  }

  lemma SimCallFound(x: Ctx, ts: seq<ValType>, e: Expr, i: nat, whole: seq<Stmt>, a: nat, w: State, c: CState<Sym>)
    returns (c': CState<Sym>)
    requires e.CallIndirect? && EndsWith(x.base, ts, [I32]) && EndsWith(x.base, ts[..|ts| - 1], e.sig.params)
    requires CheckExpr(x.m, x.f, x.labels, x.base, ts, e) == Typed(ts[..|ts| - 1 - |e.sig.params|] + e.sig.results)
    requires x.Ok() && x.labels != [] && Related(x.f, ts, w, c) && Related(x.f, ts[..|ts| - 1], DropN(w, 1), c)
    requires CodeAt(whole, a, CompileExpr(x.m, x.f, x.labels, ts, e).stmts)
    requires x.sem.table(Top(w, 0)) == Some(i) && i < |x.m.funcs| && x.m.funcs[i].sig == e.sig
    ensures SimulatedExpr(x, ts, e, whole, a, w, c, c')
    decreases w.fuel, 0, 0
  {
    hide CallC, DoCall, CheckExpr, CompileExpr, ExecExpr, SimulatedExpr, CallSimulated, LocalsRelated, SlotsRelated,
      RunC, RunFunc, CompileModule, ValidModule, WritableModule;
    var ts1, w1 := ts[..|ts| - 1], DropN(w, 1);
    var k := |ts1| - |e.sig.params|;
    if !x.m.funcs[i].imported && w.fuel > 0 {
      SimFunc(x.sem, x.m, i, w1.stack[k..], w1.world, w1.fuel - 1);
    }
    ImportStaysImport(x.m, i);
    CallMatches(x, ts1, i, w1, c);
    IndirectDone(x, ts, e, i, whole, a, w, c);
    c' := CallC(x.sem, x.Prog(), i, ResultSlot(k, e.sig.results), w1.stack[k..], c).st;
  }

  lemma IndirectDone(x: Ctx, ts: seq<ValType>, e: Expr, i: nat, whole: seq<Stmt>, a: nat, w: State, c: CState<Sym>)
    requires e.CallIndirect? && x.labels != [] && EndsWith(x.base, ts, [I32])
    requires Related(x.f, ts, w, c) && |e.sig.params| < |ts|
    requires x.sem.table(Top(w, 0)) == Some(i) && i < |x.m.funcs| && x.m.funcs[i].sig == e.sig
    requires CheckExpr(x.m, x.f, x.labels, x.base, ts, e) == Typed(ts[..|ts| - 1 - |e.sig.params|] + e.sig.results)
    requires CodeAt(whole, a, CompileExpr(x.m, x.f, x.labels, ts, e).stmts)
    requires CallSimulated(x, ts[..|ts| - 1], i, DropN(w, 1), c)
    ensures var k := |ts| - 1 - |e.sig.params|;
            SimulatedExpr(x, ts, e, whole, a, w, c,
              CallC(x.sem, x.Prog(), i, ResultSlot(k, e.sig.results), DropN(w, 1).stack[k..], c).st)
  {
    hide ExecStmt, CallC, DoCall, CompileExpr, ExecExpr, CheckExpr, Simulates, LocalsRelated, SlotsRelated;
    var ts1, w1 := ts[..|ts| - 1], DropN(w, 1);
    var k := |ts1| - |e.sig.params|;
    var res := ResultSlot(k, e.sig.results);
    IndirectCall(x, ts, e, i, w, c);
    assert ts1[..k] == ts[..k];
    var s: Stmt := CCallIndirect(res, e.sig, StackVar(ts, 0), ArgVars(ts, |e.sig.params|, 1));
    assert RunOne(x.sem, x.Prog(), [s], c) == CallC(x.sem, x.Prog(), i, res, w1.stack[k..], c);
    var r := DoCall(x.sem, x.m, i, w1);
    if r.out.Normal? { KeepsTwice(x.base, w, w1, r.st); }
    LiftStatement(x, ts, ts[..k] + e.sig.results, Typed(ts[..k] + e.sig.results), [s], whole, a, w, r, c);
  }

  lemma KeepsTwice(base: nat, w: State, w1: State, w2: State)
    requires KeepsBase(base, w, w1) && KeepsBase(base, w1, w2)
    ensures KeepsBase(base, w, w2)
  {}

  lemma IndirectTypes(x: Ctx, ts: seq<ValType>, e: Expr)
    requires e.CallIndirect? && !CheckExpr(x.m, x.f, x.labels, x.base, ts, e).Invalid?
    ensures EndsWith(x.base, ts, [I32]) && EndsWith(x.base, ts[..|ts| - 1], e.sig.params)
    ensures CheckExpr(x.m, x.f, x.labels, x.base, ts, e) == Typed(ts[..|ts| - 1 - |e.sig.params|] + e.sig.results)
  {
    var want := e.sig.params + [I32];
    assert EndsWith(x.base, ts, want);
    assert ts[|ts| - 1] == want[|want| - 1];
    assert ts[|ts| - 1..] == [I32];
    assert ts[..|ts| - 1][|ts| - |want|..] == ts[|ts| - |want|..][..|want| - 1] == e.sig.params;
  }

  // ----- lists and functions -----

  /** What does not end normally ends the list. */
  lemma CutShort(
    x: Ctx, ts: seq<ValType>, t1: Typing, t2: Typing, used1: set<nat>, used2: set<nat>,
    whole: seq<Stmt>, a: nat, a1: nat, b: nat, w: State, r: Result, c: CState<Sym>, c': CState<Sym>)
    requires a <= a1 <= b <= |whole| && used1 <= used2 && !r.out.Normal?
    requires Simulates(x, ts, t1, used1, whole, a, a1, w, r, c, c')
    ensures Simulates(x, ts, t2, used2, whole, a, b, w, r, c, c')
  {
    hide ExecFrom, Jump, ExecStmt, CompileModule, Related, Arrived;
  }

  /** The code of a list, taken apart. */
  lemma ListCode(x: Ctx, ts: seq<ValType>, es: ExprList, whole: seq<Stmt>, a: nat)
    requires es.Cons? && x.labels != [] && CodeAt(whole, a, CompileList(x.m, x.f, x.labels, ts, es).stmts)
    ensures var c1 := CompileExpr(x.m, x.f, x.labels, ts, es.head);
            var c2 := CompileList(x.m, x.f, x.labels, c1.types, es.tail);
            var code := CompileList(x.m, x.f, x.labels, ts, es);
            && CodeAt(whole, a, c1.stmts)
            && c1.used <= code.used && |c1.stmts| <= |code.stmts|
            && (!Stops(es.head) ==>
                  && CodeAt(whole, a + |c1.stmts|, c2.stmts)
                  && code.used == c1.used + c2.used && |code.stmts| == |c1.stmts| + |c2.stmts|)
  {
    var c1 := CompileExpr(x.m, x.f, x.labels, ts, es.head);
    if !Stops(es.head) {
      CodeAtConcat(whole, a, c1.stmts, CompileList(x.m, x.f, x.labels, c1.types, es.tail).stmts);
    }
  }

  lemma HeadReady(x: Ctx, ts: seq<ValType>, es: ExprList, whole: seq<Stmt>, a: nat, w: State, c: CState<Sym>)
    requires es.Cons? && ReadyList(x, ts, es, whole, a, w, c)
    ensures x.labels != [] && ReadyExpr(x, ts, es.head, whole, a, w, c)
  {
    hide SlotsRelated, LocalsRelated, CompileExpr;
    ListCode(x, ts, es, whole, a);
  }

  /** An instruction that does not end normally ends the list. */
  lemma HeadEnds(
    x: Ctx, ts: seq<ValType>, es: ExprList, whole: seq<Stmt>, a: nat, w: State, c: CState<Sym>, c': CState<Sym>)
    requires es.Cons? && x.labels != [] && CodeAt(whole, a, CompileList(x.m, x.f, x.labels, ts, es).stmts)
    requires SimulatedExpr(x, ts, es.head, whole, a, w, c, c')
    requires !ExecExpr(x.sem, x.m, x.f, Infos(x.labels), es.head, w).out.Normal?
    ensures SimulatedList(x, ts, es, whole, a, w, c, c')
  {
    hide Simulates, ExecExpr, ExecFrom, CompileExpr, CheckExpr;
    ListCode(x, ts, es, whole, a);
    var code1 := CompileExpr(x.m, x.f, x.labels, ts, es.head);
    var code := CompileList(x.m, x.f, x.labels, ts, es);
    CutShort(x, ts, CheckExpr(x.m, x.f, x.labels, x.base, ts, es.head), CheckList(x.m, x.f, x.labels, x.base, ts, es),
             code1.used, code.used, whole, a, a + |code1.stmts|, a + |code.stmts|,
             w, ExecExpr(x.sem, x.m, x.f, Infos(x.labels), es.head, w), c, c');
  }

  lemma SimList(
    x: Ctx, ts: seq<ValType>, es: ExprList, whole: seq<Stmt>, a: nat, w: State, c: CState<Sym>)
    returns (c': CState<Sym>)
    requires ReadyList(x, ts, es, whole, a, w, c)
    ensures SimulatedList(x, ts, es, whole, a, w, c, c')
    decreases w.fuel, 1, es, 0
  {
    if es.Nil? {
      c' := c;
    } else {
      HeadReady(x, ts, es, whole, a, w, c);
      hide ReadyExpr, SimulatedExpr, SimulatedList, Simulates, ExecExpr;
      c' := SimExpr(x, ts, es.head, whole, a, w, c);
      var r1 := ExecExpr(x.sem, x.m, x.f, Infos(x.labels), es.head, w);
      if r1.out.Normal? {
        c' := SimTail(x, ts, es, whole, a, w, r1, c, c');
      } else {
        HeadEnds(x, ts, es, whole, a, w, c, c');
      }
    }
  }

  lemma TailReady(
    x: Ctx, ts: seq<ValType>, es: ExprList, whole: seq<Stmt>, a: nat, w: State, r1: Result, c: CState<Sym>,
    c1: CState<Sym>)
    requires es.Cons? && ReadyList(x, ts, es, whole, a, w, c)
    requires SimulatedExpr(x, ts, es.head, whole, a, w, c, c1)
    requires r1 == ExecExpr(x.sem, x.m, x.f, Infos(x.labels), es.head, w) && r1.out.Normal?
    ensures var code1 := CompileExpr(x.m, x.f, x.labels, ts, es.head);
            && CheckExpr(x.m, x.f, x.labels, x.base, ts, es.head) == Typed(code1.types)
            && ReadyList(x, code1.types, es.tail, whole, a + |code1.stmts|, r1.st, c1)
  {
    hide ExecExpr, ExecFrom, CompileExpr, SlotsRelated, LocalsRelated;
    ListCode(x, ts, es, whole, a);
    TypesAgree(x.m, x.f, x.labels, x.base, ts, es.head);
  }

  /** The rest of a list, after its first instruction ended normally. */
  lemma SimTail(
    x: Ctx, ts: seq<ValType>, es: ExprList, whole: seq<Stmt>, a: nat, w: State, r1: Result, c: CState<Sym>,
    c1: CState<Sym>)
    returns (c': CState<Sym>)
    requires es.Cons? && ReadyList(x, ts, es, whole, a, w, c)
    requires SimulatedExpr(x, ts, es.head, whole, a, w, c, c1)
    requires r1 == ExecExpr(x.sem, x.m, x.f, Infos(x.labels), es.head, w) && r1.out.Normal?
    requires x.labels != []
    ensures SimulatedList(x, ts, es, whole, a, w, c, c')
    decreases w.fuel, 1, es.tail, 1
  {
    hide ExecExpr, ExecFrom, CompileExpr, Simulates, ReadyList, SimulatedList, SimulatedExpr;
    TailReady(x, ts, es, whole, a, w, r1, c, c1);
    var code1 := CompileExpr(x.m, x.f, x.labels, ts, es.head);
    c' := SimList(x, code1.types, es.tail, whole, a + |code1.stmts|, r1.st, c1);
    TailDone(x, ts, es, whole, a, w, r1, c, c1, c');
  }

  lemma TailDone(
    x: Ctx, ts: seq<ValType>, es: ExprList, whole: seq<Stmt>, a: nat, w: State, r1: Result,
    c: CState<Sym>, c1: CState<Sym>, c': CState<Sym>)
    requires es.Cons? && ReadyList(x, ts, es, whole, a, w, c)
    requires SimulatedExpr(x, ts, es.head, whole, a, w, c, c1)
    requires r1 == ExecExpr(x.sem, x.m, x.f, Infos(x.labels), es.head, w) && r1.out.Normal?
    requires var code1 := CompileExpr(x.m, x.f, x.labels, ts, es.head);
             && SimulatedList(x, code1.types, es.tail, whole, a + |code1.stmts|, r1.st, c1, c')
             && CheckExpr(x.m, x.f, x.labels, x.base, ts, es.head) == Typed(code1.types)
    ensures SimulatedList(x, ts, es, whole, a, w, c, c')
  {
    hide Simulates, ExecExpr, ExecFrom, Related, CheckExpr, CompileExpr;
    ListCode(x, ts, es, whole, a);
    TypesAgree(x.m, x.f, x.labels, x.base, ts, es.head);
    var code1 := CompileExpr(x.m, x.f, x.labels, ts, es.head);
    var ts1 := code1.types;
    var code2 := CompileList(x.m, x.f, x.labels, ts1, es.tail);
    var a1 := a + |code1.stmts|;
    CodeLabels(x.m, x.f, x.labels, ts, es.head);
    CodeLabelsList(x.m, x.f, x.labels, ts1, es.tail);
    forall j, i | a1 <= j < a1 + |code2.stmts| && 0 <= i < |x.labels|
      ensures whole[j] != CLabel(LabelSym(x.labels, i))
    {
      EnclosingNotInside(x, whole, a1, code2.stmts, LabelsOfList(es.tail), i);
    }
    Compose(x, ts, ts1, CheckList(x.m, x.f, x.labels, x.base, ts1, es.tail), code1.used, code2.used,
            whole, a, a1, a1 + |code2.stmts|, LabelsOf(es.head), code1.stmts,
            w, r1, ExecList(x.sem, x.m, x.f, Infos(x.labels), es.tail, r1.st), c, c1, c');
  }

  lemma BindDistinct(names: seq<string>, values: seq<nat>, i: nat)
    requires |names| == |values| && NoDuplicates(names) && i < |names|
    ensures Named(names[i]) in Bind(LocalSyms(names), values)
            && Bind(LocalSyms(names), values)[Named(names[i])] == values[i]
  {
    assert LocalSyms(names)[1..] == LocalSyms(names[1..]);
    if i > 0 {
      BindDistinct(names[1..], values[1..], i - 1);
      assert Named(names[i]) in Bind(LocalSyms(names[1..]), values[1..]);
    } else {
      forall v | v in LocalSyms(names[1..]) ensures v != Named(names[0]) {}
    }
  }

  /** Parameters and locals on entry. */
  lemma EntryRelated(m: Module, f: Func, args: seq<nat>, world: World, fuel: nat)
    requires |f.localNames| == |f.LocalTypes()| && NoDuplicates(f.localNames) && |args| == |f.sig.params|
    ensures var n := |args|;
            var values := args + Zeros(|f.locals|);
            var vars := Bind(LocalSyms(f.localNames[..n]) + LocalSyms(f.localNames[n..]), values);
            Related(f, [], State([], values, world, fuel), CState(vars, world, fuel))
  {
    var n := |args|;
    var values := args + Zeros(|f.locals|);
    assert LocalSyms(f.localNames[..n]) + LocalSyms(f.localNames[n..]) == LocalSyms(f.localNames);
    forall i | 0 <= i < |values|
      ensures Named(f.localNames[i]) in Bind(LocalSyms(f.localNames), values)
           && Bind(LocalSyms(f.localNames), values)[Named(f.localNames[i])] == values[i]
    {
      BindDistinct(f.localNames, values, i);
    }
  }

  function FuncCtx(sem: Sem, m: Module, f: Func): Ctx { Ctx(sem, m, f, [FuncLabelOf(f)], 0) }

  lemma FuncReady(sem: Sem, m: Module, f: Func, args: seq<nat>, world: World, fuel: nat)
    returns (c: CState<Sym>, whole: seq<Stmt>)
    requires ValidModule(m) && WritableModule(m) && f in m.funcs && !f.imported && |args| == |f.sig.params|
    ensures CompileFunc(m, f).CFunc? && whole == CompileFunc(m, f).body
    ensures |CompileFunc(m, f).params| == |args| && |CompileFunc(m, f).locals| == |f.locals|
    ensures CompileFunc(m, f).result == ResultSlot(0, f.sig.results) && |f.sig.results| <= 1
    ensures c.world == world && c.fuel == fuel
    ensures c.vars == Bind(CompileFunc(m, f).params + CompileFunc(m, f).locals, args + Zeros(|f.locals|))
    ensures ReadyList(FuncCtx(sem, m, f), [], f.body, whole, 0, State([], args + Zeros(|f.locals|), world, fuel), c)
    ensures var code := BodyCode(m, f);
            && CodeAt(whole, |code.stmts|, LabelDecl(code, 0, IMPLICIT_FUNC_LABEL))
            && |whole| == |code.stmts| + |LabelDecl(code, 0, IMPLICIT_FUNC_LABEL)|
            && !CheckBody(m, f, [FuncLabelOf(f)], [], f.sig.results, f.body).Invalid?
            && UniqueLabels(whole)
  {
    hide Related;
    assert ValidFunc(m, f) && Writable(f);
    var x := FuncCtx(sem, m, f);
    var code := BodyCode(m, f);
    var decl := LabelDecl(code, 0, IMPLICIT_FUNC_LABEL);
    whole := code.stmts + decl;
    var n := |args|;
    var values := args + Zeros(|f.locals|);
    c := CState(Bind(LocalSyms(f.localNames[..n]) + LocalSyms(f.localNames[n..]), values), world, fuel);
    EntryRelated(m, f, args, world, fuel);
    CodeLabelsList(m, f, x.labels, [], f.body);
    UniqueConcat(code.stmts, decl, LabelsOfList(f.body), {IMPLICIT_FUNC_LABEL});
    assert f.sig.results == FuncLabelOf(f).results;
    assert whole[..|code.stmts|] == code.stmts;
  }

  lemma SimFunc(sem: Sem, m: Module, i: nat, args: seq<nat>, world: World, fuel: nat)
    requires ValidModule(m) && WritableModule(m)
    requires i < |m.funcs| && !m.funcs[i].imported && |args| == |m.funcs[i].sig.params|
    ensures RunC(sem, CompileModule(m), i, args, world, fuel) == RunFunc(sem, m, i, args, world, fuel)
    ensures !RunFunc(sem, m, i, args, world, fuel).out.Wrong?
    decreases fuel, 2
  {
    hide ReadyList, SimulatedList, ExecList, CompileFunc;
    var f := m.funcs[i];
    var c, whole := FuncReady(sem, m, f, args, world, fuel);
    var w := State([], args + Zeros(|f.locals|), world, fuel);
    var c' := SimList(FuncCtx(sem, m, f), [], f.body, whole, 0, w, c);
    FuncDone(sem, m, i, args, w, c, whole, c');
  }

  /** What the code of a whole body leaves, and the result both sides return. */
  lemma FuncDone(
    sem: Sem, m: Module, i: nat, args: seq<nat>, w: State, c: CState<Sym>, whole: seq<Stmt>, c': CState<Sym>)
    requires i < |m.funcs| && CompileFunc(m, m.funcs[i]).CFunc?
    requires var f := m.funcs[i];
             var cf := CompileFunc(m, f);
             var code := BodyCode(m, f);
             && whole == cf.body && |cf.params| == |args| && |cf.locals| == |f.locals|
             && cf.result == ResultSlot(0, f.sig.results) && |f.sig.results| <= 1
             && w == State([], args + Zeros(|f.locals|), w.world, w.fuel)
             && c == CState(Bind(cf.params + cf.locals, w.locals), w.world, w.fuel)
             && CodeAt(whole, |code.stmts|, LabelDecl(code, 0, IMPLICIT_FUNC_LABEL))
             && |whole| == |code.stmts| + |LabelDecl(code, 0, IMPLICIT_FUNC_LABEL)|
             && UniqueLabels(whole)
             && !CheckBody(m, f, [FuncLabelOf(f)], [], f.sig.results, f.body).Invalid?
             && SimulatedList(FuncCtx(sem, m, f), [], f.body, whole, 0, w, c, c')
    ensures RunC(sem, CompileModule(m), i, args, w.world, w.fuel) == RunFunc(sem, m, i, args, w.world, w.fuel)
    ensures !RunFunc(sem, m, i, args, w.world, w.fuel).out.Wrong?
  {
    var f := m.funcs[i];
    var x := FuncCtx(sem, m, f);
    var code := BodyCode(m, f);
    var decl := LabelDecl(code, 0, IMPLICIT_FUNC_LABEL);
    var r := ExecList(sem, m, f, Infos(x.labels), f.body, w);
    assert Infos(x.labels) == [LabelInfo("", |f.sig.results|)];
    var run := ExecFrom(sem, x.Prog(), whole, 0, c);
    BodyRun(x, whole, w, r, c, c');
    RunsAgree(sem, m, i, args, w, r, run);
  }

  /** Where the run of a whole body ends. */
  lemma BodyRun(x: Ctx, whole: seq<Stmt>, w: State, r: Result, c: CState<Sym>, c': CState<Sym>)
    requires x.labels == [FuncLabelOf(x.f)] && x.base == 0 && w.stack == [] && |x.f.sig.results| <= 1
    requires var code := BodyCode(x.m, x.f);
             && CodeAt(whole, |code.stmts|, LabelDecl(code, 0, IMPLICIT_FUNC_LABEL))
             && |whole| == |code.stmts| + |LabelDecl(code, 0, IMPLICIT_FUNC_LABEL)|
             && UniqueLabels(whole)
    requires r == ExecList(x.sem, x.m, x.f, Infos(x.labels), x.f.body, w)
    requires !CheckBody(x.m, x.f, x.labels, [], x.f.sig.results, x.f.body).Invalid?
    requires SimulatedList(x, [], x.f.body, whole, 0, w, c, c')
    ensures BodyEnds(x.f, Leave(w, |x.f.sig.results|, r), ExecFrom(x.sem, x.Prog(), whole, 0, c))
  {
    hide ExecList, CheckList, CompileList;
    var code := BodyCode(x.m, x.f);
    var decl := LabelDecl(code, 0, IMPLICIT_FUNC_LABEL);
    var q := |code.stmts|;
    BodyTyping(x);
    match r.out
    case Normal => PassLabel(x.sem, x.Prog(), whole, q, decl, IMPLICIT_FUNC_LABEL, c');
    case Branch(d) => JumpToLabel(x.sem, x.Prog(), whole, 0, q, IMPLICIT_FUNC_LABEL, c');
    case _ =>
  }

  lemma BodyTyping(x: Ctx)
    requires !CheckBody(x.m, x.f, x.labels, [], x.f.sig.results, x.f.body).Invalid?
    ensures var t := CheckList(x.m, x.f, x.labels, 0, [], x.f.body); t.Typed? ==> t == Typed(x.f.sig.results)
  {
    var ts: seq<ValType> := [];
    assert ts + x.f.sig.results == x.f.sig.results;
  }

  /** The result of a body and the final C state agree. */
  ghost predicate BodyEnds(f: Func, r: Result, run: CResult<Sym>) {
    && run.st.world == r.st.world && run.st.fuel == r.st.fuel
    && match r.out
       case Normal =>
         && run.out == CNormal && |r.st.stack| == |f.sig.results|
         && (f.sig.results != [] ==> Holds(run.st, 0, f.sig.results[0], r.st.stack[0]))
       case Trap => run.out == CTrapped
       case Exhausted => run.out == CExhausted
       case _ => false
  }

  lemma RunsAgree(sem: Sem, m: Module, i: nat, args: seq<nat>, w: State, r: Result, run: CResult<Sym>)
    requires i < |m.funcs| && CompileFunc(m, m.funcs[i]).CFunc?
    requires var f := m.funcs[i];
             var cf := CompileFunc(m, f);
             && |cf.params| == |args| && |cf.locals| == |f.locals| && |f.sig.results| <= 1
             && cf.result == ResultSlot(0, f.sig.results)
             && w == State([], args + Zeros(|f.locals|), w.world, w.fuel)
             && r == ExecList(sem, m, f, [LabelInfo("", |f.sig.results|)], f.body, w)
             && run == ExecFrom(sem, CompileModule(m), cf.body, 0,
               CState(Bind(cf.params + cf.locals, w.locals), w.world, w.fuel))
             && BodyEnds(f, Leave(w, |f.sig.results|, r), run)
    ensures RunC(sem, CompileModule(m), i, args, w.world, w.fuel) == RunFunc(sem, m, i, args, w.world, w.fuel)
    ensures !RunFunc(sem, m, i, args, w.world, w.fuel).out.Wrong?
  {
    hide ExecList, ExecFrom, CompileFunc, Leave;
    var f := m.funcs[i];
    var cf := CompileFunc(m, f);
    assert CompileModule(m).funcs[i] == cf;
  }
}

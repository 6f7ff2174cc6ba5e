/** The emitted C behaves like the WebAssembly body: a simulation proof.

    The invariant is that operand stack slot `k`, whose type is `t`, is always held by the C
    variable for the pair `(k, t)`, and local `i` by the C variable of its name. */
module CSimulation {
  import opened Util
  import opened Wasm
  import opened Validation
  import opened CLang
  import opened CCompile

  // ----- the invariant -----

  ghost predicate LocalsRelated(f: Func, w: State, c: CState<Sym>) {
    && |w.locals| == |f.localNames| == |f.LocalTypes()|
    && forall i | 0 <= i < |w.locals| ::
      Named(f.localNames[i]) in c.vars && c.vars[Named(f.localNames[i])] == w.locals[i]
  }

  /** The C variable for slot `k` at type `t` holds `v`. */
  ghost predicate Holds(c: CState<Sym>, k: nat, t: ValType, v: nat) {
    Slot(k, t) in c.vars && c.vars[Slot(k, t)] == v
  }

  ghost predicate SlotsRelated(ts: seq<ValType>, n: nat, w: State, c: CState<Sym>) {
    && n <= |ts| && n <= |w.stack|
    && forall k | 0 <= k < n :: Holds(c, k, ts[k], w.stack[k])
  }

  ghost predicate OtherRelated(f: Func, w: State, c: CState<Sym>) {
    LocalsRelated(f, w, c) && w.world == c.world && w.fuel == c.fuel
  }

  ghost predicate Related(f: Func, ts: seq<ValType>, w: State, c: CState<Sym>) {
    |w.stack| == |ts| && SlotsRelated(ts, |ts|, w, c) && OtherRelated(f, w, c)
  }

  /** The state of a jump to label `l`: the slots below its height are as they were, and the carried
      value, if any, is in the slot at that height. */
  ghost predicate Arrived(f: Func, ts: seq<ValType>, l: Label, w: State, c: CState<Sym>) {
    && |l.BranchTypes()| <= 1
    && l.height + |l.BranchTypes()| <= |w.stack|
    && SlotsRelated(ts, l.height, w, c)
    && (l.BranchTypes() != [] ==> Holds(c, l.height, l.BranchTypes()[0], Last(w.stack)))
    && OtherRelated(f, w, c)
  }

  ghost function LabelSym(labels: seq<Label>, i: nat): Sym
    requires i < |labels|
  {
    Named(if i == 0 then IMPLICIT_FUNC_LABEL else labels[i].name)
  }

  /** The label stack as the semantics sees it. */
  function Infos(labels: seq<Label>): (r: seq<LabelInfo>)
    ensures |r| == |labels|
    ensures forall i | 0 <= i < |r| :: r[i] == LabelInfo(labels[i].name, |labels[i].BranchTypes()|)
  {
    seq(|labels|, i requires 0 <= i < |labels| => LabelInfo(labels[i].name, |labels[i].BranchTypes()|))
  }

  lemma InfosSnoc(labels: seq<Label>, l: Label)
    ensures Infos(labels + [l]) == Infos(labels) + [LabelInfo(l.name, |l.BranchTypes()|)]
    ensures LabelNames(Infos(labels)) == Names(labels)
  {}

  /** The label stack is well formed where the innermost block starts at height `base`. */
  ghost predicate LabelsOk(f: Func, labels: seq<Label>, base: nat) {
    && labels != [] && labels[0] == FuncLabelOf(f)
    && (forall i | 0 <= i < |labels| :: labels[i].height <= base && |labels[i].results| <= 1)
    && (forall i | 0 < i < |labels| :: labels[i].name != "")
  }

  /** None of the enclosing labels is declared again inside. */
  ghost predicate Fresh(labels: seq<Label>, inner: set<string>) {
    && IMPLICIT_FUNC_LABEL !in inner && "" !in inner
    && forall i | 0 < i < |labels| :: labels[i].name !in inner
  }

  ghost predicate UniqueLabels(code: seq<Stmt>) {
    forall i, j | 0 <= i < j < |code| && code[i].CLabel? :: code[i] != code[j]
  }

  /** All labels declared at the top level of `code` have names in `names`. */
  ghost predicate LabelsWithin(code: seq<Stmt>, names: set<string>) {
    forall i | 0 <= i < |code| && code[i].CLabel? :: code[i].l.Named? && code[i].l.name in names
  }

  // ----- the label statements of emitted code -----

  lemma UniqueConcat(a: seq<Stmt>, b: seq<Stmt>, na: set<string>, nb: set<string>)
    requires UniqueLabels(a) && UniqueLabels(b)
    requires LabelsWithin(a, na) && LabelsWithin(b, nb) && na !! nb
    ensures UniqueLabels(a + b) && LabelsWithin(a + b, na + nb)
  {
    var c := a + b;
    forall i, j | 0 <= i < j < |c| && c[i].CLabel?
      ensures c[i] != c[j]
    {
      if i < |a| && j >= |a| && c[j].CLabel? {
        assert c[i] == a[i] && c[j] == b[j - |a|];
        assert a[i].l.name in na && b[j - |a|].l.name in nb;
      }
    }
  }

  lemma GotoHasNoLabels(labels: seq<Label>, ts: seq<ValType>, x: Var)
    requires labels != []
    ensures LabelsWithin(GotoStmts(labels, ts, x), {}) && UniqueLabels(GotoStmts(labels, ts, x))
  {}

  lemma {:induction false} CodeLabels(m: Module, f: Func, labels: seq<Label>, ts: seq<ValType>, e: Expr)
    requires labels != [] && DistinctLabels(e)
    ensures UniqueLabels(CompileExpr(m, f, labels, ts, e).stmts)
    ensures LabelsWithin(CompileExpr(m, f, labels, ts, e).stmts, LabelsOf(e))
    decreases e
  {
    match e
    case Return => GotoHasNoLabels(labels, ts, Index(|labels| - 1));
    case Br(x) => GotoHasNoLabels(labels, ts, x);
    case Block(name, results, body) =>
      var inner := labels + [Label(BlockLabel, name, results, |ts|)];
      CodeLabelsList(m, f, inner, ts, body);
      var c := CompileList(m, f, inner, ts, body);
      UniqueConcat(c.stmts, LabelDecl(c, |labels|, name), LabelsOfList(body), {name});
    case Loop(name, results, body) =>
      if body.Cons? {
        var inner := labels + [Label(LoopLabel, name, results, |ts|)];
        CodeLabelsList(m, f, inner, ts, body);
        UniqueConcat([CLabel(Named(name))], CompileList(m, f, inner, ts, body).stmts, {name}, LabelsOfList(body));
      }
    case If(name, results, then_, else_) =>
    case _ =>
  }

  lemma {:induction false} CodeLabelsList(m: Module, f: Func, labels: seq<Label>, ts: seq<ValType>, es: ExprList)
    requires labels != [] && DistinctLabelsList(es)
    ensures UniqueLabels(CompileList(m, f, labels, ts, es).stmts)
    ensures LabelsWithin(CompileList(m, f, labels, ts, es).stmts, LabelsOfList(es))
    decreases es
  {
    if es.Cons? {
      CodeLabels(m, f, labels, ts, es.head);
      var c := CompileExpr(m, f, labels, ts, es.head);
      if !Stops(es.head) {
        CodeLabelsList(m, f, labels, c.types, es.tail);
        UniqueConcat(c.stmts, CompileList(m, f, labels, c.types, es.tail).stmts, LabelsOf(es.head),
          LabelsOfList(es.tail));
      }
    }
  }

  lemma FindUnique(code: seq<Stmt>, j: nat, l: Sym)
    requires UniqueLabels(code) && j < |code| && code[j] == CLabel(l)
    ensures FindLabel(code, l) == Some(j)
  {
    var r := FindLabel(code, l);
    assert CLabel(l) in code;
  }

  lemma FindAbsent(code: seq<Stmt>, names: set<string>, name: string)
    requires LabelsWithin(code, names) && name !in names
    ensures FindLabel(code, Named(name)) == None
  {}

  // ----- the type stack and the typing agree -----

  ghost predicate Agrees(base: nat, ts: seq<ValType>, t: Typing, code: Code) {
    t.Typed? ==> t == Typed(code.types) && base <= |code.types| && base <= |ts| && code.types[..base] == ts[..base]
  }

  lemma TypesAgreeTee(m: Module, f: Func, base: nat, ts: seq<ValType>, e: Expr)
    requires e.LocalTee?
    requires base <= |ts| && !CheckSimple(m, f, base, ts, e).Invalid?
    ensures CheckSimple(m, f, base, ts, e) == Typed(ts) && CompileSimple(m, f, ts, e).types == ts
    ensures Agrees(base, ts, CheckSimple(m, f, base, ts, e), CompileSimple(m, f, ts, e))
  {
    hide Resolve, ValidLocal, LocalType;
    assert ts[..|ts| - 1] + [LocalType(f, e.x)] == ts by { assert ts[|ts| - 1..][0] == LocalType(f, e.x); }
  }

  lemma TypesAgreeVars(m: Module, f: Func, base: nat, ts: seq<ValType>, e: Expr)
    requires e.LocalGet? || e.LocalSet? || e.GlobalGet? || e.GlobalSet?
    requires base <= |ts| && !CheckSimple(m, f, base, ts, e).Invalid?
    ensures Agrees(base, ts, CheckSimple(m, f, base, ts, e), CompileSimple(m, f, ts, e))
    ensures CheckSimple(m, f, base, ts, e).Typed?
  {
    hide Resolve, ValidLocal, LocalType;
  }

  lemma TypesAgreeOps(m: Module, f: Func, base: nat, ts: seq<ValType>, e: Expr)
    requires e.Op1Expr? || e.Op2Expr? || e.Load? || e.Store?
    requires base <= |ts| && !CheckSimple(m, f, base, ts, e).Invalid?
    ensures Agrees(base, ts, CheckSimple(m, f, base, ts, e), CompileSimple(m, f, ts, e))
    ensures CheckSimple(m, f, base, ts, e).Typed?
  {}

  lemma {:induction false} TypesAgreeSelect(m: Module, f: Func, base: nat, ts: seq<ValType>, e: Expr)
    requires e.Select? || e.MemoryGrow?
    requires base <= |ts| && !CheckSimple(m, f, base, ts, e).Invalid?
    ensures CheckSimple(m, f, base, ts, e).Typed?
    ensures Agrees(base, ts, CheckSimple(m, f, base, ts, e), CompileSimple(m, f, ts, e))
  {
    if e.Select? {
      assert ts[..|ts| - 2] == ts[..|ts| - 3] + [ts[|ts| - 2]];
    } else {
      assert ts[..|ts| - 1] + [I32] == ts by { assert ts[|ts| - 1..][0] == I32; }
    }
  }

  lemma {:induction false} TypesAgreePlain(m: Module, f: Func, base: nat, ts: seq<ValType>, e: Expr)
    requires e.MemorySize? || e.Const? || e.Drop? || e.Nop? || e.Unreachable?
    requires base <= |ts| && !CheckSimple(m, f, base, ts, e).Invalid?
    ensures CheckSimple(m, f, base, ts, e).Dead? <==> e.Unreachable?
    ensures Agrees(base, ts, CheckSimple(m, f, base, ts, e), CompileSimple(m, f, ts, e))
  {}

  lemma {:induction false} TypesAgreeSimple(m: Module, f: Func, base: nat, ts: seq<ValType>, e: Expr)
    requires base <= |ts| && IsSimple(e)
    requires !CheckSimple(m, f, base, ts, e).Invalid?
    ensures CheckSimple(m, f, base, ts, e).Dead? <==> e.Unreachable?
    ensures Agrees(base, ts, CheckSimple(m, f, base, ts, e), CompileSimple(m, f, ts, e))
  {
    hide CheckSimple, CompileSimple, Agrees;
    match e
    case Op1Expr(_) => TypesAgreeOps(m, f, base, ts, e);
    case Op2Expr(_) => TypesAgreeOps(m, f, base, ts, e);
    case Load(_) => TypesAgreeOps(m, f, base, ts, e);
    case Store(_) => TypesAgreeOps(m, f, base, ts, e);
    case LocalGet(_) => TypesAgreeVars(m, f, base, ts, e);
    case LocalSet(_) => TypesAgreeVars(m, f, base, ts, e);
    case LocalTee(_) => TypesAgreeTee(m, f, base, ts, e);
    case GlobalGet(_) => TypesAgreeVars(m, f, base, ts, e);
    case GlobalSet(_) => TypesAgreeVars(m, f, base, ts, e);
    case Select => TypesAgreeSelect(m, f, base, ts, e);
    case MemoryGrow => TypesAgreeSelect(m, f, base, ts, e);
    case MemorySize => TypesAgreePlain(m, f, base, ts, e);
    case Const(_, _) => TypesAgreePlain(m, f, base, ts, e);
    case Drop => TypesAgreePlain(m, f, base, ts, e);
    case Nop => TypesAgreePlain(m, f, base, ts, e);
    case Unreachable => TypesAgreePlain(m, f, base, ts, e);
    case _ =>
  }

  /** After every instruction the writer's type stack is the typing of the operand stack, and
      the writer stops exactly where the rest of a list is dead. */
  lemma {:induction false} TypesAgree(m: Module, f: Func, labels: seq<Label>, base: nat, ts: seq<ValType>, e: Expr)
    requires labels != [] && base <= |ts|
    requires !CheckExpr(m, f, labels, base, ts, e).Invalid?
    ensures CheckExpr(m, f, labels, base, ts, e).Dead? <==> Stops(e)
    ensures Agrees(base, ts, CheckExpr(m, f, labels, base, ts, e), CompileExpr(m, f, labels, ts, e))
  {
    hide CheckSimple, CompileSimple, Agrees, CheckList, CompileList, GotoStmts, ValidBranch;
    if IsSimple(e) {
      TypesAgreeSimple(m, f, base, ts, e);
    } else {
      TypesAgreeControl(m, f, labels, base, ts, e);
    }
  }

  lemma TypesAgreeControl(m: Module, f: Func, labels: seq<Label>, base: nat, ts: seq<ValType>, e: Expr)
    requires labels != [] && base <= |ts| && !IsSimple(e)
    requires !CheckExpr(m, f, labels, base, ts, e).Invalid?
    ensures CheckExpr(m, f, labels, base, ts, e).Dead? <==> Stops(e)
    ensures Agrees(base, ts, CheckExpr(m, f, labels, base, ts, e), CompileExpr(m, f, labels, ts, e))
  {
    hide CheckList, CompileList, GotoStmts, ValidBranch, Resolve;
    match e
    case Loop(name, results, body) => LoopTypes(m, f, labels, ts, e);
    case _ =>
  }

  /** A loop without a body has no results, so that writing nothing for it is right. */
  lemma LoopTypes(m: Module, f: Func, labels: seq<Label>, ts: seq<ValType>, e: Expr)
    requires e.Loop?
    requires !CheckBody(m, f, labels + [Label(LoopLabel, e.name, e.results, |ts|)], ts, e.results, e.body).Invalid?
    ensures e.body.Nil? ==> e.results == []
  {
    if e.body.Nil? { assert |ts| == |ts + e.results|; }
  }

  // ----- instructions that become one statement -----

  /** Writing slot `k`, at the type a new type stack gives it, keeps everything below it. */
  lemma WriteSlot(f: Func, ts: seq<ValType>, k: nat, t: ValType, v: nat, w: State, c: CState<Sym>, w': State)
    requires Related(f, ts, w, c) && k <= |ts|
    requires w' == w.(stack := w.stack[..k] + [v])
    ensures Related(f, ts[..k] + [t], w', c.(vars := c.vars[Slot(k, t) := v]))
  {
    var ts', c' := ts[..k] + [t], c.(vars := c.vars[Slot(k, t) := v]);
    forall j | 0 <= j < |ts'|
      ensures Holds(c', j, ts'[j], w'.stack[j])
    {
      if j < k { assert Holds(c, j, ts[j], w.stack[j]); }
    }
  }

  /** Dropping operands keeps the invariant. */
  lemma DropSlots(f: Func, ts: seq<ValType>, k: nat, w: State, c: CState<Sym>, w': State)
    requires Related(f, ts, w, c) && k <= |ts|
    requires w' == w.(stack := w.stack[..k])
    ensures Related(f, ts[..k], w', c)
  {
    forall j | 0 <= j < k
      ensures Holds(c, j, ts[..k][j], w'.stack[j])
    {
      assert Holds(c, j, ts[j], w.stack[j]);
    }
  }

  lemma WriteLocal(f: Func, ts: seq<ValType>, i: nat, v: nat, w: State, c: CState<Sym>)
    requires Related(f, ts, w, c) && i < |f.localNames| && NoDuplicates(f.localNames)
    ensures Related(f, ts, w.(locals := w.locals[i := v]), c.(vars := c.vars[Named(f.localNames[i]) := v]))
  {
    var c' := c.(vars := c.vars[Named(f.localNames[i]) := v]);
    forall j | 0 <= j < |ts|
      ensures Holds(c', j, ts[j], w.stack[j])
    {
      assert Holds(c, j, ts[j], w.stack[j]);
    }
  }

  /** The variable read for an operand holds that operand. */
  lemma ReadSlot(f: Func, ts: seq<ValType>, i: nat, w: State, c: CState<Sym>)
    requires Related(f, ts, w, c) && i < |ts|
    ensures StackVar(ts, i) in c.vars && c.vars[StackVar(ts, i)] == Top(w, i)
  {
    assert Holds(c, |ts| - 1 - i, ts[|ts| - 1 - i], w.stack[|ts| - 1 - i]);
  }

  ghost predicate StepMatches(f: Func, ts': seq<ValType>, r: Result, rc: CResult<Sym>) {
    match r.out
    case Normal => rc.out == CNormal && Related(f, ts', r.st, rc.st)
    case Trap => rc.out == CTrapped && rc.st.world == r.st.world && rc.st.fuel == r.st.fuel
    case Exhausted => rc.out == CExhausted && rc.st.world == r.st.world && rc.st.fuel == r.st.fuel
    case _ => false
  }

  ghost function RunOne(sem: Sem, p: CProg<Sym>, code: seq<Stmt>, c: CState<Sym>): CResult<Sym>
    requires |code| <= 1
  {
    if code == [] then CResult(CNormal, c) else ExecStmt(sem, p, code[0], c)
  }

  /** The statement emitted for a simple instruction, if any, does what the instruction does. */
  ghost predicate StatementMatches(sem: Sem, m: Module, f: Func, ts: seq<ValType>, e: Expr, w: State, c: CState<Sym>) {
    var code := CompileSimple(m, f, ts, e);
    && |code.stmts| <= 1
    && StepMatches(f, code.types, Step(sem, m, f, e, w), RunOne(sem, CompileModule(m), code.stmts, c))
  }

  /** Computing a value from operands above slot `k` and storing it in slot `k`. */
  lemma StoreMatches(f: Func, ts: seq<ValType>, k: nat, t: ValType, v: Option<nat>, w: State, c: CState<Sym>)
    requires Related(f, ts, w, c) && k <= |ts|
    ensures StepMatches(f, ts[..k] + [t], PushOrTrap(w.(stack := w.stack[..k]), v), Put(Slot(k, t), FromOption(v), c))
  {
    if v.Some? {
      WriteSlot(f, ts, k, t, v.value, w, c, w.(stack := w.stack[..k] + [v.value]));
    }
  }

  /** From the parts: what the instruction does, what is emitted, what that does. */
  lemma FromParts(
    sem: Sem, m: Module, f: Func, ts: seq<ValType>, e: Expr, w: State, c: CState<Sym>, s: Stmt, ts': seq<ValType>,
    r: Result, rc: CResult<Sym>)
    requires CompileSimple(m, f, ts, e) == Code([s], ts', {})
    requires Step(sem, m, f, e, w) == r && ExecStmt(sem, CompileModule(m), s, c) == rc
    requires StepMatches(f, ts', r, rc)
    ensures StatementMatches(sem, m, f, ts, e, w, c)
  {
    hide CompileSimple, Step, ExecStmt, CompileModule, StepMatches;
  }

  lemma SimPush(sem: Sem, m: Module, f: Func, base: nat, ts: seq<ValType>, e: Expr, w: State, c: CState<Sym>)
    requires e.Const? || e.MemorySize?
    requires Related(f, ts, w, c) && !CheckSimple(m, f, base, ts, e).Invalid?
    ensures StatementMatches(sem, m, f, ts, e, w, c)
  {
    var n := |ts|;
    assert w.stack[..n] == w.stack && ts[..n] == ts;
    var t := if e.Const? then e.ty else I32;
    var v := if e.Const? then e.bits else sem.size(w.world.mem);
    StoreMatches(f, ts, n, t, Some(v), w, c);
    hide Related;
    assert w.(stack := w.stack[..n]) == w;
    FromParts(sem, m, f, ts, e, w, c, Assign(Slot(n, t), if e.Const? then ELit(e.bits) else ESize), ts + [t],
              Result(Normal, Push(w, v)), Put(Slot(n, t), Got(v), c));
  }

  lemma SimOp1(sem: Sem, m: Module, f: Func, base: nat, ts: seq<ValType>, e: Expr, w: State, c: CState<Sym>)
    requires e.Op1Expr? || e.Load?
    requires Related(f, ts, w, c) && !CheckSimple(m, f, base, ts, e).Invalid?
    ensures StatementMatches(sem, m, f, ts, e, w, c)
  {
    var n := |ts|;
    ReadSlot(f, ts, 0, w, c);
    var t := if e.Op1Expr? then e.op1.Result() else e.mem.ty;
    var v := if e.Op1Expr? then sem.apply1(e.op1, Top(w, 0)) else sem.load(e.mem, Top(w, 0), w.world.mem);
    StoreMatches(f, ts, n - 1, t, v, w, c);
    hide SlotsRelated, LocalsRelated;
    var x := StackVar(ts, 0);
    FromParts(sem, m, f, ts, e, w, c, Assign(Slot(n - 1, t), if e.Op1Expr? then EOp1(e.op1, x) else ELoad(e.mem, x)),
              ts[..n - 1] + [t], PushOrTrap(DropN(w, 1), v), Put(Slot(n - 1, t), FromOption(v), c));
  }

  lemma SimOp2(sem: Sem, m: Module, f: Func, base: nat, ts: seq<ValType>, e: Expr, w: State, c: CState<Sym>)
    requires e.Op2Expr?
    requires Related(f, ts, w, c) && !CheckSimple(m, f, base, ts, e).Invalid?
    ensures StatementMatches(sem, m, f, ts, e, w, c)
  {
    var n := |ts|;
    var op := e.op2;
    ReadSlot(f, ts, 0, w, c);
    ReadSlot(f, ts, 1, w, c);
    assert ts[n - 2] == op.Param() by { assert ts[n - 2..][0] == ts[n - 2]; }
    var v := sem.apply2(op, Top(w, 1), Top(w, 0));
    StoreMatches(f, ts, n - 2, op.Result(), v, w, c);
    hide SlotsRelated, LocalsRelated;
    var dst := Slot(n - 2, op.Result());
    var s: Stmt := if WrittenAsAssignOp(op) then AssignOp(dst, op, StackVar(ts, 0))
                   else Assign(dst, EOp2(op, StackVar(ts, 1), StackVar(ts, 0)));
    assert WrittenAsAssignOp(op) ==> dst == StackVar(ts, 1);
    FromParts(sem, m, f, ts, e, w, c, s, ts[..n - 2] + [op.Result()], PushOrTrap(DropN(w, 2), v),
      Put(dst, FromOption(v), c));
  }

  lemma SimSelect(sem: Sem, m: Module, f: Func, base: nat, ts: seq<ValType>, e: Expr, w: State, c: CState<Sym>)
    requires e.Select?
    requires Related(f, ts, w, c) && !CheckSimple(m, f, base, ts, e).Invalid?
    ensures StatementMatches(sem, m, f, ts, e, w, c)
  {
    var n := |ts|;
    ReadSlot(f, ts, 0, w, c);
    ReadSlot(f, ts, 1, w, c);
    ReadSlot(f, ts, 2, w, c);
    var v := if Top(w, 0) != 0 then Top(w, 2) else Top(w, 1);
    StoreMatches(f, ts, n - 3, ts[n - 2], Some(v), w, c);
    hide SlotsRelated, LocalsRelated;
    var s: Stmt := Assign(StackVar(ts, 2), ECond(StackVar(ts, 0), StackVar(ts, 2), StackVar(ts, 1)));
    FromParts(sem, m, f, ts, e, w, c, s, ts[..n - 3] + [ts[n - 2]],
              Result(Normal, Push(DropN(w, 3), v)), Put(StackVar(ts, 2), Got(v), c));
  }

  lemma SimGrow(sem: Sem, m: Module, f: Func, base: nat, ts: seq<ValType>, e: Expr, w: State, c: CState<Sym>)
    requires e.MemoryGrow?
    requires Related(f, ts, w, c) && !CheckSimple(m, f, base, ts, e).Invalid?
    ensures StatementMatches(sem, m, f, ts, e, w, c)
  {
    var n := |ts|;
    ReadSlot(f, ts, 0, w, c);
    var (v, mem) := sem.grow(Top(w, 0), w.world.mem);
    assert ts[n - 1] == I32 by { assert ts[n - 1..][0] == I32; }
    assert ts[..n - 1] + [I32] == ts;
    var w1 := w.(stack := w.stack[..n - 1] + [v]);
    var c1 := c.(vars := c.vars[Slot(n - 1, I32) := v]);
    WriteSlot(f, ts, n - 1, I32, v, w, c, w1);
    hide SlotsRelated;
    FromParts(sem, m, f, ts, e, w, c, CGrow(StackVar(ts, 0), StackVar(ts, 0)), ts,
              Result(Normal, w1.(world := w.world.(mem := mem))), CResult(CNormal, c1.(world := w.world.(mem := mem))));
  }

  lemma SimStore(sem: Sem, m: Module, f: Func, base: nat, ts: seq<ValType>, e: Expr, w: State, c: CState<Sym>)
    requires e.Store?
    requires Related(f, ts, w, c) && !CheckSimple(m, f, base, ts, e).Invalid?
    ensures StatementMatches(sem, m, f, ts, e, w, c)
  {
    var n := |ts|;
    ReadSlot(f, ts, 0, w, c);
    ReadSlot(f, ts, 1, w, c);
    DropSlots(f, ts, n - 2, w, c, w.(stack := w.stack[..n - 2]));
    hide SlotsRelated;
    var mem := sem.store(e.mem, Top(w, 1), Top(w, 0), w.world.mem);
    FromParts(sem, m, f, ts, e, w, c, CStore(e.mem, StackVar(ts, 1), StackVar(ts, 0)), ts[..n - 2],
              if mem.None? then Result(Trap, DropN(w, 2))
                else Result(Normal, DropN(w, 2).(world := w.world.(mem := mem.value))),
              if mem.None? then CResult(CTrapped, c) else CResult(CNormal, c.(world := w.world.(mem := mem.value))));
  }

  lemma SimLocalGet(sem: Sem, m: Module, f: Func, base: nat, ts: seq<ValType>, e: Expr, w: State, c: CState<Sym>)
    requires e.LocalGet? && e.x.Name?
    requires Related(f, ts, w, c) && !CheckSimple(m, f, base, ts, e).Invalid?
    ensures StatementMatches(sem, m, f, ts, e, w, c)
  {
    var n := |ts|;
    var i := Resolve(f.localNames, e.x).value;
    var t := LocalType(f, e.x);
    assert ts[..n] == ts && w.stack[..n] == w.stack;
    StoreMatches(f, ts, n, t, Some(w.locals[i]), w, c);
    assert VarSym(e.x) == Named(f.localNames[i]);
    assert w.(stack := w.stack[..n]) == w;
    hide SlotsRelated;
    FromParts(sem, m, f, ts, e, w, c, Assign(Slot(n, t), EVar(VarSym(e.x))), ts + [t],
              Result(Normal, Push(w, w.locals[i])), Put(Slot(n, t), Got(w.locals[i]), c));
  }

  lemma SimGlobalGet(sem: Sem, m: Module, f: Func, base: nat, ts: seq<ValType>, e: Expr, w: State, c: CState<Sym>)
    requires e.GlobalGet? && e.x.Name?
    requires Related(f, ts, w, c) && !CheckSimple(m, f, base, ts, e).Invalid?
    ensures StatementMatches(sem, m, f, ts, e, w, c)
  {
    var n := |ts|;
    var i := Resolve(GlobalNames(m), e.x).value;
    var t := m.globals[i].ty;
    assert ts[..n] == ts && w.stack[..n] == w.stack;
    StoreMatches(f, ts, n, t, Some(w.world.Global(sem.address(i))), w, c);
    var p := CompileModule(m);
    assert GlobalVar(e.x) in p.genv && p.genv[GlobalVar(e.x)] == i;
    assert w.(stack := w.stack[..n]) == w;
    hide SlotsRelated, LocalsRelated, CompileModule;
    FromParts(sem, m, f, ts, e, w, c, Assign(Slot(n, t), EGlobal(GlobalVar(e.x))), ts + [t],
              Result(Normal, Push(w, w.world.Global(sem.address(i)))),
                Put(Slot(n, t), Got(w.world.Global(sem.address(i))), c));
  }

  lemma SimSetLocal(sem: Sem, m: Module, f: Func, base: nat, ts: seq<ValType>, e: Expr, w: State, c: CState<Sym>)
    requires (e.LocalSet? || e.LocalTee?) && e.x.Name?
    requires Related(f, ts, w, c) && !CheckSimple(m, f, base, ts, e).Invalid? && NoDuplicates(f.localNames)
    ensures StatementMatches(sem, m, f, ts, e, w, c)
  {
    var n := |ts|;
    ReadSlot(f, ts, 0, w, c);
    var i, v := Resolve(f.localNames, e.x).value, Top(w, 0);
    WriteLocal(f, ts, i, v, w, c);
    var w1 := w.(locals := w.locals[i := v]);
    var c1 := c.(vars := c.vars[VarSym(e.x) := v]);
    var keep := if e.LocalSet? then n - 1 else n;
    DropSlots(f, ts, keep, w1, c1, w1.(stack := w.stack[..keep]));
    assert ts[..n] == ts && w.stack[..n] == w.stack;
    hide SlotsRelated;
    FromParts(sem, m, f, ts, e, w, c, Assign(VarSym(e.x), EVar(StackVar(ts, 0))), ts[..keep],
              Result(Normal, w1.(stack := w.stack[..keep])), CResult(CNormal, c1));
  }

  lemma SimSetGlobal(sem: Sem, m: Module, f: Func, base: nat, ts: seq<ValType>, e: Expr, w: State, c: CState<Sym>)
    requires e.GlobalSet? && e.x.Name?
    requires Related(f, ts, w, c) && !CheckSimple(m, f, base, ts, e).Invalid?
    ensures StatementMatches(sem, m, f, ts, e, w, c)
  {
    var n := |ts|;
    var i := Resolve(GlobalNames(m), e.x).value;
    ReadSlot(f, ts, 0, w, c);
    DropSlots(f, ts, n - 1, w, c, w.(stack := w.stack[..n - 1]));
    var p := CompileModule(m);
    assert GlobalVar(e.x) in p.genv && p.genv[GlobalVar(e.x)] == i;
    hide SlotsRelated, CompileModule;
    var world := w.world.SetGlobal(sem.address(i), Top(w, 0));
    FromParts(sem, m, f, ts, e, w, c, SetGlobal(GlobalVar(e.x), StackVar(ts, 0)), ts[..n - 1],
              Result(Normal, DropN(w, 1).(world := world)), CResult(CNormal, c.(world := world)));
  }

  lemma SimDrop(sem: Sem, m: Module, f: Func, base: nat, ts: seq<ValType>, e: Expr, w: State, c: CState<Sym>)
    requires e.Drop? || e.Nop? || e.Unreachable?
    requires Related(f, ts, w, c) && !CheckSimple(m, f, base, ts, e).Invalid?
    ensures StatementMatches(sem, m, f, ts, e, w, c)
  {
    if e.Drop? { DropSlots(f, ts, |ts| - 1, w, c, w.(stack := w.stack[..|ts| - 1])); }
    hide SlotsRelated;
  }

  lemma SimSimple(sem: Sem, m: Module, f: Func, base: nat, ts: seq<ValType>, e: Expr, w: State, c: CState<Sym>)
    requires IsSimple(e)
    requires Related(f, ts, w, c) && !CheckSimple(m, f, base, ts, e).Invalid?
    requires NamedExpr(0, e) && NoDuplicates(f.localNames)
    ensures StatementMatches(sem, m, f, ts, e, w, c)
  {
    match e
    case Const(_, _) => SimPush(sem, m, f, base, ts, e, w, c);
    case MemorySize => SimPush(sem, m, f, base, ts, e, w, c);
    case Op1Expr(_) => SimOp1(sem, m, f, base, ts, e, w, c);
    case Load(_) => SimOp1(sem, m, f, base, ts, e, w, c);
    case Op2Expr(_) => SimOp2(sem, m, f, base, ts, e, w, c);
    case Select => SimSelect(sem, m, f, base, ts, e, w, c);
    case MemoryGrow => SimGrow(sem, m, f, base, ts, e, w, c);
    case Store(_) => SimStore(sem, m, f, base, ts, e, w, c);
    case LocalGet(_) => SimLocalGet(sem, m, f, base, ts, e, w, c);
    case GlobalGet(_) => SimGlobalGet(sem, m, f, base, ts, e, w, c);
    case LocalSet(_) => SimSetLocal(sem, m, f, base, ts, e, w, c);
    case LocalTee(_) => SimSetLocal(sem, m, f, base, ts, e, w, c);
    case GlobalSet(_) => SimSetGlobal(sem, m, f, base, ts, e, w, c);
    case _ => SimDrop(sem, m, f, base, ts, e, w, c);
  }
}

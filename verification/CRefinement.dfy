/** The simulation for control flow, and the theorem for whole modules. */
module CRefinement {
  import opened Util
  import opened Wasm
  import opened Validation
  import opened CLang
  import opened CCompile
  import opened CSimulation

  /** Where a list is translated: the function and the label stack, and the height of the operand
      stack at the start of the innermost block. */
  datatype Ctx = Ctx(sem: Sem, m: Module, f: Func, labels: seq<Label>, base: nat)
  {
    ghost function Prog(): CProg<Sym> { CompileModule(m) }

    ghost predicate Ok() {
      && ValidModule(m) && WritableModule(m)
      && f in m.funcs && !f.imported
      && LabelsOk(f, labels, base)
    }

    function Inner(l: Label): Ctx { Ctx(sem, m, f, labels + [l], l.height) }
  }

  ghost predicate KeepsBase(base: nat, w: State, w': State) {
    base <= |w.stack| && base <= |w'.stack| && w'.stack[..base] == w.stack[..base]
  }

  /** Running `whole` from position `a` matches the result `r` of running the instructions whose
      code occupies `whole[a..b]`; `c'` is the C state reached. */
  ghost predicate Simulates(
    x: Ctx, ts: seq<ValType>, typing: Typing, used: set<nat>,
    whole: seq<Stmt>, a: nat, b: nat, w: State, r: Result, c: CState<Sym>, c': CState<Sym>)
    requires a <= b <= |whole|
  {
    var run := ExecFrom(x.sem, x.Prog(), whole, a, c);
    match r.out
    case Normal =>
      && typing.Typed?
      && run == ExecFrom(x.sem, x.Prog(), whole, b, c')
      && Related(x.f, typing.types, r.st, c')
      && KeepsBase(x.base, w, r.st)
    case Branch(d) =>
      && d < |x.labels| && a < b
      && var i := |x.labels| - 1 - d;
      && i in used
      && run == Jump(x.sem, x.Prog(), whole, a, LabelSym(x.labels, i), c')
      && Arrived(x.f, ts, x.labels[i], r.st, c')
      && KeepsBase(x.base, w, r.st)
    case Trap => run == CResult(CTrapped, c') && c'.world == r.st.world && c'.fuel == r.st.fuel
    case Exhausted => run == CResult(CExhausted, c') && c'.world == r.st.world && c'.fuel == r.st.fuel
    case Wrong => false
  }

  // ----- positions in the code -----

  /** A jump to a label outside `whole[a+1..q+1]` is the same wherever in between it is raised. */
  lemma JumpShift(sem: Sem, p: CProg<Sym>, whole: seq<Stmt>, a: nat, q: nat, l: Sym, c: CState<Sym>)
    requires a <= q < |whole|
    requires forall j | a < j <= q :: whole[j] != CLabel(l)
    ensures Jump(sem, p, whole, a, l, c) == Jump(sem, p, whole, q, l, c)
  {}

  ghost predicate CodeAt(whole: seq<Stmt>, a: nat, code: seq<Stmt>) {
    a + |code| <= |whole| && whole[a..a + |code|] == code
  }

  lemma CodeAtConcat(whole: seq<Stmt>, a: nat, c1: seq<Stmt>, c2: seq<Stmt>)
    requires CodeAt(whole, a, c1 + c2)
    ensures CodeAt(whole, a, c1) && CodeAt(whole, a + |c1|, c2)
  {
    assert whole[a..a + |c1|] == (c1 + c2)[..|c1|];
    assert whole[a + |c1|..a + |c1| + |c2|] == (c1 + c2)[|c1|..];
  }

  lemma CodeAtNth(whole: seq<Stmt>, a: nat, code: seq<Stmt>, i: nat)
    requires CodeAt(whole, a, code) && i < |code|
    ensures whole[a + i] == code[i]
  {
    assert whole[a..a + |code|][i] == code[i];
  }

  /** Code whose labels are all local does not declare an enclosing label. */
  lemma EnclosingNotInside(x: Ctx, whole: seq<Stmt>, a: nat, code: seq<Stmt>, inner: set<string>, i: nat)
    requires CodeAt(whole, a, code) && LabelsWithin(code, inner) && Fresh(x.labels, inner) && i < |x.labels|
    ensures forall j | a <= j < a + |code| :: whole[j] != CLabel(LabelSym(x.labels, i))
  {
    forall j | a <= j < a + |code|
      ensures whole[j] != CLabel(LabelSym(x.labels, i))
    {
      CodeAtNth(whole, a, code, j - a);
    }
  }

  // ----- sequencing -----

  lemma Compose(
    x: Ctx, ts: seq<ValType>, ts1: seq<ValType>, typing: Typing, used1: set<nat>, used2: set<nat>,
    whole: seq<Stmt>, a: nat, a1: nat, b: nat, inner: set<string>, code1: seq<Stmt>,
    w: State, r1: Result, r: Result, c: CState<Sym>, c1: CState<Sym>, c': CState<Sym>)
    requires a <= a1 <= b <= |whole| && x.Ok()
    requires CodeAt(whole, a, code1) && a1 == a + |code1|
    requires LabelsWithin(code1, inner) && Fresh(x.labels, inner)
    requires forall j, i | a1 <= j < b && 0 <= i < |x.labels| :: whole[j] != CLabel(LabelSym(x.labels, i))
    requires r1.out.Normal? && x.base <= |ts| && x.base <= |ts1| && ts1[..x.base] == ts[..x.base]
    requires Simulates(x, ts, Typed(ts1), used1, whole, a, a1, w, r1, c, c1)
    requires Simulates(x, ts1, typing, used2, whole, a1, b, r1.st, r, c1, c')
    ensures Simulates(x, ts, typing, used1 + used2, whole, a, b, w, r, c, c')
  {
    hide ExecFrom, Jump, ExecStmt, CompileModule, LocalsRelated, ValidModule, WritableModule, UniqueLabels;
    if r.out.Branch? {
      var i := |x.labels| - 1 - r.out.depth;
      EnclosingNotInside(x, whole, a, code1, inner, i);
      JumpShift(x.sem, x.Prog(), whole, a, a1, LabelSym(x.labels, i), c');
      assert x.labels[i].height <= x.base;
      forall k | 0 <= k < x.labels[i].height
        ensures Holds(c', k, ts[k], r.st.stack[k])
      {
        assert ts1[..x.base][k] == ts[..x.base][k];
        assert Holds(c', k, ts1[k], r.st.stack[k]);
      }
    }
  }

  // ----- jumps -----

  lemma TargetAgrees(x: Ctx, v: Var, w: State)
    requires x.Ok() && Target(x.labels, v).Some? && NamedLabel(|x.labels|, v)
    ensures FindLabelIndex(x.labels, v) == Target(x.labels, v).value
    ensures GotoSym(v) == LabelSym(x.labels, FindLabelIndex(x.labels, v))
    ensures BranchTo(Infos(x.labels), v, w) == Result(Branch(|x.labels| - 1 - FindLabelIndex(x.labels, v)), w)
  {
    hide ValidModule, WritableModule;
    InfosSnoc(x.labels, FuncLabelOf(x.f));
  }

  lemma ArrivedUnmoved(x: Ctx, ts: seq<ValType>, l: Label, w: State, c: CState<Sym>)
    requires Related(x.f, ts, w, c) && EndsWith(l.height, ts, l.BranchTypes()) && |l.results| <= 1
    requires l.BranchTypes() != [] ==> l.height == |ts| - 1
    ensures Arrived(x.f, ts, l, w, c)
  {
    if l.BranchTypes() != [] {
      assert ts[|ts| - 1..][0] == ts[|ts| - 1];
      assert Holds(c, |ts| - 1, ts[|ts| - 1], w.stack[|ts| - 1]);
    }
  }

  lemma ArrivedMoved(x: Ctx, ts: seq<ValType>, l: Label, w: State, c: CState<Sym>, c': CState<Sym>)
    requires Related(x.f, ts, w, c) && EndsWith(l.height, ts, l.BranchTypes())
    requires |l.BranchTypes()| == 1
    requires c' == c.(vars := c.vars[Slot(l.height, l.BranchTypes()[0]) := Last(w.stack)])
    ensures Arrived(x.f, ts, l, w, c')
  {
    forall k | 0 <= k < l.height
      ensures Holds(c', k, ts[k], w.stack[k])
    {
      assert Holds(c, k, ts[k], w.stack[k]);
    }
  }

  lemma RunEnd(sem: Sem, p: CProg<Sym>, whole: seq<Stmt>, c: CState<Sym>)
    ensures ExecFrom(sem, p, whole, |whole|, c) == CResult(CNormal, c)
  {}

  lemma RunStatement(sem: Sem, p: CProg<Sym>, whole: seq<Stmt>, q: nat, c: CState<Sym>)
    requires q < |whole|
    ensures var r := ExecStmt(sem, p, whole[q], c);
            ExecFrom(sem, p, whole, q, c) ==
              if r.out.CNormal? then ExecFrom(sem, p, whole, q + 1, r.st)
              else if r.out.CJump? then Jump(sem, p, whole, q, r.out.l, r.st)
              else r
  {}

  lemma RunMove(sem: Sem, p: CProg<Sym>, dst: Sym, v: Sym, c: CState<Sym>)
    requires v in c.vars
    ensures ExecStmt(sem, p, Assign(dst, EVar(v)), c) == CResult(CNormal, c.(vars := c.vars[dst := c.vars[v]]))
  {}

  lemma RunJump(sem: Sem, p: CProg<Sym>, l: Sym, c: CState<Sym>)
    ensures ExecStmt(sem, p, CGoto(l), c) == CResult(CJump(l), c)
  {}

  /** The run of the one or two statements of a jump. */
  lemma RunGoto(
    sem: Sem, p: CProg<Sym>, whole: seq<Stmt>, a: nat, code: seq<Stmt>, l: Sym, c: CState<Sym>, c': CState<Sym>)
    requires CodeAt(whole, a, code)
    requires || (code == [CGoto(l)] && c' == c)
             || (|code| == 2 && code[1] == CGoto(l) && ExecStmt(sem, p, code[0], c) == CResult(CNormal, c'))
    ensures ExecFrom(sem, p, whole, a, c) == Jump(sem, p, whole, a, l, c')
  {
    hide ExecFrom, Jump, ExecStmt, UniqueLabels;
    CodeAtNth(whole, a, code, 0);
    RunStatement(sem, p, whole, a, c);
    RunJump(sem, p, l, c');
    if |code| == 2 {
      CodeAtNth(whole, a, code, 1);
      RunStatement(sem, p, whole, a + 1, c');
      JumpShift(sem, p, whole, a, a + 1, l, c');
    }
  }

  /** The state after the statements of a jump. */
  function AfterGoto(l: Label, code: seq<Stmt>, w: State, c: CState<Sym>): CState<Sym>
    requires |code| == 2 ==> l.results != [] && w.stack != []
  {
    if |code| == 2 then c.(vars := c.vars[Slot(l.height, l.results[0]) := Last(w.stack)]) else c
  }

  lemma GotoMoves(x: Ctx, ts: seq<ValType>, v: Var, i: nat, whole: seq<Stmt>, a: nat, w: State, c: CState<Sym>)
    requires x.labels != [] && i == FindLabelIndex(x.labels, v) && Related(x.f, ts, w, c)
    requires EndsWith(x.labels[i].height, ts, x.labels[i].BranchTypes()) && |x.labels[i].results| <= 1
    requires CodeAt(whole, a, GotoStmts(x.labels, ts, v))
    ensures |GotoStmts(x.labels, ts, v)| == 2 ==> x.labels[i].results != [] && w.stack != []
    ensures var c' := AfterGoto(x.labels[i], GotoStmts(x.labels, ts, v), w, c);
            && ExecFrom(x.sem, x.Prog(), whole, a, c) == Jump(x.sem, x.Prog(), whole, a, GotoSym(v), c')
            && Arrived(x.f, ts, x.labels[i], w, c')
  {
    hide ExecFrom, Jump, ExecStmt, CompileModule, LocalsRelated, SlotsRelated, FindLabelIndex, GotoSym;
    var code := GotoStmts(x.labels, ts, v);
    var l := x.labels[i];
    if |code| == 1 {
      ArrivedUnmoved(x, ts, l, w, c);
      RunGoto(x.sem, x.Prog(), whole, a, code, GotoSym(v), c, c);
    } else {
      ReadSlot(x.f, ts, 0, w, c);
      var c' := c.(vars := c.vars[Slot(l.height, l.results[0]) := Last(w.stack)]);
      ArrivedMoved(x, ts, l, w, c, c');
      RunMove(x.sem, x.Prog(), Slot(l.height, l.results[0]), StackVar(ts, 0), c);
      RunGoto(x.sem, x.Prog(), whole, a, code, GotoSym(v), c, c');
    }
  }

  /** The statements of a jump carry the value to its slot and reach the label. */
  lemma SimGoto(x: Ctx, ts: seq<ValType>, v: Var, whole: seq<Stmt>, a: nat, w: State, c: CState<Sym>)
    returns (c': CState<Sym>)
    requires x.Ok() && x.base <= |ts| && Related(x.f, ts, w, c)
    requires ValidBranch(x.labels, x.base, ts, v) && NamedLabel(|x.labels|, v)
    requires CodeAt(whole, a, GotoStmts(x.labels, ts, v))
    ensures Simulates(x, ts, Dead, {FindLabelIndex(x.labels, v)}, whole, a, a + |GotoStmts(x.labels, ts, v)|,
                      w, BranchTo(Infos(x.labels), v, w), c, c')
  {
    hide ExecFrom, Jump, CompileModule, LocalsRelated, SlotsRelated, ValidModule, WritableModule, FindLabelIndex,
      GotoSym, BranchTo, Arrived;
    TargetAgrees(x, v, w);
    var i := FindLabelIndex(x.labels, v);
    GotoMoves(x, ts, v, i, whole, a, w, c);
    c' := AfterGoto(x.labels[i], GotoStmts(x.labels, ts, v), w, c);
  }

  lemma JumpBack(sem: Sem, p: CProg<Sym>, code: seq<Stmt>, a: nat, pc: nat, l: Sym, c: CState<Sym>)
    requires a <= pc < |code| && UniqueLabels(code) && code[a] == CLabel(l)
    ensures Jump(sem, p, code, pc, l, c) ==
              if c.fuel == 0 then CResult(CExhausted, c) else ExecFrom(sem, p, code, a, c.(fuel := c.fuel - 1))
  {
    FindUnique(code, a, l);
  }

  lemma JumpOut(sem: Sem, p: CProg<Sym>, code: seq<Stmt>, pc: nat, l: Sym, c: CState<Sym>)
    requires pc < |code| && FindLabel(code, l) == None
    ensures Jump(sem, p, code, pc, l, c) == CResult(CJump(l), c)
  {}

  /** Inside a nested list nothing but the jump itself happens. */
  lemma SimGotoNested(x: Ctx, ts: seq<ValType>, v: Var, w: State, c: CState<Sym>) returns (c': CState<Sym>)
    requires x.Ok() && x.base <= |ts| && Related(x.f, ts, w, c)
    requires ValidBranch(x.labels, x.base, ts, v) && NamedLabel(|x.labels|, v)
    ensures var code := GotoStmts(x.labels, ts, v);
            var i := FindLabelIndex(x.labels, v);
            && ExecFrom(x.sem, x.Prog(), code, 0, c) == CResult(CJump(LabelSym(x.labels, i)), c')
            && BranchTo(Infos(x.labels), v, w) == Result(Branch(|x.labels| - 1 - i), w)
            && Arrived(x.f, ts, x.labels[i], w, c')
  {
    hide Jump, ExecStmt, CompileModule, LocalsRelated, SlotsRelated, ValidModule, WritableModule, BranchTo;
    var code := GotoStmts(x.labels, ts, v);
    var i := FindLabelIndex(x.labels, v);
    assert CodeAt(code, 0, code);
    c' := SimGoto(x, ts, v, code, 0, w, c);
    TargetAgrees(x, v, w);
    GotoHasNoLabels(x.labels, ts, v);
    FindAbsent(code, {}, LabelSym(x.labels, i).name);
    JumpOut(x.sem, x.Prog(), code, 0, LabelSym(x.labels, i), c');
  }

  // ----- simple instructions -----

  lemma StepKeepsBase(x: Ctx, ts: seq<ValType>, e: Expr, w: State)
    requires IsSimple(e) && |w.stack| == |ts| && x.base <= |ts|
    requires !CheckSimple(x.m, x.f, x.base, ts, e).Invalid?
    ensures Step(x.sem, x.m, x.f, e, w).out.Normal? ==> KeepsBase(x.base, w, Step(x.sem, x.m, x.f, e, w).st)
  {}

  lemma LiftStatement(
    x: Ctx, ts: seq<ValType>, ts': seq<ValType>, typing: Typing, code: seq<Stmt>, whole: seq<Stmt>, a: nat,
    w: State, r: Result, c: CState<Sym>)
    requires |code| <= 1 && CodeAt(whole, a, code)
    requires StepMatches(x.f, ts', r, RunOne(x.sem, x.Prog(), code, c))
    requires r.out.Normal? ==> KeepsBase(x.base, w, r.st) && typing == Typed(ts')
    ensures Simulates(x, ts, typing, {}, whole, a, a + |code|, w, r, c, RunOne(x.sem, x.Prog(), code, c).st)
  {
    hide ExecStmt, ExecFrom, Jump, CompileModule, Related;
    if |code| == 1 {
      CodeAtNth(whole, a, code, 0);
      RunStatement(x.sem, x.Prog(), whole, a, c);
    }
  }

  // ----- leaving a block -----

  lemma LeaveRelated(x: Ctx, ts: seq<ValType>, l: Label, w: State, r: Result, c: CState<Sym>)
    requires |w.stack| == |ts| && r.out == Branch(0)
    requires l.height == |ts| && KeepsBase(|ts|, w, r.st) && Arrived(x.f, ts, l, r.st, c)
    ensures Leave(w, |l.BranchTypes()|, r).out.Normal?
    ensures Related(x.f, ts + l.BranchTypes(), Leave(w, |l.BranchTypes()|, r).st, c)
    ensures KeepsBase(|ts|, w, Leave(w, |l.BranchTypes()|, r).st)
  {
    var w' := Leave(w, |l.BranchTypes()|, r).st;
    var ts' := ts + l.BranchTypes();
    forall k | 0 <= k < |ts'|
      ensures Holds(c, k, ts'[k], w'.stack[k])
    {
      if k < |ts| {
        assert Holds(c, k, ts[k], r.st.stack[k]);
        assert r.st.stack[..|ts|][k] == w.stack[..|ts|][k];
      }
    }
  }

  /** Running on past the label declared after a construct. */
  lemma PassLabel(sem: Sem, p: CProg<Sym>, whole: seq<Stmt>, q: nat, decl: seq<Stmt>, name: string, c: CState<Sym>)
    requires CodeAt(whole, q, decl) && (decl == [] || decl == [CLabel(Named(name))])
    ensures ExecFrom(sem, p, whole, q, c) == ExecFrom(sem, p, whole, q + |decl|, c)
  {
    if decl != [] {
      CodeAtNth(whole, q, decl, 0);
      RunStatement(sem, p, whole, q, c);
    }
  }

  /** A jump forward to that label. */
  lemma JumpToLabel(sem: Sem, p: CProg<Sym>, whole: seq<Stmt>, a: nat, q: nat, name: string, c: CState<Sym>)
    requires a < q && UniqueLabels(whole) && CodeAt(whole, q, [CLabel(Named(name))])
    ensures Jump(sem, p, whole, a, Named(name), c) == ExecFrom(sem, p, whole, q + 1, c)
  {
    CodeAtNth(whole, q, [CLabel(Named(name))], 0);
    FindUnique(whole, q, Named(name));
    PassLabel(sem, p, whole, q, [CLabel(Named(name))], name, c);
  }

  function DeclOf(x: Ctx, l: Label, used: set<nat>): seq<Stmt> {
    if |x.labels| in used then [CLabel(Named(l.name))] else []
  }

  lemma KeepsLess(small: nat, big: nat, w: State, w': State)
    requires KeepsBase(big, w, w') && small <= big
    ensures KeepsBase(small, w, w')
  {
    assert w'.stack[..small] == w'.stack[..big][..small];
    assert w.stack[..small] == w.stack[..big][..small];
  }

  lemma LeaveToOwn(
    x: Ctx, ts: seq<ValType>, l: Label, used: set<nat>, whole: seq<Stmt>, a: nat, q: nat,
    w: State, r: Result, c: CState<Sym>, c1: CState<Sym>)
    requires r.out == Branch(0)
    requires x.labels != [] && x.base <= |ts| && |w.stack| == |ts| && l.height == |ts| && !l.kind.LoopLabel?
    requires a <= q && UniqueLabels(whole) && CodeAt(whole, q, DeclOf(x, l, used))
    requires Simulates(x.Inner(l), ts, Typed(ts + l.results), used, whole, a, q, w, r, c, c1)
    ensures Simulates(x, ts, Typed(ts + l.results), used - {|x.labels|},
                      whole, a, q + |DeclOf(x, l, used)|, w, Leave(w, |l.results|, r), c, c1)
  {
    hide ExecStmt, ExecFrom, Jump, CompileModule, Related, Arrived, UniqueLabels, CodeAt;
    assert x.Inner(l).labels[|x.labels|] == l;
    JumpToLabel(x.sem, x.Prog(), whole, a, q, l.name, c1);
    LeaveRelated(x, ts, l, w, r, c1);
    KeepsLess(x.base, |ts|, w, Leave(w, |l.results|, r).st);
  }

  lemma LeaveToOuter(
    x: Ctx, ts: seq<ValType>, typing: Typing, l: Label, used: set<nat>, whole: seq<Stmt>, a: nat, q: nat, b: nat,
    w: State, r: Result, arity: nat, c: CState<Sym>, c1: CState<Sym>)
    requires r.out.Branch? && r.out.depth > 0
    requires x.labels != [] && x.base <= |ts| && |w.stack| == |ts| && l.height == |ts|
    requires a <= q <= b <= |whole|
    requires Simulates(x.Inner(l), ts, typing, used, whole, a, q, w, r, c, c1)
    ensures Simulates(x, ts, typing, used - {|x.labels|}, whole, a, b, w, Leave(w, arity, r), c, c1)
  {
    hide ExecFrom, Jump, ExecStmt, CompileModule, Related, UniqueLabels;
    var i := |x.labels| - r.out.depth;
    assert x.Inner(l).labels[i] == x.labels[i];
    KeepsLess(x.base, |ts|, w, r.st);
  }

  /** Leaving the innermost label, on both sides: the construct's own code is `whole[a..q]`, and the
      declaration of its label, if it is used, follows. */
  lemma LeaveBlock(
    x: Ctx, ts: seq<ValType>, l: Label, used: set<nat>, whole: seq<Stmt>, a: nat, q: nat,
    w: State, r: Result, c: CState<Sym>, c1: CState<Sym>)
    requires x.labels != [] && x.base <= |ts| && |w.stack| == |ts| && l.height == |ts| && !l.kind.LoopLabel?
    requires a <= q && UniqueLabels(whole) && CodeAt(whole, q, DeclOf(x, l, used))
    requires Simulates(x.Inner(l), ts, Typed(ts + l.results), used, whole, a, q, w, r, c, c1)
    ensures Simulates(x, ts, Typed(ts + l.results), used - {|x.labels|},
                      whole, a, q + |DeclOf(x, l, used)|, w, Leave(w, |l.results|, r), c, c1)
  {
    hide ExecFrom, Jump, ExecStmt, CompileModule, Related, UniqueLabels, Arrived;
    match r.out
    case Normal =>
      PassLabel(x.sem, x.Prog(), whole, q, DeclOf(x, l, used), l.name, c1);
      KeepsLess(x.base, |ts|, w, r.st);
    case Branch(d) =>
      if d == 0 {
        LeaveToOwn(x, ts, l, used, whole, a, q, w, r, c, c1);
      } else {
        LeaveToOuter(x, ts, Typed(ts + l.results), l, used, whole, a, q, q + |DeclOf(x, l, used)|, w, r, |l.results|,
          c, c1);
      }
    case _ =>
  }

  lemma Weaken(
    x: Ctx, ts: seq<ValType>, t1: Typing, t2: Typing, used1: set<nat>, used2: set<nat>,
    whole: seq<Stmt>, a: nat, b: nat, w: State, r: Result, c: CState<Sym>, c': CState<Sym>)
    requires a <= b <= |whole| && used1 <= used2 && (t1.Typed? ==> t1 == t2)
    requires Simulates(x, ts, t1, used1, whole, a, b, w, r, c, c')
    ensures Simulates(x, ts, t2, used2, whole, a, b, w, r, c, c')
  {
    hide ExecFrom, Jump, ExecStmt, CompileModule, Related, Arrived;
  }

  /** From a nested list to the statement that contains it. */
  lemma LiftNested(
    x: Ctx, ts: seq<ValType>, typing: Typing, used: set<nat>, sub: seq<Stmt>, inner: set<string>,
    whole: seq<Stmt>, a: nat, w: State, r: Result, c: CState<Sym>, c1: CState<Sym>)
    requires a < |whole| && ExecStmt(x.sem, x.Prog(), whole[a], c) == ExecFrom(x.sem, x.Prog(), sub, 0, c)
    requires LabelsWithin(sub, inner) && Fresh(x.labels, inner)
    requires Simulates(x, ts, typing, used, sub, 0, |sub|, w, r, c, c1)
    ensures Simulates(x, ts, typing, used, whole, a, a + 1, w, r, c, c1)
  {
    hide ExecFrom, Jump, ExecStmt, CompileModule, Related, SlotsRelated, LocalsRelated;
    RunStatement(x.sem, x.Prog(), whole, a, c);
    RunEnd(x.sem, x.Prog(), sub, c1);
    if r.out.Branch? {
      var l := LabelSym(x.labels, |x.labels| - 1 - r.out.depth);
      FindAbsent(sub, inner, l.name);
      JumpOut(x.sem, x.Prog(), sub, 0, l, c1);
    }
  }

  // ----- calls -----

  lemma ArgumentValues(f: Func, ts: seq<ValType>, n: nat, skip: nat, w: State, c: CState<Sym>)
    requires Related(f, ts, w, c) && n + skip <= |ts|
    ensures Values(ArgVars(ts, n, skip), c) == Some(w.stack[|ts| - skip - n..|ts| - skip])
  {
    var args := ArgVars(ts, n, skip);
    forall i | 0 <= i < n
      ensures args[i] in c.vars && c.vars[args[i]] == w.stack[|ts| - skip - n + i]
    {
      ReadSlot(f, ts, n + skip - i - 1, w, c);
    }
    forall v | v in args
      ensures v in c.vars
    {}
    assert Values(args, c).value == w.stack[|ts| - skip - n..|ts| - skip];
  }

  /** The C state after a call returned `vals`. */
  function Returned(
    results: seq<ValType>, k: nat, vals: seq<nat>, world: World, fuel: nat, c: CState<Sym>): CState<Sym>
  {
    var c' := c.(world := world, fuel := fuel);
    if results == [] || vals == [] then c' else c'.(vars := c.vars[Slot(k, results[0]) := vals[0]])
  }

  lemma ReturnMatches(
    x: Ctx, ts: seq<ValType>, results: seq<ValType>, k: nat, vals: seq<nat>, world: World, fuel: nat, w: State,
    c: CState<Sym>)
    requires Related(x.f, ts, w, c) && x.base <= k <= |ts| && |vals| == |results| <= 1
    ensures var w' := w.(stack := w.stack[..k] + vals, world := world, fuel := fuel);
            Related(x.f, ts[..k] + results, w', Returned(results, k, vals, world, fuel, c)) && KeepsBase(x.base, w, w')
  {
    if results == [] {
      DropSlots(x.f, ts, k, w, c, w.(stack := w.stack[..k]));
      assert w.stack[..k] + vals == w.stack[..k] && ts[..k] + results == ts[..k];
    } else {
      WriteSlot(x.f, ts, k, results[0], vals[0], w, c, w.(stack := w.stack[..k] + [vals[0]]));
      assert vals == [vals[0]] && results == [results[0]];
    }
  }

  function ResultSlot(k: nat, results: seq<ValType>): Option<Sym> {
    if results == [] then None else Some(Slot(k, results[0]))
  }

  ghost predicate CallSimulated(x: Ctx, ts: seq<ValType>, i: nat, w: State, c: CState<Sym>)
    requires i < |x.m.funcs| && |x.m.funcs[i].sig.params| <= |ts| && |w.stack| == |ts|
  {
    var sig := x.m.funcs[i].sig;
    var k := |ts| - |sig.params|;
    var r := DoCall(x.sem, x.m, i, w);
    && StepMatches(x.f, ts[..k] + sig.results, r,
      CallC(x.sem, x.Prog(), i, ResultSlot(k, sig.results), w.stack[k..], c))
    && (r.out.Normal? ==> KeepsBase(x.base, w, r.st))
  }

  lemma ImportStaysImport(m: Module, i: nat)
    requires i < |m.funcs|
    ensures |CompileModule(m).funcs| == |m.funcs|
    ensures m.funcs[i].imported ==> CompileModule(m).funcs[i].CImport?
  {}

  lemma ImportMatches(x: Ctx, ts: seq<ValType>, i: nat, w: State, c: CState<Sym>)
    requires x.Ok() && i < |x.m.funcs| && Related(x.f, ts, w, c)
    requires EndsWith(x.base, ts, x.m.funcs[i].sig.params) && x.m.funcs[i].imported
    ensures CallSimulated(x, ts, i, w, c)
  {
    hide CompileModule, WritableModule, SlotsRelated, LocalsRelated;
    ImportStaysImport(x.m, i);
    var sig := x.m.funcs[i].sig;
    var k := |ts| - |sig.params|;
    assert ValidFunc(x.m, x.m.funcs[i]);
    var h := x.sem.host(i, w.stack[k..], w.world);
    if h.HostDone? {
      ReturnMatches(x, ts, sig.results, k, h.Results(|sig.results|), h.world, w.fuel, w, c);
    }
  }

  lemma ResultCount(sem: Sem, m: Module, i: nat, args: seq<nat>, world: World, fuel: nat)
    requires i < |m.funcs|
    ensures var r := RunFunc(sem, m, i, args, world, fuel);
            |r.results| == if r.out.Normal? then |m.funcs[i].sig.results| else 0
  {}

  lemma DoCallLocal(sem: Sem, m: Module, i: nat, k: nat, w: State)
    requires i < |m.funcs| && !m.funcs[i].imported && |w.stack| == k + |m.funcs[i].sig.params|
    ensures DoCall(sem, m, i, w) ==
              if w.fuel == 0 then Result(Exhausted, w.(stack := w.stack[..k]))
              else
                var rc := RunFunc(sem, m, i, w.stack[k..], w.world, w.fuel - 1);
                Result(rc.out, w.(world := rc.world, fuel := rc.fuel, stack := w.stack[..k] + rc.results))
  {}

  lemma CallCLocal(
    sem: Sem, p: CProg<Sym>, i: nat, k: nat, results: seq<ValType>, args: seq<nat>, c: CState<Sym>, rc: CallResult)
    requires i < |p.funcs| && p.funcs[i].CFunc? && c.fuel > 0
    requires rc == RunC(sem, p, i, args, c.world, c.fuel - 1)
    requires rc.out.Normal? ==> |rc.results| == |results| <= 1
    ensures var c' := c.(world := rc.world, fuel := rc.fuel);
            CallC(sem, p, i, ResultSlot(k, results), args, c) ==
              match rc.out
              case Normal => CResult(CNormal, Returned(results, k, rc.results, rc.world, rc.fuel, c))
              case Trap => CResult(CTrapped, c')
              case Exhausted => CResult(CExhausted, c')
              case _ => CResult(CStuck, c')
  {}

  lemma LocalCallMatches(x: Ctx, ts: seq<ValType>, i: nat, w: State, c: CState<Sym>)
    requires i < |x.m.funcs| && Related(x.f, ts, w, c)
    requires EndsWith(x.base, ts, x.m.funcs[i].sig.params) && |x.m.funcs[i].sig.results| <= 1
    requires !x.m.funcs[i].imported && x.Prog().funcs[i].CFunc?
    requires w.fuel > 0 ==>
               var args := w.stack[|ts| - |x.m.funcs[i].sig.params|..];
               var rc := RunC(x.sem, x.Prog(), i, args, w.world, w.fuel - 1);
               rc == RunFunc(x.sem, x.m, i, args, w.world, w.fuel - 1) && !rc.out.Wrong?
    ensures CallSimulated(x, ts, i, w, c)
  {
    var sig := x.m.funcs[i].sig;
    var k := |ts| - |sig.params|;
    var args := w.stack[k..];
    DoCallLocal(x.sem, x.m, i, k, w);
    if w.fuel > 0 {
      var rc := RunFunc(x.sem, x.m, i, args, w.world, w.fuel - 1);
      ResultCount(x.sem, x.m, i, args, w.world, w.fuel - 1);
      CallCLocal(x.sem, x.Prog(), i, k, sig.results, args, c, rc);
      if rc.out.Normal? {
        ReturnMatches(x, ts, sig.results, k, rc.results, rc.world, rc.fuel, w, c);
      }
    }
  }

  /** A call on both sides, given that the callee behaves the same. */
  lemma CallMatches(x: Ctx, ts: seq<ValType>, i: nat, w: State, c: CState<Sym>)
    requires x.Ok() && i < |x.m.funcs| && Related(x.f, ts, w, c)
    requires EndsWith(x.base, ts, x.m.funcs[i].sig.params)
    requires !x.m.funcs[i].imported && w.fuel > 0 ==>
               var args := w.stack[|ts| - |x.m.funcs[i].sig.params|..];
               var rc := RunC(x.sem, x.Prog(), i, args, w.world, w.fuel - 1);
               rc == RunFunc(x.sem, x.m, i, args, w.world, w.fuel - 1) && !rc.out.Wrong?
    ensures CallSimulated(x, ts, i, w, c)
  {
    assert ValidFunc(x.m, x.m.funcs[i]);
    if x.m.funcs[i].imported {
      ImportMatches(x, ts, i, w, c);
    } else {
      LocalCallMatches(x, ts, i, w, c);
    }
  }
}

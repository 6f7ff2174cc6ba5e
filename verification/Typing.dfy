/** The typing rules of section 3.3 of the WebAssembly Core Specification, as a relation: an instruction takes
    operands of some types and leaves others, whatever lies below them.  What is typed is accepted by the
    algorithm of module `Validation`. */
module Typing {
  import opened Util
  import opened Wasm
  import opened Validation

  type Types = seq<ValType>

  /** The types a branch to `x` carries. */
  ghost predicate Carries(labels: seq<Label>, x: Var, ts: Types) {
    match Depth(Names(labels), x)
    case None => false
    case Some(d) =>
      var l := labels[|labels| - 1 - d];
      ts == if l.kind == LoopLabel then [] else l.results
  }

  ghost predicate LocalIs(f: Func, x: Var, t: ValType) {
    match Resolve(f.localNames, x) case None => false case Some(i) =>
      i < |f.sig.params + f.locals| && (f.sig.params + f.locals)[i] == t
  }

  ghost predicate GlobalIs(m: Module, x: Var, t: ValType) {
    match Resolve(GlobalNames(m), x) case None => false case Some(i) => m.globals[i].ty == t
  }

  ghost predicate SimpleTyped(m: Module, f: Func, e: Expr, ps: Types, rs: Types) {
    match e
    case Const(t, _) => ps == [] && rs == [t]
    case Op1Expr(op) => ps == [op.Param()] && rs == [op.Result()]
    case Op2Expr(op) => ps == [op.Param(), op.Param()] && rs == [op.Result()]
    case LocalGet(x) => exists t :: LocalIs(f, x, t) && ps == [] && rs == [t]
    case LocalSet(x) => exists t :: LocalIs(f, x, t) && ps == [t] && rs == []
    case LocalTee(x) => exists t :: LocalIs(f, x, t) && ps == [t] && rs == [t]
    case GlobalGet(x) => exists t :: GlobalIs(m, x, t) && ps == [] && rs == [t]
    case GlobalSet(x) => exists t :: GlobalIs(m, x, t) && ps == [t] && rs == []
    case Load(op) => ps == [I32] && rs == [op.ty]
    case Store(op) => ps == [I32, op.ty] && rs == []
    case MemorySize => ps == [] && rs == [I32]
    case MemoryGrow => ps == [I32] && rs == [I32]
    case Nop => ps == [] && rs == []
    case Drop => |ps| == 1 && rs == []
    case Select => |ps| == 3 && ps[0] == ps[1] && ps[2] == I32 && rs == [ps[0]]
    case Unreachable => true
    case _ => false
  }

  /** After a branch that is always taken the results are arbitrary, and so is what lies below its operands. */
  ghost predicate InstrTyped(m: Module, f: Func, labels: seq<Label>, e: Expr, ps: Types, rs: Types)
    decreases e
  {
    match e
    case Call(x) =>
      (match Resolve(FuncNames(m), x)
       case None => false
       case Some(i) => ps == m.funcs[i].sig.params && rs == m.funcs[i].sig.results)
    case CallIndirect(sig) => |sig.results| <= 1 && ps == sig.params + [I32] && rs == sig.results
    case Return => labels != [] && exists below :: ps == below + f.sig.results
    case Br(x) => exists below, ts :: Carries(labels, x, ts) && ps == below + ts
    case BrIf(x) => exists ts :: Carries(labels, x, ts) && ps == ts + [I32] && rs == ts
    case BrTable(targets, default_) =>
      exists below, ts ::
        Carries(labels, default_, ts) && (forall i | 0 <= i < |targets| :: Carries(labels, targets[i], ts))
        && ps == below + ts + [I32]
    case Block(name, results, body) =>
      |results| <= 1 && ps == [] && rs == results
      && ListTyped(m, f, labels + [Label(BlockLabel, name, results, 0)], body, [], results)
    case Loop(name, results, body) =>
      |results| <= 1 && ps == [] && rs == results
      && ListTyped(m, f, labels + [Label(LoopLabel, name, results, 0)], body, [], results)
    case If(name, results, then_, else_) =>
      |results| <= 1 && ps == [I32] && rs == results
      && ListTyped(m, f, labels + [Label(IfLabel, name, results, 0)], then_, [], results)
      && ListTyped(m, f, labels + [Label(IfLabel, name, results, 0)], else_, [], results)
    case _ => SimpleTyped(m, f, e, ps, rs)
  }

  ghost predicate ListTyped(m: Module, f: Func, labels: seq<Label>, es: ExprList, ps: Types, rs: Types)
    decreases es
  {
    match es
    case Nil => ps == rs
    case Cons(e, rest) =>
      exists below, xs, ys ::
        ps == below + xs && InstrTyped(m, f, labels, e, xs, ys) && ListTyped(m, f, labels, rest, below + ys, rs)
  }

  ghost predicate FuncTyped(m: Module, f: Func) {
    && |f.sig.results| <= 1
    && (!f.imported ==>
          |f.localNames| == |f.sig.params| + |f.locals|
          && ListTyped(m, f, [Label(FuncLabel, "", f.sig.results, 0)], f.body, [], f.sig.results))
  }

  // ----- what is typed is accepted -----

  /** Labels that differ in their heights at most. */
  predicate Alike(a: seq<Label>, b: seq<Label>) {
    |a| == |b| && forall i | 0 <= i < |a| :: a[i] == b[i].(height := a[i].height)
  }

  lemma CarriedIs(a: seq<Label>, b: seq<Label>, x: Var, ts: Types)
    requires Alike(a, b) && Carries(a, x, ts)
    ensures var i := Target(b, x); i.Some? && b[i.value].BranchTypes() == ts
  {
    assert Names(a) == Names(b);
  }

  /** The algorithm's result for an instruction with these operands on top of its stack. */
  predicate Accepted(r: Typing, ts: Types, ps: Types, rs: Types) {
    r.Dead? || (|ps| <= |ts| && r == Typed(ts[..|ts| - |ps|] + rs))
  }

  predicate OnTop(base: nat, ts: Types, ps: Types) { base + |ps| <= |ts| && ts[|ts| - |ps|..] == ps }

  lemma Applied(base: nat, ts: Types, ps: Types, rs: Types)
    requires OnTop(base, ts, ps)
    ensures Accepted(Apply(base, ts, ps, rs), ts, ps, rs)
  {}

  lemma SimpleAccepted(m: Module, f: Func, base: nat, ts: Types, e: Expr, ps: Types, rs: Types)
    requires SimpleTyped(m, f, e, ps, rs) && OnTop(base, ts, ps)
    ensures Accepted(CheckSimple(m, f, base, ts, e), ts, ps, rs)
  {
    hide OnTop, Apply;
    Applied(base, ts, ps, rs);
    assert ts[..|ts| - 0] == ts && ts + [] == ts;
    match e
    case LocalGet(_) => VariableAccepted(m, f, base, ts, e, ps, rs);
    case LocalSet(_) => VariableAccepted(m, f, base, ts, e, ps, rs);
    case LocalTee(_) => VariableAccepted(m, f, base, ts, e, ps, rs);
    case GlobalGet(_) => VariableAccepted(m, f, base, ts, e, ps, rs);
    case GlobalSet(_) => VariableAccepted(m, f, base, ts, e, ps, rs);
    case Drop => ParametricAccepted(m, f, base, ts, e, ps, rs);
    case Select => ParametricAccepted(m, f, base, ts, e, ps, rs);
    case Unreachable =>
    case _ =>
  }

  lemma VariableAccepted(m: Module, f: Func, base: nat, ts: Types, e: Expr, ps: Types, rs: Types)
    requires e.LocalGet? || e.LocalSet? || e.LocalTee? || e.GlobalGet? || e.GlobalSet?
    requires SimpleTyped(m, f, e, ps, rs) && OnTop(base, ts, ps)
    ensures Accepted(CheckSimple(m, f, base, ts, e), ts, ps, rs)
  {
    hide OnTop, Apply;
    Applied(base, ts, ps, rs);
    assert ts[..|ts| - 0] == ts;
    match e
    case LocalGet(x) => var t :| LocalIs(f, x, t) && ps == [] && rs == [t];
    case LocalSet(x) => var t :| LocalIs(f, x, t) && ps == [t] && rs == [];
    case LocalTee(x) => var t :| LocalIs(f, x, t) && ps == [t] && rs == [t];
    case GlobalGet(x) => var t :| GlobalIs(m, x, t) && ps == [] && rs == [t];
    case GlobalSet(x) => var t :| GlobalIs(m, x, t) && ps == [t] && rs == [];
  }

  lemma ParametricAccepted(m: Module, f: Func, base: nat, ts: Types, e: Expr, ps: Types, rs: Types)
    requires (e.Drop? || e.Select?) && SimpleTyped(m, f, e, ps, rs) && OnTop(base, ts, ps)
    ensures Accepted(CheckSimple(m, f, base, ts, e), ts, ps, rs)
  {
    if e.Drop? {
      assert ts[..|ts| - 1] + [] == ts[..|ts| - 1];
    } else {
      TopThree(ts, ps);
    }
  }

  lemma TopThree(ts: Types, ps: Types)
    requires |ps| == 3 <= |ts| && ts[|ts| - 3..] == ps
    ensures ts[|ts| - 3] == ps[0] && ts[|ts| - 2] == ps[1] && ts[|ts| - 1] == ps[2]
    ensures ts[..|ts| - 2] == ts[..|ts| - 3] + [ps[0]]
  {
    var top := ts[|ts| - 3..];
    assert top[0] == ts[|ts| - 3] && top[1] == ts[|ts| - 2] && top[2] == ts[|ts| - 1];
  }

  /** Operands lie on top if more of them do. */
  lemma Upper(base: nat, ts: Types, below: Types, ps: Types)
    requires OnTop(base, ts, below + ps)
    ensures OnTop(base, ts, ps) && OnTop(base, ts[..|ts| - |ps|], below)
  {
    assert ts[|ts| - |ps|..] == ts[|ts| - |below + ps|..][|below|..];
    assert ts[..|ts| - |ps|][|ts| - |ps| - |below|..] == ts[|ts| - |below + ps|..][..|below|];
  }

  lemma BranchAccepted(a: seq<Label>, b: seq<Label>, base: nat, ts: Types, x: Var, below: Types, carried: Types)
    requires Alike(a, b) && Carries(a, x, carried) && OnTop(base, ts, below + carried)
    ensures ValidBranch(b, base, ts, x)
  {
    CarriedIs(a, b, x, carried);
    Upper(base, ts, below, carried);
  }

  /** The outermost label is the function's. */
  predicate InFunction(f: Func, labels: seq<Label>) {
    labels != [] && labels[0].kind == FuncLabel && labels[0].results == f.sig.results
  }

  lemma {:induction false} NestedAccepted(
    m: Module, f: Func, a: seq<Label>, b: seq<Label>, l: Label, ts: Types, results: Types, body: ExprList)
    requires Alike(a, b) && InFunction(f, a) && |results| <= 1
    requires ListTyped(m, f, a + [l], body, [], results)
    ensures CheckBody(m, f, b + [l.(height := |ts|)], ts, results, body) == Typed(ts + results)
    decreases body, 1
  {
    ListAccepted(m, f, a + [l], b + [l.(height := |ts|)], |ts|, ts, body, [], results);
    assert ts[..|ts|] == ts;
  }

  predicate Branches(e: Expr) { e.Return? || e.Br? || e.BrIf? || e.BrTable? }

  lemma BranchesAccepted(
    m: Module, f: Func, a: seq<Label>, b: seq<Label>, base: nat, ts: Types, e: Expr, ps: Types, rs: Types)
    requires Branches(e)
    requires Alike(a, b) && InFunction(f, a) && InstrTyped(m, f, a, e, ps, rs) && OnTop(base, ts, ps)
    ensures Accepted(CheckExpr(m, f, b, base, ts, e), ts, ps, rs)
  {
    hide ListTyped, Carries, ValidBranch, Alike;
    match e
    case Return =>
      var below :| ps == below + f.sig.results;
      Upper(base, ts, below, f.sig.results);
      FirstAlike(f, a, b);
    case Br(x) =>
      var below, carried :| Carries(a, x, carried) && ps == below + carried;
      BranchAccepted(a, b, base, ts, x, below, carried);
    case BrIf(_) => ConditionalAccepted(m, f, a, b, base, ts, e, ps, rs);
    case BrTable(_, _) => TableAccepted(m, f, a, b, base, ts, e, ps, rs);
  }

  lemma FirstAlike(f: Func, a: seq<Label>, b: seq<Label>)
    requires Alike(a, b) && InFunction(f, a)
    ensures b != [] && b[0].BranchTypes() == f.sig.results
  {}

  lemma OneOnTop(base: nat, ts: Types, ps: Types)
    requires OnTop(base, ts, ps)
    ensures base + |ps| <= |ts| && ts[|ts| - |ps|..] == ps && (|ps| == 1 ==> EndsWith(base, ts, ps))
  {}

  lemma ConditionalAccepted(
    m: Module, f: Func, a: seq<Label>, b: seq<Label>, base: nat, ts: Types, e: Expr, ps: Types, rs: Types)
    requires e.BrIf? && Alike(a, b) && InstrTyped(m, f, a, e, ps, rs) && OnTop(base, ts, ps)
    ensures Accepted(CheckExpr(m, f, b, base, ts, e), ts, ps, rs)
  {
    hide Carries, ValidBranch, Alike, OnTop, CheckExpr, EndsWith;
    var carried :| Carries(a, e.x, carried) && ps == carried + [I32] && rs == carried;
    OneOnTop(base, ts, ps);
    Upper(base, ts, carried, [I32]);
    OneOnTop(base, ts, [I32]);
    assert [] + carried == carried;
    BranchAccepted(a, b, base, ts[..|ts| - 1], e.x, [], carried);
    ConditionalIs(m, f, b, base, ts, e);
    Again(ts, carried, I32);
  }

  lemma ConditionalIs(m: Module, f: Func, b: seq<Label>, base: nat, ts: Types, e: Expr)
    requires e.BrIf? && EndsWith(base, ts, [I32]) && ValidBranch(b, base, ts[..|ts| - 1], e.x)
    ensures CheckExpr(m, f, b, base, ts, e) == Typed(ts[..|ts| - 1])
  {
    hide ValidBranch;
  }

  lemma TableAccepted(
    m: Module, f: Func, a: seq<Label>, b: seq<Label>, base: nat, ts: Types, e: Expr, ps: Types, rs: Types)
    requires e.BrTable? && Alike(a, b) && InstrTyped(m, f, a, e, ps, rs) && OnTop(base, ts, ps)
    ensures CheckExpr(m, f, b, base, ts, e).Dead?
  {
    hide Carries, ValidBranch, Alike;
    var below, carried :| Carries(a, e.default_, carried)
      && (forall i | 0 <= i < |e.targets| :: Carries(a, e.targets[i], carried)) && ps == below + carried + [I32];
    Upper(base, ts, below + carried, [I32]);
    BranchAccepted(a, b, base, ts[..|ts| - 1], e.default_, below, carried);
    forall i | 0 <= i < |e.targets| ensures ValidBranch(b, base, ts[..|ts| - 1], e.targets[i]) {
      BranchAccepted(a, b, base, ts[..|ts| - 1], e.targets[i], below, carried);
    }
  }

  lemma CallAccepted(
    m: Module, f: Func, a: seq<Label>, b: seq<Label>, base: nat, ts: Types, e: Expr, ps: Types, rs: Types)
    requires (e.Call? || e.CallIndirect?) && InstrTyped(m, f, a, e, ps, rs) && OnTop(base, ts, ps)
    ensures Accepted(CheckExpr(m, f, b, base, ts, e), ts, ps, rs)
  {
    hide OnTop, Apply;
    Applied(base, ts, ps, rs);
  }

  lemma {:induction false} InstrAccepted(
    m: Module, f: Func, a: seq<Label>, b: seq<Label>, base: nat, ts: Types, e: Expr, ps: Types, rs: Types)
    requires Alike(a, b) && InFunction(f, a) && InstrTyped(m, f, a, e, ps, rs) && OnTop(base, ts, ps)
    ensures Accepted(CheckExpr(m, f, b, base, ts, e), ts, ps, rs)
    decreases e
  {
    hide ListTyped, SimpleTyped, CheckSimple, CheckBody, Carries, Alike, InFunction;
    if Branches(e) {
      BranchesAccepted(m, f, a, b, base, ts, e, ps, rs);
    } else {
      match e
      case Call(_) => CallAccepted(m, f, a, b, base, ts, e, ps, rs);
      case CallIndirect(_) => CallAccepted(m, f, a, b, base, ts, e, ps, rs);
      case Block(name, results, body) =>
        NestedAccepted(m, f, a, b, Label(BlockLabel, name, results, 0), ts, results, body);
        assert ts[..|ts|] == ts;
      case Loop(name, results, body) =>
        NestedAccepted(m, f, a, b, Label(LoopLabel, name, results, 0), ts, results, body);
        assert ts[..|ts|] == ts;
      case If(name, results, then_, else_) =>
        NestedAccepted(m, f, a, b, Label(IfLabel, name, results, 0), ts[..|ts| - 1], results, then_);
        NestedAccepted(m, f, a, b, Label(IfLabel, name, results, 0), ts[..|ts| - 1], results, else_);
      case _ => SimpleAccepted(m, f, base, ts, e, ps, rs);
    }
  }

  lemma Again(ts: Types, carried: Types, t: ValType)
    requires |ts| >= |carried| + 1 && ts[|ts| - |carried| - 1..] == carried + [t]
    ensures ts[..|ts| - 1] == ts[..|ts| - (|carried| + 1)] + carried
  {
    assert ts == ts[..|ts| - |carried| - 1] + (carried + [t]);
  }

  /** The rest of a list finds its operands on top. */
  lemma Follows(base: nat, ts: Types, below: Types, xs: Types, ys: Types)
    requires OnTop(base, ts, below + xs)
    ensures OnTop(base, ts[..|ts| - |xs|] + ys, below + ys)
    ensures var ts' := ts[..|ts| - |xs|] + ys;
            ts'[..|ts'| - |below + ys|] == ts[..|ts| - |below + xs|]
  {
    Upper(base, ts, below, xs);
    var ts' := ts[..|ts| - |xs|] + ys;
    var rest := ts[..|ts| - |xs|];
    assert ts'[|ts'| - |below + ys|..] == rest[|rest| - |below|..] + ys;
  }

  lemma {:induction false} ListAccepted(
    m: Module, f: Func, a: seq<Label>, b: seq<Label>, base: nat, ts: Types, es: ExprList, ps: Types, rs: Types)
    requires Alike(a, b) && InFunction(f, a) && ListTyped(m, f, a, es, ps, rs) && OnTop(base, ts, ps)
    ensures Accepted(CheckList(m, f, b, base, ts, es), ts, ps, rs)
    decreases es, 0
  {
    hide InstrTyped, CheckExpr;
    match es
    case Nil => assert ts == ts[..|ts| - |ps|] + ps;
    case Cons(e, rest) =>
      var below, xs, ys :|
        ps == below + xs && InstrTyped(m, f, a, e, xs, ys) && ListTyped(m, f, a, rest, below + ys, rs);
      Upper(base, ts, below, xs);
      InstrAccepted(m, f, a, b, base, ts, e, xs, ys);
      Follows(base, ts, below, xs, ys);
      if CheckExpr(m, f, b, base, ts, e).Typed? {
        ListAccepted(m, f, a, b, base, ts[..|ts| - |xs|] + ys, rest, below + ys, rs);
      }
  }

  /** Every function that is well-typed is accepted, so that what is proved of valid functions holds of it. */
  lemma TypedIsValid(m: Module, f: Func)
    requires FuncTyped(m, f)
    ensures ValidFunc(m, f)
  {
    if !f.imported {
      var a := [Label(FuncLabel, "", f.sig.results, 0)];
      ListAccepted(m, f, a, a, 0, [], f.body, [], f.sig.results);
      assert [][..0] + f.sig.results == f.sig.results && [] + f.sig.results == f.sig.results;
    }
  }
}

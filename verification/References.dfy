/** When two modules differ only in how they refer to functions, globals, locals and labels: every
    reference of one denotes what the corresponding reference of the other denotes.  Such modules
    are valid together and run alike. */
module References {
  import opened Util
  import opened Wasm
  import opened Validation

  /** The names references are looked up in. */
  datatype Tables = Tables(funcs: seq<string>, globals: seq<string>, locals: seq<string>)

  function TablesOf(m: Module, f: Func): Tables { Tables(FuncNames(m), GlobalNames(m), f.localNames) }

  /** Both sides of a comparison: the name tables and the enclosing labels, innermost last. */
  datatype Scope = Scope(t: Tables, labels: seq<string>)
  {
    function Inside(name: string): Scope { Scope(t, labels + [name]) }
  }

  predicate SameRef(ns: seq<string>, ns': seq<string>, x: Var, x': Var) {
    Resolve(ns, x) == Resolve(ns', x')
  }

  predicate SameLabel(s: Scope, s': Scope, x: Var, x': Var) {
    Depth(s.labels, x) == Depth(s'.labels, x')
  }

  /** `e` and `e'` are the same expression, each reference denoting the same thing. */
  predicate SameExpr(s: Scope, s': Scope, e: Expr, e': Expr)
    decreases e
  {
    match e
    case LocalGet(x) => e'.LocalGet? && SameRef(s.t.locals, s'.t.locals, x, e'.x)
    case LocalSet(x) => e'.LocalSet? && SameRef(s.t.locals, s'.t.locals, x, e'.x)
    case LocalTee(x) => e'.LocalTee? && SameRef(s.t.locals, s'.t.locals, x, e'.x)
    case GlobalGet(x) => e'.GlobalGet? && SameRef(s.t.globals, s'.t.globals, x, e'.x)
    case GlobalSet(x) => e'.GlobalSet? && SameRef(s.t.globals, s'.t.globals, x, e'.x)
    case Call(x) => e'.Call? && SameRef(s.t.funcs, s'.t.funcs, x, e'.x)
    case Br(x) => e'.Br? && SameLabel(s, s', x, e'.x)
    case BrIf(x) => e'.BrIf? && SameLabel(s, s', x, e'.x)
    case BrTable(xs, d) =>
      && e'.BrTable? && |e'.targets| == |xs| && SameLabel(s, s', d, e'.default_)
      && forall i | 0 <= i < |xs| :: SameLabel(s, s', xs[i], e'.targets[i])
    case Block(name, results, body) =>
      e'.Block? && e'.results == results && SameList(s.Inside(name), s'.Inside(e'.name), body, e'.body)
    case Loop(name, results, body) =>
      e'.Loop? && e'.results == results && SameList(s.Inside(name), s'.Inside(e'.name), body, e'.body)
    case If(name, results, then_, else_) =>
      && e'.If? && e'.results == results
      && SameList(s.Inside(name), s'.Inside(e'.name), then_, e'.then_)
      && SameList(s.Inside(name), s'.Inside(e'.name), else_, e'.else_)
    case _ => e' == e
  }

  predicate SameList(s: Scope, s': Scope, es: ExprList, es': ExprList)
    decreases es
  {
    match es
    case Nil => es' == Nil
    case Cons(e, rest) => es'.Cons? && SameExpr(s, s', e, es'.head) && SameList(s, s', rest, es'.tail)
  }

  predicate SameFunc(m: Module, m': Module, f: Func, f': Func) {
    && f'.sig == f.sig && f'.imported == f.imported && f'.locals == f.locals
    && |f'.localNames| == |f.localNames|
    && (!f.imported ==> SameList(Scope(TablesOf(m, f), [""]), Scope(TablesOf(m', f'), [""]), f.body, f'.body))
  }

  predicate SameModule(m: Module, m': Module) {
    && |m'.funcs| == |m.funcs| && |m'.globals| == |m.globals|
    && (forall i | 0 <= i < |m.globals| :: m'.globals[i].ty == m.globals[i].ty)
    && forall i | 0 <= i < |m.funcs| :: SameFunc(m, m', m.funcs[i], m'.funcs[i])
  }

  // ----- transitivity -----

  lemma {:induction false} SameExprTwice(r: Scope, s: Scope, t: Scope, e: Expr, e1: Expr, e2: Expr)
    requires SameExpr(r, s, e, e1) && SameExpr(s, t, e1, e2)
    ensures SameExpr(r, t, e, e2)
    decreases e
  {
    match e
    case Block(name, results, body) =>
      SameListTwice(r.Inside(name), s.Inside(e1.name), t.Inside(e2.name), body, e1.body, e2.body);
    case Loop(name, results, body) =>
      SameListTwice(r.Inside(name), s.Inside(e1.name), t.Inside(e2.name), body, e1.body, e2.body);
    case If(name, results, then_, else_) =>
      SameListTwice(r.Inside(name), s.Inside(e1.name), t.Inside(e2.name), then_, e1.then_, e2.then_);
      SameListTwice(r.Inside(name), s.Inside(e1.name), t.Inside(e2.name), else_, e1.else_, e2.else_);
    case _ =>
  }

  lemma {:induction false} SameListTwice(r: Scope, s: Scope, t: Scope, es: ExprList, es1: ExprList, es2: ExprList)
    requires SameList(r, s, es, es1) && SameList(s, t, es1, es2)
    ensures SameList(r, t, es, es2)
    decreases es
  {
    if es.Cons? {
      SameExprTwice(r, s, t, es.head, es1.head, es2.head);
      SameListTwice(r, s, t, es.tail, es1.tail, es2.tail);
    }
  }

  lemma SameModuleTwice(m: Module, m1: Module, m2: Module)
    requires SameModule(m, m1) && SameModule(m1, m2)
    ensures SameModule(m, m2)
  {
    hide SameList;
    forall i | 0 <= i < |m.funcs| ensures SameFunc(m, m2, m.funcs[i], m2.funcs[i]) {
      var f, f1, f2 := m.funcs[i], m1.funcs[i], m2.funcs[i];
      assert SameFunc(m, m1, f, f1) && SameFunc(m1, m2, f1, f2);
      if !f.imported {
        SameListTwice(Scope(TablesOf(m, f), [""]), Scope(TablesOf(m1, f1), [""]), Scope(TablesOf(m2, f2), [""]),
                      f.body, f1.body, f2.body);
      }
    }
  }

  // ----- the same runs -----

  /** Two places in two modules: label stacks of the same arities. */
  ghost predicate SamePlace(m: Module, m': Module, f: Func, f': Func, ls: seq<LabelInfo>, ls': seq<LabelInfo>) {
    && SameModule(m, m') && |ls| == |ls'|
    && f'.sig == f.sig && f'.locals == f.locals
  }

  function ScopeAt(m: Module, f: Func, ls: seq<LabelInfo>): Scope { Scope(TablesOf(m, f), LabelNames(ls)) }

  lemma InsideIs(m: Module, f: Func, ls: seq<LabelInfo>, name: string, arity: nat)
    ensures ScopeAt(m, f, ls + [LabelInfo(name, arity)]) == ScopeAt(m, f, ls).Inside(name)
  {}

  lemma SameRuns(
    sem: Sem, m: Module, m': Module, f: Func, f': Func, ls: seq<LabelInfo>, ls': seq<LabelInfo>,
    es: ExprList, es': ExprList, st: State)
    requires SamePlace(m, m', f, f', ls, ls') && SameList(ScopeAt(m, f, ls), ScopeAt(m', f', ls'), es, es')
    ensures ExecList(sem, m, f, ls, es, st) == ExecList(sem, m', f', ls', es', st)
    decreases st.fuel, 1, es, 2
  {
    hide SameModule, SameExpr, ExecExpr;
    if es.Cons? {
      SameRun(sem, m, m', f, f', ls, ls', es.head, es'.head, st);
      var r := ExecExpr(sem, m, f, ls, es.head, st);
      if r.out.Normal? { SameRuns(sem, m, m', f, f', ls, ls', es.tail, es'.tail, r.st); }
    }
  }

  lemma SameRun(
    sem: Sem, m: Module, m': Module, f: Func, f': Func, ls: seq<LabelInfo>, ls': seq<LabelInfo>, e: Expr, e': Expr,
    st: State)
    requires SamePlace(m, m', f, f', ls, ls') && SameExpr(ScopeAt(m, f, ls), ScopeAt(m', f', ls'), e, e')
    ensures ExecExpr(sem, m, f, ls, e, st) == ExecExpr(sem, m', f', ls', e', st)
    decreases st.fuel, 1, e, 2
  {
    hide SameModule, Step, Resolve, Depth, SameExpr, ExecExpr;
    match e
    case Call(_) => SameCall(sem, m, m', f, f', ls, ls', e, e', st);
    case CallIndirect(_) => SameCall(sem, m, m', f, f', ls, ls', e, e', st);
    case Return => SameJump(sem, m, m', f, f', ls, ls', e, e', st);
    case Br(_) => SameJump(sem, m, m', f, f', ls, ls', e, e', st);
    case BrIf(_) => SameJump(sem, m, m', f, f', ls, ls', e, e', st);
    case BrTable(_, _) => SameJump(sem, m, m', f, f', ls, ls', e, e', st);
    case Block(_, _, _) => SameBlock(sem, m, m', f, f', ls, ls', e, e', st);
    case Loop(_, _, _) => SameLoop(sem, m, m', f, f', ls, ls', e, e', st);
    case If(_, _, _, _) => SameIf(sem, m, m', f, f', ls, ls', e, e', st);
    case _ => SameStep(sem, m, m', f, f', ls, ls', e, e', st);
  }

  predicate UsesTable(e: Expr) {
    e.LocalGet? || e.LocalSet? || e.LocalTee? || e.GlobalGet? || e.GlobalSet?
  }

  lemma SameStep(
    sem: Sem, m: Module, m': Module, f: Func, f': Func, ls: seq<LabelInfo>, ls': seq<LabelInfo>, e: Expr, e': Expr,
    st: State)
    requires IsSimple(e) && SameExpr(ScopeAt(m, f, ls), ScopeAt(m', f', ls'), e, e')
    ensures ExecExpr(sem, m, f, ls, e, st) == ExecExpr(sem, m', f', ls', e', st)
  {
    hide Resolve, Step;
    if UsesTable(e) {
      SameVarStep(sem, m, m', f, f', ls, ls', e, e', st);
    } else {
      OtherStep(sem, m, m', f, f', e, st);
    }
  }

  lemma SameVarStep(
    sem: Sem, m: Module, m': Module, f: Func, f': Func, ls: seq<LabelInfo>, ls': seq<LabelInfo>, e: Expr, e': Expr,
    st: State)
    requires UsesTable(e) && SameExpr(ScopeAt(m, f, ls), ScopeAt(m', f', ls'), e, e')
    ensures Step(sem, m, f, e, st) == Step(sem, m', f', e', st)
  {
    hide Resolve;
  }

  lemma OtherStep(sem: Sem, m: Module, m': Module, f: Func, f': Func, e: Expr, st: State)
    requires !UsesTable(e)
    ensures Step(sem, m, f, e, st) == Step(sem, m', f', e, st)
  {}

  lemma {:induction false} SameJump(
    sem: Sem, m: Module, m': Module, f: Func, f': Func, ls: seq<LabelInfo>, ls': seq<LabelInfo>, e: Expr, e': Expr,
    st: State)
    requires e.Return? || e.Br? || e.BrIf? || e.BrTable?
    requires |ls| == |ls'| && SameExpr(ScopeAt(m, f, ls), ScopeAt(m', f', ls'), e, e')
    ensures ExecExpr(sem, m, f, ls, e, st) == ExecExpr(sem, m', f', ls', e', st)
  {
    hide Depth, Resolve;
  }

  lemma SameBlock(
    sem: Sem, m: Module, m': Module, f: Func, f': Func, ls: seq<LabelInfo>, ls': seq<LabelInfo>, e: Expr, e': Expr,
    st: State)
    requires e.Block? && SamePlace(m, m', f, f', ls, ls') && SameExpr(ScopeAt(m, f, ls), ScopeAt(m', f', ls'), e, e')
    ensures ExecExpr(sem, m, f, ls, e, st) == ExecExpr(sem, m', f', ls', e', st)
    decreases st.fuel, 1, e, 1
  {
    hide SameModule, Depth, Resolve, SameList, ExecList;
    InsideIs(m, f, ls, e.name, |e.results|);
    InsideIs(m', f', ls', e'.name, |e.results|);
    SameRuns(sem, m, m', f, f', ls + [LabelInfo(e.name, |e.results|)], ls' + [LabelInfo(e'.name, |e.results|)], e.body,
      e'.body, st);
  }

  lemma SameIf(
    sem: Sem, m: Module, m': Module, f: Func, f': Func, ls: seq<LabelInfo>, ls': seq<LabelInfo>, e: Expr, e': Expr,
    st: State)
    requires e.If? && SamePlace(m, m', f, f', ls, ls') && SameExpr(ScopeAt(m, f, ls), ScopeAt(m', f', ls'), e, e')
    ensures ExecExpr(sem, m, f, ls, e, st) == ExecExpr(sem, m', f', ls', e', st)
    decreases st.fuel, 1, e, 1
  {
    hide SameModule, Depth, Resolve, SameList, ExecList;
    InsideIs(m, f, ls, e.name, |e.results|);
    InsideIs(m', f', ls', e'.name, |e.results|);
    if |st.stack| >= 1 {
      var s := DropN(st, 1);
      var inner, inner' := ls + [LabelInfo(e.name, |e.results|)], ls' + [LabelInfo(e'.name, |e.results|)];
      if Top(st, 0) != 0 {
        SameRuns(sem, m, m', f, f', inner, inner', e.then_, e'.then_, s);
      } else {
        SameRuns(sem, m, m', f, f', inner, inner', e.else_, e'.else_, s);
      }
    }
  }

  lemma {:induction false} SameLoop(
    sem: Sem, m: Module, m': Module, f: Func, f': Func, ls: seq<LabelInfo>, ls': seq<LabelInfo>, e: Expr, e': Expr,
    st: State)
    requires e.Loop? && SamePlace(m, m', f, f', ls, ls') && SameExpr(ScopeAt(m, f, ls), ScopeAt(m', f', ls'), e, e')
    ensures ExecExpr(sem, m, f, ls, e, st) == ExecExpr(sem, m', f', ls', e', st)
    decreases st.fuel, 1, e, 1
  {
    hide SameModule, Depth, Resolve, SameList, ExecList;
    InsideIs(m, f, ls, e.name, 0);
    InsideIs(m', f', ls', e'.name, 0);
    SameRuns(sem, m, m', f, f', ls + [LabelInfo(e.name, 0)], ls' + [LabelInfo(e'.name, 0)], e.body, e'.body, st);
    var r := ExecList(sem, m, f, ls + [LabelInfo(e.name, 0)], e.body, st);
    if r.out == Branch(0) && r.st.fuel > 0 {
      SameRun(sem, m, m', f, f', ls, ls', e, e', r.st.(stack := st.stack, fuel := r.st.fuel - 1));
    }
  }

  lemma SameCall(
    sem: Sem, m: Module, m': Module, f: Func, f': Func, ls: seq<LabelInfo>, ls': seq<LabelInfo>, e: Expr, e': Expr,
    st: State)
    requires (e.Call? || e.CallIndirect?) && SamePlace(m, m', f, f', ls, ls')
    requires SameExpr(ScopeAt(m, f, ls), ScopeAt(m', f', ls'), e, e')
    ensures ExecExpr(sem, m, f, ls, e, st) == ExecExpr(sem, m', f', ls', e', st)
    decreases st.fuel, 1, e, 1
  {
    hide Resolve, SameFunc, DoCall;
    if e.Call? {
      var i := Resolve(FuncNames(m), e.x);
      if i.Some? { SameDoCall(sem, m, m', i.value, st); }
    } else if |st.stack| >= 1 {
      var i := sem.table(Top(st, 0));
      if i.Some? && i.value < |m.funcs| {
        assert SameFunc(m, m', m.funcs[i.value], m'.funcs[i.value]);
        SameSig(m, m', m.funcs[i.value], m'.funcs[i.value]);
        SameDoCall(sem, m, m', i.value, DropN(st, 1));
      }
    }
  }

  lemma SameSig(m: Module, m': Module, f: Func, f': Func)
    requires SameFunc(m, m', f, f')
    ensures f.sig == f'.sig && f.imported == f'.imported && f.locals == f'.locals
  {
    hide SameList;
  }

  lemma SameDoCall(sem: Sem, m: Module, m': Module, i: nat, st: State)
    requires SameModule(m, m') && i < |m.funcs|
    ensures DoCall(sem, m, i, st) == DoCall(sem, m', i, st)
    decreases st.fuel, 0
  {
    hide SameFunc, RunFunc;
    assert SameFunc(m, m', m.funcs[i], m'.funcs[i]);
    SameSig(m, m', m.funcs[i], m'.funcs[i]);
    var n := |m.funcs[i].sig.params|;
    if |st.stack| >= n && !m.funcs[i].imported && st.fuel > 0 {
      SameRunFunc(sem, m, m', i, st.stack[|st.stack| - n..], st.world, st.fuel - 1);
    }
  }

  /** Every run of every function is the same in both modules. */
  lemma SameRunFunc(sem: Sem, m: Module, m': Module, i: nat, args: seq<nat>, world: World, fuel: nat)
    requires SameModule(m, m') && i < |m.funcs| && !m.funcs[i].imported
    ensures RunFunc(sem, m, i, args, world, fuel) == RunFunc(sem, m', i, args, world, fuel)
    decreases fuel, 2
  {
    hide SameModule, ExecList, SameList;
    assert SameFunc(m, m', m.funcs[i], m'.funcs[i]) by { ModuleFunc(m, m', i); }
    var f, f' := m.funcs[i], m'.funcs[i];
    var ls := [LabelInfo("", |f.sig.results|)];
    assert LabelNames(ls) == [""];
    SameRuns(sem, m, m', f, f', ls, ls, f.body, f'.body, State([], args + Zeros(|f.locals|), world, fuel));
  }

  lemma ModuleFunc(m: Module, m': Module, i: nat)
    requires SameModule(m, m') && i < |m.funcs|
    ensures |m'.funcs| == |m.funcs| && SameFunc(m, m', m.funcs[i], m'.funcs[i])
  {
    hide SameFunc;
  }

  // ----- the same typing -----

  /** Label stacks that differ in names only. */
  predicate SameLabels(ls: seq<Label>, ls': seq<Label>) {
    |ls| == |ls'| && forall i | 0 <= i < |ls| :: ls'[i] == ls[i].(name := ls'[i].name)
  }

  function CheckScope(m: Module, f: Func, ls: seq<Label>): Scope { Scope(TablesOf(m, f), Names(ls)) }

  lemma InsideLabel(m: Module, f: Func, ls: seq<Label>, l: Label)
    ensures CheckScope(m, f, ls + [l]) == CheckScope(m, f, ls).Inside(l.name)
  {}

  /** The same typing at two places. */
  ghost predicate Alike(m: Module, m': Module, f: Func, f': Func, ls: seq<Label>, ls': seq<Label>) {
    SameModule(m, m') && SameLabels(ls, ls') && f.sig == f'.sig && f.locals == f'.locals
  }

  lemma SameTypings(
    m: Module, m': Module, f: Func, f': Func, ls: seq<Label>, ls': seq<Label>, base: nat, ts: seq<ValType>,
    es: ExprList, es': ExprList)
    requires Alike(m, m', f, f', ls, ls') && SameList(CheckScope(m, f, ls), CheckScope(m', f', ls'), es, es')
    ensures CheckList(m, f, ls, base, ts, es) == CheckList(m', f', ls', base, ts, es')
    decreases es, 1
  {
    hide SameModule, SameExpr, CheckExpr;
    if es.Cons? {
      SameTyping(m, m', f, f', ls, ls', base, ts, es.head, es'.head);
      var r := CheckExpr(m, f, ls, base, ts, es.head);
      if r.Typed? { SameTypings(m, m', f, f', ls, ls', base, r.types, es.tail, es'.tail); }
    }
  }

  lemma SameBodyTyping(
    m: Module, m': Module, f: Func, f': Func, ls: seq<Label>, ls': seq<Label>, ts: seq<ValType>, l: Label,
    name': string,
    es: ExprList, es': ExprList)
    requires Alike(m, m', f, f', ls, ls')
    requires SameList(CheckScope(m, f, ls).Inside(l.name), CheckScope(m', f', ls').Inside(name'), es, es')
    ensures CheckBody(m, f, ls + [l], ts, l.results, es)
            == CheckBody(m', f', ls' + [l.(name := name')], ts, l.results, es')
    decreases es, 2
  {
    hide SameModule, SameList, CheckList;
    InsideLabel(m, f, ls, l);
    InsideLabel(m', f', ls', l.(name := name'));
    SameTypings(m, m', f, f', ls + [l], ls' + [l.(name := name')], |ts|, ts, es, es');
  }

  lemma {:induction false} SameTyping(
    m: Module, m': Module, f: Func, f': Func, ls: seq<Label>, ls': seq<Label>, base: nat, ts: seq<ValType>, e: Expr,
    e': Expr)
    requires Alike(m, m', f, f', ls, ls') && SameExpr(CheckScope(m, f, ls), CheckScope(m', f', ls'), e, e')
    ensures CheckExpr(m, f, ls, base, ts, e) == CheckExpr(m', f', ls', base, ts, e')
    decreases e, 3
  {
    hide SameModule, SameList, Resolve, Depth, CheckBody, Apply, SameLabels;
    match e
    case Block(name, results, body) =>
      SameBodyTyping(m, m', f, f', ls, ls', ts, Label(BlockLabel, name, results, |ts|), e'.name, body, e'.body);
    case Loop(name, results, body) =>
      SameBodyTyping(m, m', f, f', ls, ls', ts, Label(LoopLabel, name, results, |ts|), e'.name, body, e'.body);
    case If(name, results, then_, else_) =>
      if EndsWith(base, ts, [I32]) {
        var rest := ts[..|ts| - 1];
        var l := Label(IfLabel, name, results, |rest|);
        SameBodyTyping(m, m', f, f', ls, ls', rest, l, e'.name, then_, e'.then_);
        SameBodyTyping(m, m', f, f', ls, ls', rest, l, e'.name, else_, e'.else_);
      }
    case Call(x) => SameCallTyping(m, m', f, f', ls, ls', base, ts, e, e');
    case _ =>
      if IsSimple(e) {
        SameSimpleTyping(m, m', f, f', ls, ls', base, ts, e, e');
      } else {
        SameJumpTyping(m, m', f, f', ls, ls', base, ts, e, e');
      }
  }

  lemma {:induction false} SameSimpleTyping(
    m: Module, m': Module, f: Func, f': Func, ls: seq<Label>, ls': seq<Label>, base: nat, ts: seq<ValType>, e: Expr,
    e': Expr)
    requires IsSimple(e) && Alike(m, m', f, f', ls, ls')
    requires SameExpr(CheckScope(m, f, ls), CheckScope(m', f', ls'), e, e')
    ensures CheckExpr(m, f, ls, base, ts, e) == CheckExpr(m', f', ls', base, ts, e')
  {
    hide SameFunc, Resolve, SameLabels, Apply, CheckSimple;
    if UsesTable(e) {
      SameVarTyping(m, m', f, f', ls, ls', base, ts, e, e');
    } else {
      OtherTyping(m, m', f, f', base, ts, e);
    }
  }

  lemma SameVarTyping(
    m: Module, m': Module, f: Func, f': Func, ls: seq<Label>, ls': seq<Label>, base: nat, ts: seq<ValType>, e: Expr,
    e': Expr)
    requires UsesTable(e) && Alike(m, m', f, f', ls, ls')
    requires SameExpr(CheckScope(m, f, ls), CheckScope(m', f', ls'), e, e')
    ensures CheckSimple(m, f, base, ts, e) == CheckSimple(m', f', base, ts, e')
  {
    hide SameFunc, Resolve, SameLabels, Apply;
  }

  lemma OtherTyping(m: Module, m': Module, f: Func, f': Func, base: nat, ts: seq<ValType>, e: Expr)
    requires !UsesTable(e)
    ensures CheckSimple(m, f, base, ts, e) == CheckSimple(m', f', base, ts, e)
  {
    hide Apply;
  }

  lemma SameCallTyping(
    m: Module, m': Module, f: Func, f': Func, ls: seq<Label>, ls': seq<Label>, base: nat, ts: seq<ValType>, e: Expr,
    e': Expr)
    requires e.Call? && Alike(m, m', f, f', ls, ls') && SameExpr(CheckScope(m, f, ls), CheckScope(m', f', ls'), e, e')
    ensures CheckExpr(m, f, ls, base, ts, e) == CheckExpr(m', f', ls', base, ts, e')
  {
    hide SameFunc, Resolve, SameLabels, Apply;
    var i := Resolve(FuncNames(m), e.x);
    if i.Some? {
      SameSig(m, m', m.funcs[i.value], m'.funcs[i.value]);
    }
  }

  lemma {:induction false} SameJumpTyping(
    m: Module, m': Module, f: Func, f': Func, ls: seq<Label>, ls': seq<Label>, base: nat, ts: seq<ValType>, e: Expr,
    e': Expr)
    requires e.Return? || e.Br? || e.BrIf? || e.BrTable? || e.CallIndirect?
    requires SameLabels(ls, ls') && SameExpr(CheckScope(m, f, ls), CheckScope(m', f', ls'), e, e')
    ensures CheckExpr(m, f, ls, base, ts, e) == CheckExpr(m', f', ls', base, ts, e')
  {
    hide Resolve, Depth, Apply, ValidBranch;
    assert EndsWith(base, ts, [I32]) ==> |ts| > 0;
    match e
    case Br(x) => SameBranch(m, m', f, f', ls, ls', base, ts, x, e'.x);
    case BrIf(x) => if |ts| > 0 { SameBranch(m, m', f, f', ls, ls', base, ts[..|ts| - 1], x, e'.x); }
    case BrTable(xs, d) => if |ts| > 0 { SameBranches(m, m', f, f', ls, ls', base, ts[..|ts| - 1], e, e'); }
    case _ =>
  }

  lemma SameBranches(
    m: Module, m': Module, f: Func, f': Func, ls: seq<Label>, ls': seq<Label>, base: nat, ts: seq<ValType>, e: Expr,
    e': Expr)
    requires e.BrTable? && SameLabels(ls, ls') && SameExpr(CheckScope(m, f, ls), CheckScope(m', f', ls'), e, e')
    ensures ValidBranch(ls, base, ts, e.default_) == ValidBranch(ls', base, ts, e'.default_)
    ensures forall i | 0 <= i < |e.targets| ::
            ValidBranch(ls, base, ts, e.targets[i]) == ValidBranch(ls', base, ts, e'.targets[i])
  {
    hide Depth, ValidBranch;
    SameBranch(m, m', f, f', ls, ls', base, ts, e.default_, e'.default_);
    forall i | 0 <= i < |e.targets|
      ensures ValidBranch(ls, base, ts, e.targets[i]) == ValidBranch(ls', base, ts, e'.targets[i])
    {
      SameBranch(m, m', f, f', ls, ls', base, ts, e.targets[i], e'.targets[i]);
    }
  }

  lemma SameBranch(
    m: Module, m': Module, f: Func, f': Func, ls: seq<Label>, ls': seq<Label>, base: nat, ts: seq<ValType>, x: Var,
    x': Var)
    requires SameLabels(ls, ls') && SameLabel(CheckScope(m, f, ls), CheckScope(m', f', ls'), x, x')
    ensures ValidBranch(ls, base, ts, x) == ValidBranch(ls', base, ts, x')
  {
    hide Depth, EndsWith;
  }

  lemma SameValid(m: Module, m': Module)
    requires SameModule(m, m') && ValidModule(m)
    ensures ValidModule(m')
  {
    hide SameModule, CheckList, SameList;
    ModuleSize(m, m');
    forall i | 0 <= i < |m'.funcs| ensures ValidFunc(m', m'.funcs[i]) {
      ModuleFunc(m, m', i);
      var f, f' := m.funcs[i], m'.funcs[i];
      assert ValidFunc(m, f);
      if !f.imported {
        var ls := [FuncLabelOf(f)];
        assert Names(ls) == [""];
        SameTypings(m, m', f, f', ls, ls, 0, [], f.body, f'.body);
      }
    }
  }

  lemma ModuleSize(m: Module, m': Module)
    requires SameModule(m, m')
    ensures |m'.funcs| == |m.funcs| && |m'.globals| == |m.globals|
  {
    hide SameFunc;
  }
}

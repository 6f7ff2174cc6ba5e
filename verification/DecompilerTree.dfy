/** The decompiler's expression trees (src/decompiler-ast.h) and what they mean: children are
    evaluated left to right, statements for their effects only. */
module DecompilerTree {
  import opened Util
  import opened Wasm

  /** `FlushToVars` assigns `count` temporaries from number `start` on; `FlushedVar` reads one. */
  datatype Node =
    | FlushToVars(start: nat, count: nat, children: seq<Node>)
    | FlushedVar(index: nat)
    | Statements(children: seq<Node>)
    | EndReturn(children: seq<Node>)
    | Decl(x: Var)
    | DeclInit(x: Var, children: seq<Node>)
    | ExprNode(e: Expr, children: seq<Node>)

  /** Where a tree is evaluated. */
  datatype Place = Place(sem: Sem, m: Module, f: Func, labels: seq<LabelInfo>)
  {
    function Inside(name: string, arity: nat): Place { this.(labels := labels + [LabelInfo(name, arity)]) }
  }

  /** Temporaries that were never assigned read as zero. */
  datatype TState = TState(locals: seq<nat>, world: World, fuel: nat, temps: map<nat, nat>)
  {
    function Temp(i: nat): nat { if i in temps then temps[i] else 0 }

    /** The same state of a stack machine with operands `stack`. */
    function Machine(stack: seq<nat>): State { State(stack, locals, world, fuel) }

    function Back(st: State): TState { this.(locals := st.locals, world := st.world, fuel := st.fuel) }
  }

  /** How the evaluation of a tree ends, with its values, or with those a branch carries. */
  datatype TResult = TResult(out: Outcome, vals: seq<nat>, ts: TState)

  function LastN(vals: seq<nat>, n: nat): (r: seq<nat>)
    ensures n <= |vals| ==> |r| == n
  {
    if n <= |vals| then vals[|vals| - n..] else vals
  }

  /** One instruction without nested lists, applied to the values of its children. */
  function Op(x: Place, e: Expr, vals: seq<nat>, ts: TState): (r: TResult)
    ensures r.ts.fuel <= ts.fuel
  {
    var r := ExecExpr(x.sem, x.m, x.f, x.labels, e, ts.Machine(vals));
    TResult(r.out, r.st.stack, ts.Back(r.st))
  }

  function Assigned(temps: map<nat, nat>, start: nat, vals: seq<nat>): (r: map<nat, nat>)
    ensures forall i :: i in r <==> i in temps || start <= i < start + |vals|
    ensures forall i | i in r :: r[i] == if start <= i < start + |vals| then vals[i - start] else temps[i]
  {
    if vals == [] then temps
    else Assigned(temps, start, vals[..|vals| - 1])[start + |vals| - 1 := vals[|vals| - 1]]
  }

  /** The values of a nested body with `n` results; a branch to its own label ends it. */
  function LeaveBody(n: nat, r: TResult): (b: TResult)
    ensures b.ts == r.ts
  {
    match r.out
    case Normal => if |r.vals| < n then r.(out := Wrong) else r.(vals := LastN(r.vals, n))
    case Branch(d) =>
      if d > 0 then r.(out := Branch(d - 1))
      else if |r.vals| == n then r.(out := Normal) else r.(out := Wrong)
    case _ => r
  }

  function EvalItems(x: Place, items: seq<Node>, ts: TState): (r: TResult)
    ensures r.ts.fuel <= ts.fuel
    decreases ts.fuel, items, 0
  {
    if items == [] then TResult(Normal, [], ts)
    else
      var a := EvalNode(x, items[0], ts);
      if !a.out.Normal? then a
      else
        var b := EvalItems(x, items[1..], a.ts);
        if b.out.Normal? then b.(vals := a.vals + b.vals) else b
  }

  function EvalNode(x: Place, n: Node, ts: TState): (r: TResult)
    ensures r.ts.fuel <= ts.fuel
    decreases ts.fuel, n, 1
  {
    var wrong := TResult(Wrong, [], ts);
    match n
    case FlushedVar(i) => TResult(Normal, [ts.Temp(i)], ts)
    case FlushToVars(start, count, cs) =>
      var c := EvalItems(x, cs, ts);
      if !c.out.Normal? then c
      else if |c.vals| != count then c.(out := Wrong)
      else TResult(Normal, [], c.ts.(temps := Assigned(c.ts.temps, start, c.vals)))
    case Statements(cs) => EvalItems(x, cs, ts)
    case EndReturn(cs) =>
      var c := EvalItems(x, cs, ts);
      if !c.out.Normal? then c else c.(out := if x.labels == [] then Wrong else Branch(|x.labels| - 1))
    case Decl(_) => TResult(Normal, [], ts)
    case DeclInit(v, cs) =>
      var c := EvalItems(x, cs, ts);
      if !c.out.Normal? then c else Op(x, LocalSet(v), c.vals, c.ts)
    case ExprNode(e, cs) =>
      match e
      case Block(name, results, _) =>
        if |cs| != 1 then wrong
        else LeaveBody(|results|, EvalNode(x.Inside(name, |results|), cs[0], ts))
      case Loop(name, results, _) =>
        if |cs| != 1 then wrong else
        var r := EvalNode(x.Inside(name, 0), cs[0], ts);
        if r.out != Branch(0) then LeaveBody(|results|, r)
        else if r.ts.fuel == 0 then r.(out := Exhausted)
        else EvalNode(x, n, r.ts.(fuel := r.ts.fuel - 1))
      case If(name, results, _, _) =>
        if |cs| != 2 && |cs| != 3 then wrong else
        var c := EvalNode(x, cs[0], ts);
        if !c.out.Normal? then c
        else if |c.vals| != 1 then c.(out := Wrong)
        else if c.vals[0] != 0 then LeaveBody(|results|, EvalNode(x.Inside(name, |results|), cs[1], c.ts))
        else if |cs| == 3 then LeaveBody(|results|, EvalNode(x.Inside(name, |results|), cs[2], c.ts))
        else TResult(Normal, [], c.ts)
      case LocalTee(v) => if cs == [] then Op(x, LocalGet(v), [], ts) else OpItems(x, e, cs, ts)
      case _ => OpItems(x, e, cs, ts)
  }

  function OpItems(x: Place, e: Expr, cs: seq<Node>, ts: TState): (r: TResult)
    ensures r.ts.fuel <= ts.fuel
    decreases ts.fuel, cs, 1
  {
    var c := EvalItems(x, cs, ts);
    if !c.out.Normal? then c else Op(x, e, c.vals, c.ts)
  }

  /** A whole run of the function a tree was built for; `temps` is what the temporaries hold before. */
  function EvalFunc(
    sem: Sem, m: Module, f: Func, root: Node, args: seq<nat>, world: World, fuel: nat, temps: map<nat, nat>): CallResult
  {
    var n := |f.sig.results|;
    var x := Place(sem, m, f, [LabelInfo("", n)]);
    var r := LeaveBody(n, EvalNode(x, root, TState(args + Zeros(|f.locals|), world, fuel, temps)));
    if r.out.Normal? then CallResult(Normal, r.vals, r.ts.world, r.ts.fuel)
    else CallResult(if r.out.Branch? then Wrong else r.out, [], r.ts.world, r.ts.fuel)
  }

  // ----- lists of items -----

  lemma {:induction false} EvalConcat(x: Place, a: seq<Node>, b: seq<Node>, ts: TState)
    ensures var r := EvalItems(x, a, ts);
            EvalItems(x, a + b, ts) ==
              if !r.out.Normal? then r
              else
                var s := EvalItems(x, b, r.ts);
                if s.out.Normal? then s.(vals := r.vals + s.vals) else s
    decreases |a|
  {
    hide EvalNode;
    if a == [] {
      assert a + b == b;
    } else {
      assert (a + b)[1..] == a[1..] + b;
      var h := EvalNode(x, a[0], ts);
      if h.out.Normal? {
        EvalConcat(x, a[1..], b, h.ts);
        var r := EvalItems(x, a[1..], h.ts);
        if r.out.Normal? {
          var s := EvalItems(x, b, r.ts);
          assert h.vals + (r.vals + s.vals) == (h.vals + r.vals) + s.vals;
        }
      }
    }
  }

  lemma EvalOne(x: Place, n: Node, ts: TState)
    ensures EvalItems(x, [n], ts) == EvalNode(x, n, ts)
  {
    hide EvalNode;
    var a := EvalNode(x, n, ts);
    assert [n][1..] == [];
    if a.out.Normal? { assert a.vals + [] == a.vals; }
  }

  // ----- which temporaries a tree uses -----

  /** All temporaries assigned in `n` are in [lo, hi), all that are read are below `hi`. */
  predicate Within(n: Node, lo: nat, hi: nat)
    decreases n
  {
    match n
    case FlushedVar(i) => i < hi
    case FlushToVars(start, count, cs) => lo <= start && start + count <= hi && forall i | 0 <= i < |cs| ::
      Within(cs[i], lo, hi)
    case Decl(_) => true
    case _ => forall i | 0 <= i < |n.children| :: Within(n.children[i], lo, hi)
  }

  predicate AllWithin(items: seq<Node>, lo: nat, hi: nat) {
    forall i | 0 <= i < |items| :: Within(items[i], lo, hi)
  }

  lemma {:induction false} WithinWider(n: Node, lo: nat, hi: nat, lo': nat, hi': nat)
    requires Within(n, lo, hi) && lo' <= lo && hi <= hi'
    ensures Within(n, lo', hi')
    decreases n
  {
    match n
    case FlushedVar(_) =>
    case Decl(_) =>
    case _ =>
      forall i | 0 <= i < |n.children| ensures Within(n.children[i], lo', hi') {
        WithinWider(n.children[i], lo, hi, lo', hi');
      }
  }

  lemma AllWithinWider(items: seq<Node>, lo: nat, hi: nat, lo': nat, hi': nat)
    requires AllWithin(items, lo, hi) && lo' <= lo && hi <= hi'
    ensures AllWithin(items, lo', hi')
  {
    forall i | 0 <= i < |items| ensures Within(items[i], lo', hi') { WithinWider(items[i], lo, hi, lo', hi'); }
  }

  ghost predicate Agree(a: TState, b: TState, hi: nat) {
    && a.locals == b.locals && a.world == b.world && a.fuel == b.fuel
    && forall i: nat | i < hi :: a.Temp(i) == b.Temp(i)
  }

  /** Only temporaries in [lo, hi) may differ. */
  ghost predicate Untouched(a: TState, b: TState, lo: nat, hi: nat) {
    forall i: nat | i < lo || i >= hi :: a.Temp(i) == b.Temp(i)
  }

  /** The same ending in states that agree below `hi`. */
  ghost predicate SameEnding(r: TResult, s: TResult, hi: nat) {
    r.out == s.out && r.vals == s.vals && Agree(r.ts, s.ts, hi)
  }

  lemma UntouchedTwice(a: TState, b: TState, c: TState, lo: nat, hi: nat)
    requires Untouched(a, b, lo, hi) && Untouched(b, c, lo, hi)
    ensures Untouched(a, c, lo, hi)
  {}

  lemma LeaveSame(n: nat, r: TResult, s: TResult, hi: nat)
    requires SameEnding(r, s, hi)
    ensures SameEnding(LeaveBody(n, r), LeaveBody(n, s), hi)
  {}

  lemma OpSame(x: Place, e: Expr, vals: seq<nat>, a: TState, b: TState, hi: nat)
    requires Agree(a, b, hi)
    ensures SameEnding(Op(x, e, vals, a), Op(x, e, vals, b), hi)
    ensures Untouched(a, Op(x, e, vals, a).ts, 0, 0)
  {
    hide ExecExpr;
    assert a.Machine(vals) == b.Machine(vals);
    var r, s := Op(x, e, vals, a).ts, Op(x, e, vals, b).ts;
    assert r.temps == a.temps && s.temps == b.temps;
    assert forall i: nat :: r.Temp(i) == a.Temp(i) && s.Temp(i) == b.Temp(i);
  }

  lemma AssignSame(a: TState, b: TState, start: nat, vals: seq<nat>, hi: nat)
    requires Agree(a, b, hi)
    ensures Agree(a.(temps := Assigned(a.temps, start, vals)), b.(temps := Assigned(b.temps, start, vals)), hi)
    ensures forall i: nat | i < start || i >= start + |vals| ::
              a.(temps := Assigned(a.temps, start, vals)).Temp(i) == a.Temp(i)
  {
    var a', b' := a.(temps := Assigned(a.temps, start, vals)), b.(temps := Assigned(b.temps, start, vals));
    forall i: nat | i < hi ensures a'.Temp(i) == b'.Temp(i) {
      assert a.Temp(i) == b.Temp(i);
    }
  }

  /** Trees only see and change the temporaries they mention. */
  lemma {:induction false} TempsLocal(x: Place, n: Node, lo: nat, hi: nat, a: TState, b: TState)
    requires Within(n, lo, hi) && Agree(a, b, hi)
    ensures SameEnding(EvalNode(x, n, a), EvalNode(x, n, b), hi)
    ensures Untouched(a, EvalNode(x, n, a).ts, lo, hi)
    decreases a.fuel, n, 1
  {
    hide Op;
    match n
    case FlushToVars(start, count, cs) =>
      TempsLocalItems(x, cs, lo, hi, a, b);
      var c, d := EvalItems(x, cs, a), EvalItems(x, cs, b);
      AssignSame(c.ts, d.ts, start, c.vals, hi);
    case Statements(cs) => TempsLocalItems(x, cs, lo, hi, a, b);
    case EndReturn(cs) => TempsLocalItems(x, cs, lo, hi, a, b);
    case DeclInit(v, cs) =>
      TempsLocalItems(x, cs, lo, hi, a, b);
      var c, d := EvalItems(x, cs, a), EvalItems(x, cs, b);
      if c.out.Normal? { OpSame(x, LocalSet(v), c.vals, c.ts, d.ts, hi); }
    case ExprNode(e, cs) =>
      match e {
        case Block(_, _, _) => TempsLocalNested(x, n, lo, hi, a, b);
        case Loop(_, _, _) => TempsLocalLoop(x, n, lo, hi, a, b);
        case If(_, _, _, _) => TempsLocalNested(x, n, lo, hi, a, b);
        case _ => TempsLocalFlat(x, n, lo, hi, a, b);
      }
    case _ =>
  }

  lemma TempsLocalFlat(x: Place, n: Node, lo: nat, hi: nat, a: TState, b: TState)
    requires n.ExprNode? && !n.e.Block? && !n.e.Loop? && !n.e.If?
    requires Within(n, lo, hi) && Agree(a, b, hi)
    ensures SameEnding(EvalNode(x, n, a), EvalNode(x, n, b), hi)
    ensures Untouched(a, EvalNode(x, n, a).ts, lo, hi)
    decreases a.fuel, n, 0
  {
    hide Op;
    if n.e.LocalTee? && n.children == [] {
      OpSame(x, LocalGet(n.e.x), [], a, b, hi);
    } else {
      TempsLocalItems(x, n.children, lo, hi, a, b);
      var c, d := EvalItems(x, n.children, a), EvalItems(x, n.children, b);
      if c.out.Normal? { OpSame(x, n.e, c.vals, c.ts, d.ts, hi); }
    }
  }

  lemma TempsLocalNested(x: Place, n: Node, lo: nat, hi: nat, a: TState, b: TState)
    requires n.ExprNode? && (n.e.Block? || n.e.If?)
    requires Within(n, lo, hi) && Agree(a, b, hi)
    ensures SameEnding(EvalNode(x, n, a), EvalNode(x, n, b), hi)
    ensures Untouched(a, EvalNode(x, n, a).ts, lo, hi)
    decreases a.fuel, n, 0
  {
    hide LeaveBody;
    var cs, k := n.children, |n.e.results|;
    var y := x.Inside(n.e.name, k);
    if n.e.Block? {
      if |cs| == 1 {
        TempsLocal(y, cs[0], lo, hi, a, b);
        LeaveSame(k, EvalNode(y, cs[0], a), EvalNode(y, cs[0], b), hi);
      }
    } else if |cs| == 2 || |cs| == 3 {
      TempsLocal(x, cs[0], lo, hi, a, b);
      var c, d := EvalNode(x, cs[0], a), EvalNode(x, cs[0], b);
      if c.out.Normal? && |c.vals| == 1 && (c.vals[0] != 0 || |cs| == 3) {
        var body := if c.vals[0] != 0 then cs[1] else cs[2];
        TempsLocal(y, body, lo, hi, c.ts, d.ts);
        LeaveSame(k, EvalNode(y, body, c.ts), EvalNode(y, body, d.ts), hi);
        UntouchedTwice(a, c.ts, EvalNode(y, body, c.ts).ts, lo, hi);
      }
    }
  }

  lemma LessFuel(a: TState, b: TState, hi: nat)
    requires Agree(a, b, hi) && a.fuel > 0
    ensures Agree(a.(fuel := a.fuel - 1), b.(fuel := b.fuel - 1), hi)
  {
    var a', b' := a.(fuel := a.fuel - 1), b.(fuel := b.fuel - 1);
    forall i: nat | i < hi ensures a'.Temp(i) == b'.Temp(i) { assert a.Temp(i) == b.Temp(i); }
  }

  lemma TempsLocalLoop(x: Place, n: Node, lo: nat, hi: nat, a: TState, b: TState)
    requires n.ExprNode? && n.e.Loop? && Within(n, lo, hi) && Agree(a, b, hi)
    ensures SameEnding(EvalNode(x, n, a), EvalNode(x, n, b), hi)
    ensures Untouched(a, EvalNode(x, n, a).ts, lo, hi)
    decreases a.fuel, n, 0
  {
    hide LeaveBody;
    if |n.children| == 1 {
      var y := x.Inside(n.e.name, 0);
      TempsLocal(y, n.children[0], lo, hi, a, b);
      var r, s := EvalNode(y, n.children[0], a), EvalNode(y, n.children[0], b);
      LeaveSame(|n.e.results|, r, s, hi);
      if r.out == Branch(0) && r.ts.fuel > 0 {
        var a1, b1 := r.ts.(fuel := r.ts.fuel - 1), s.ts.(fuel := r.ts.fuel - 1);
        assert Agree(a1, b1, hi) by { LessFuel(r.ts, s.ts, hi); }
        assert Untouched(a, a1, lo, hi) by { assert forall i: nat :: a1.Temp(i) == r.ts.Temp(i); }
        TempsLocal(x, n, lo, hi, a1, b1);
        UntouchedTwice(a, a1, EvalNode(x, n, a1).ts, lo, hi);
      }
    }
  }

  lemma {:induction false} TempsLocalItems(x: Place, items: seq<Node>, lo: nat, hi: nat, a: TState, b: TState)
    requires AllWithin(items, lo, hi) && Agree(a, b, hi)
    ensures SameEnding(EvalItems(x, items, a), EvalItems(x, items, b), hi)
    ensures Untouched(a, EvalItems(x, items, a).ts, lo, hi)
    decreases a.fuel, items, 0
  {
    hide EvalNode;
    if items != [] {
      TempsLocal(x, items[0], lo, hi, a, b);
      var c, d := EvalNode(x, items[0], a), EvalNode(x, items[0], b);
      if c.out.Normal? {
        TempsLocalItems(x, items[1..], lo, hi, c.ts, d.ts);
        UntouchedTwice(a, c.ts, EvalItems(x, items[1..], c.ts).ts, lo, hi);
      }
    }
  }

  // ----- pure items -----

  /** Items that can be evaluated at any time: they change nothing. */
  predicate IsVar(n: Node) {
    n.FlushedVar? || (n.ExprNode? && n.e.Const? && n.children == [])
  }

  function VarValue(n: Node, ts: TState): nat
    requires IsVar(n)
  {
    if n.FlushedVar? then ts.Temp(n.index) else n.e.bits
  }

  function VarValues(vars: seq<Node>, ts: TState): (r: seq<nat>)
    requires forall i | 0 <= i < |vars| :: IsVar(vars[i])
    ensures |r| == |vars| && forall i | 0 <= i < |r| :: r[i] == VarValue(vars[i], ts)
  {
    seq(|vars|, i requires 0 <= i < |vars| => VarValue(vars[i], ts))
  }

  lemma EvalVar(x: Place, n: Node, ts: TState)
    requires IsVar(n)
    ensures EvalNode(x, n, ts) == TResult(Normal, [VarValue(n, ts)], ts)
  {
    if n.ExprNode? {
      assert [] + [n.e.bits] == [n.e.bits];
      assert ExecExpr(x.sem, x.m, x.f, x.labels, n.e, ts.Machine([])) == Result(Normal, ts.Machine([n.e.bits]));
      assert EvalItems(x, n.children, ts) == TResult(Normal, [], ts);
      assert Op(x, n.e, [], ts) == TResult(Normal, [n.e.bits], ts);
    }
  }

  lemma {:induction false} EvalVars(x: Place, vars: seq<Node>, ts: TState)
    requires forall i | 0 <= i < |vars| :: IsVar(vars[i])
    ensures EvalItems(x, vars, ts) == TResult(Normal, VarValues(vars, ts), ts)
    decreases |vars|
  {
    hide EvalNode;
    if vars != [] {
      EvalVar(x, vars[0], ts);
      EvalVars(x, vars[1..], ts);
      assert [VarValue(vars[0], ts)] + VarValues(vars[1..], ts) == VarValues(vars, ts);
    }
  }
}

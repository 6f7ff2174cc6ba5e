/** The decompiler's AST builder: stack code becomes expression trees (src/decompiler-ast.h). */
module DecompilerAst {
  import opened Util
  import opened Wasm
  import opened DecompilerTree
  import opened DecompilerListing
  import opened DecompilerSim

  /** Moves the last `amount` items below the `numVars` items before them (std::rotate). */
  function Rotated(items: seq<Node>, numVars: nat, amount: nat): seq<Node>
    requires numVars + amount <= |items|
  {
    items[..|items| - numVars - amount] + items[|items| - amount..]
      + items[|items| - numVars - amount..|items| - amount]
  }

  lemma RotatedIs(pre: seq<Node>, vars: seq<Node>, tail: seq<Node>)
    ensures Rotated(pre + vars + tail, |vars|, |tail|) == pre + tail + vars
  {}

  // ----- how the shape of the items changes -----

  /** The items of `Shape` taken apart: operands that are variables and operands that are not. */
  lemma ShapeParts(
    m: Module, f: Func, labels: seq<LabelInfo>, items: seq<Node>, depth: nat, inVars: nat, lo: nat, bound: nat,
    flushed: nat)
    requires Shape(m, f, labels, items, depth, inVars, lo, bound, flushed)
    ensures var n := |items|;
            && items == items[..n - depth] + items[n - depth..n - depth + inVars] + items[n - depth + inVars..]
            && Vars(items[n - depth..n - depth + inVars], bound)
              && AllWithin(items[n - depth + inVars..], bound, flushed)
            && Singles(m, f, labels, items[n - depth + inVars..])
    ensures inVars <= depth <= |items| && lo <= bound <= flushed && AllWithin(items, lo, flushed)
  {
    hide Gives;
    var n := |items|;
    var ops, vals := items[n - depth..], items[n - depth + inVars..];
    forall i | 0 <= i < |vals| ensures Gives(m, f, labels, vals[i], 1) {
      assert vals[i] == ops[inVars + i];
    }
  }

  lemma Shorter(m: Module, f: Func, labels: seq<LabelInfo>, s: seq<Node>, n: nat, lo: nat, hi: nat)
    requires n <= |s|
    ensures AllWithin(s, lo, hi) ==> AllWithin(s[..n], lo, hi)
    ensures Vars(s, hi) ==> Vars(s[..n], hi)
    ensures Singles(m, f, labels, s) ==> Singles(m, f, labels, s[..n])
  {
    hide Gives, Within;
  }

  /** Operands are taken from the top: the rest keeps its shape. */
  lemma ShapeRest(
    m: Module, f: Func, labels: seq<LabelInfo>, items: seq<Node>, depth: nat, inVars: nat, lo: nat, bound: nat,
    flushed: nat, k: nat)
    requires Shape(m, f, labels, items, depth, inVars, lo, bound, flushed) && k <= depth
    ensures var n, v := |items| - k, if inVars < depth - k then inVars else depth - k;
            depth <= |items| && Shape(m, f, labels, items[..n], depth - k, v, lo, bound, flushed)
  {
    hide Singles, AllWithin, Vars;
    var n, d, v := |items| - k, depth - k, if inVars < depth - k then inVars else depth - k;
    var rest, at := items[..n], |items| - depth;
    assert |rest| - d == at;
    var ops, vars, vals := items[at..], items[at..at + inVars], items[at + inVars..];
    assert rest[at..] == ops[..d];
    assert rest[at..at + v] == vars[..v];
    assert rest[at + v..] == if inVars < d then vals[..d - inVars] else vals[..0];
    Shorter(m, f, labels, items, n, lo, flushed);
    Shorter(m, f, labels, ops, d, lo, flushed);
    Shorter(m, f, labels, vars, v, lo, bound);
    Shorter(m, f, labels, vals, if inVars < d then d - inVars else 0, bound, flushed);
  }

  /** Operands are taken from the top: each gives one value. */
  lemma ShapeArgs(
    m: Module, f: Func, labels: seq<LabelInfo>, items: seq<Node>, depth: nat, inVars: nat, lo: nat, bound: nat,
    flushed: nat, k: nat)
    requires Shape(m, f, labels, items, depth, inVars, lo, bound, flushed) && k <= depth
    ensures depth <= |items| && Singles(m, f, labels, items[|items| - k..])
            && AllWithin(items[|items| - k..], bound, flushed)
  {
    hide Gives;
    var args, at := items[|items| - k..], |items| - depth;
    var ops, vars, vals := items[at..], items[at..at + inVars], items[at + inVars..];
    forall i | 0 <= i < |args| ensures Gives(m, f, labels, args[i], 1) && Within(args[i], bound, flushed) {
      var l := depth - k + i;
      assert args[i] == ops[l];
      if l < inVars {
        assert ops[l] == vars[l];
        VarWithin(args[i], bound, bound, flushed);
      } else {
        assert ops[l] == vals[l - inVars];
      }
    }
  }

  /** Operands are taken from the top. */
  lemma ShapeTake(
    m: Module, f: Func, labels: seq<LabelInfo>, items: seq<Node>, depth: nat, inVars: nat, lo: nat, bound: nat,
    flushed: nat, k: nat)
    requires Shape(m, f, labels, items, depth, inVars, lo, bound, flushed) && k <= depth
    ensures var n, v := |items| - k, if inVars < depth - k then inVars else depth - k;
            && Shape(m, f, labels, items[..n], depth - k, v, lo, bound, flushed)
            && Singles(m, f, labels, items[n..]) && AllWithin(items[n..], bound, flushed)
    ensures lo <= bound <= flushed && depth <= |items|
  {
    hide Gives, Singles, AllWithin, Vars;
    ShapeRest(m, f, labels, items, depth, inVars, lo, bound, flushed, k);
    ShapeArgs(m, f, labels, items, depth, inVars, lo, bound, flushed, k);
  }

  lemma VarWithin(n: Node, hi: nat, lo': nat, hi': nat)
    requires IsVar(n) && Within(n, 0, hi) && hi <= hi'
    ensures Within(n, lo', hi')
  {}

  /** More temporaries are in use now. */
  lemma ShapeGrow(
    m: Module, f: Func, labels: seq<LabelInfo>, items: seq<Node>, depth: nat, inVars: nat, lo: nat, bound: nat,
    flushed: nat, flushed': nat)
    requires Shape(m, f, labels, items, depth, inVars, lo, bound, flushed) && flushed <= flushed'
    ensures Shape(m, f, labels, items, depth, inVars, lo, bound, flushed')
  {
    hide Gives;
    AllWithinWider(items, lo, flushed, lo, flushed');
    AllWithinWider(items[|items| - depth + inVars..], bound, flushed, bound, flushed');
  }

  lemma WithinJoin(a: seq<Node>, b: seq<Node>, lo: nat, hi: nat)
    requires AllWithin(a, lo, hi) && AllWithin(b, lo, hi)
    ensures AllWithin(a + b, lo, hi)
  {
    hide Within;
  }

  lemma SinglesJoin(m: Module, f: Func, labels: seq<LabelInfo>, a: seq<Node>, b: seq<Node>)
    requires Singles(m, f, labels, a) && Singles(m, f, labels, b)
    ensures Singles(m, f, labels, a + b)
  {
    hide Gives;
  }

  lemma LastSingle(m: Module, f: Func, labels: seq<LabelInfo>, news: seq<Node>, lo: nat, hi: nat)
    requires news != [] && AllWithin(news, lo, hi) && Gives(m, f, labels, Last(news), 1)
    ensures Singles(m, f, labels, [Last(news)]) && AllWithin([Last(news)], lo, hi)
  {
    hide Gives, Within;
  }

  /** An instruction with one result: its node is an operand that is not a variable. */
  lemma ShapePush(
    m: Module, f: Func, labels: seq<LabelInfo>, items: seq<Node>, depth: nat, inVars: nat, lo: nat, bound: nat,
    flushed: nat, news: seq<Node>)
    requires Shape(m, f, labels, items, depth, inVars, lo, bound, flushed)
    requires AllWithin(news, bound, flushed) && news != [] && (|news| == 1 || depth == 0)
             && Gives(m, f, labels, Last(news), 1)
    ensures Shape(m, f, labels, items + news, depth + 1, inVars, lo, bound, flushed)
  {
    hide Singles, AllWithin, Vars, Gives;
    var all := items + news;
    var n, at := |all| - (depth + 1), |items| - depth;
    AllWithinWider(news, bound, flushed, lo, flushed);
    WithinJoin(items, news, lo, flushed);
    LastSingle(m, f, labels, news, bound, flushed);
    if depth == 0 {
      assert all[n..] == [Last(news)] == all[n + inVars..] && all[n..n + inVars] == items[at..at + inVars];
    } else {
      assert all[n..] == items[at..] + news && all[n..n + inVars] == items[at..at + inVars];
      assert all[n + inVars..] == items[at + inVars..] + news;
      assert news == [Last(news)];
      SinglesJoin(m, f, labels, items[at..], news);
      WithinJoin(items[at + inVars..], news, bound, flushed);
    }
  }

  /** A constant on top of variables only is a variable too. */
  lemma ShapeConst(
    m: Module, f: Func, labels: seq<LabelInfo>, items: seq<Node>, depth: nat, lo: nat, bound: nat, flushed: nat,
    n: Node)
    requires Shape(m, f, labels, items, depth, depth, lo, bound, flushed) && IsVar(n) && Within(n, 0, flushed)
             && Within(n, lo, flushed)
    ensures Shape(m, f, labels, items + [n], depth + 1, depth + 1, lo, flushed, flushed)
  {
    hide Gives;
    var all := items + [n];
    var k := |all| - (depth + 1);
    VarGives(m, f, labels, n);
    assert all[k..] == items[|items| - depth..] + [n];
    assert all[k..k + depth + 1] == items[|items| - depth..|items| - depth + depth] + [n];
    var vars := items[|items| - depth..|items| - depth + depth];
    forall i | 0 <= i < depth ensures Within(vars[i], 0, flushed) { WithinWider(vars[i], 0, bound, 0, flushed); }
    assert all[k + depth + 1..] == [];
  }

  /** All operands are variables, with the statements `pre` before them. */
  lemma ShapeVars(m: Module, f: Func, labels: seq<LabelInfo>, pre: seq<Node>, vars: seq<Node>, lo: nat, flushed: nat)
    requires Vars(vars, flushed) && AllWithin(pre, lo, flushed) && lo <= flushed
    ensures Shape(m, f, labels, pre + vars, |vars|, |vars|, lo, flushed, flushed)
  {
    hide Gives;
    var all := pre + vars;
    assert all[|all| - |vars|..] == vars && all[|all| - |vars|..|all| - |vars| + |vars|] == vars
      && all[|all| - |vars| + |vars|..] == [];
    forall i | 0 <= i < |vars| ensures Gives(m, f, labels, vars[i], 1) && Within(vars[i], lo, flushed) {
      VarGives(m, f, labels, vars[i]);
      VarWithin(vars[i], flushed, lo, flushed);
    }
  }

  lemma VarsWider(vars: seq<Node>, more: seq<Node>, bound: nat, flushed: nat)
    requires Vars(vars, bound) && Vars(more, flushed) && bound <= flushed
    ensures Vars(vars + more, flushed)
  {
    forall i | 0 <= i < |vars| ensures Within(vars[i], 0, flushed) { WithinWider(vars[i], 0, bound, 0, flushed); }
  }

  predicate IsReturn(n: Node) { n.ExprNode? && n.e.Return? }

  class AST {
    const m: Module
    const f: Func

    var expStack: seq<Node>
    var predecls: seq<Node>
    var valueStackDepth: int
    var varsDefined: map<Var, nat>
    var flushedVars: nat
    var curBlockId: nat
    var blockStack: seq<nat>
    var blocksClosed: seq<bool>

    /** The label stack of the module context. */
    var labels: seq<LabelInfo>

    constructor (m: Module, f: Func, params: set<Var>)
      ensures this.m == m && this.f == f && expStack == [] && predecls == [] && valueStackDepth == 0 && flushedVars == 0
      ensures labels == [LabelInfo("", |f.sig.results|)] && blocksClosed == [] && IdsKnown(1)
    {
      this.m, this.f := m, f;
      expStack, predecls, valueStackDepth, flushedVars := [], [], 0, 0;
      varsDefined := map v | v in params :: 0;
      curBlockId, blockStack, blocksClosed := 0, [], [];
      labels := [LabelInfo("", |f.sig.results|)];
    }

    /** Every variable was defined in a block that was opened. */
    predicate IdsKnown(n: nat)
      reads this`varsDefined
    {
      forall v | v in varsDefined :: varsDefined[v] < n
    }

    /** Inside a block. */
    predicate Open()
      reads this`curBlockId, this`blocksClosed, this`varsDefined, this`predecls
    {
      curBlockId < |blocksClosed| && IdsKnown(|blocksClosed|) && OnlyDecls()
    }

    predicate OnlyDecls()
      reads this`predecls
    {
      forall d | d in predecls :: d.Decl?
    }

    // ----- single nodes -----

    method PopItems(nargs: nat) returns (children: seq<Node>)
      requires nargs <= |expStack|
      modifies this`expStack
      ensures children == old(expStack)[|old(expStack)| - nargs..]
              && expStack == old(expStack)[..|old(expStack)| - nargs]
    {
      children := expStack[|expStack| - nargs..];
      expStack := expStack[..|expStack| - nargs];
    }

    /** InsertNode for an expression: the last `nargs` items become its children. */
    method InsertExpr(e: Expr, nargs: nat)
      requires nargs <= |expStack|
      modifies this`expStack
      ensures var n := |old(expStack)| - nargs;
              expStack == old(expStack)[..n] + [ExprNode(e, old(expStack)[n..])]
    {
      var children := PopItems(nargs);
      expStack := expStack + [ExprNode(e, children)];
    }

    method PreDecl(x: Var)
      modifies this`predecls
      ensures predecls == old(predecls) + [Decl(x)]
    {
      predecls := predecls + [Decl(x)];
    }

    /** Local variables are declared first when they are read first, or read after their block. */
    method Get(e: Expr, x: Var, local: bool)
      requires Open()
      modifies this`expStack, this`predecls, this`varsDefined
      ensures Open() && expStack == old(expStack) + [ExprNode(e, [])]
    {
      if local {
        if x !in varsDefined {
          varsDefined := varsDefined[x := curBlockId];
          PreDecl(x);
        } else if blocksClosed[varsDefined[x]] {
          PreDecl(x);
        }
      }
      InsertExpr(e, 0);
      ghost var was := old(expStack);
      assert was[..|was|] == was && was[|was|..] == [];
    }

    method Set(e: Expr, x: Var, local: bool)
      requires Open() && expStack != []
      modifies this`expStack, this`predecls, this`varsDefined
      ensures Open()
      ensures var n, args := |old(expStack)| - 1, [Last(old(expStack))];
              || expStack == old(expStack)[..n] + [ExprNode(e, args)]
              || (valueStackDepth == 1 && local && expStack == old(expStack)[..n] + [DeclInit(x, args)])
    {
      ghost var was := expStack;
      assert was[|was| - 1..] == [Last(was)];
      if local && x !in varsDefined {
        varsDefined := varsDefined[x := curBlockId];
        if valueStackDepth == 1 {
          var children := PopItems(1);
          expStack := expStack + [DeclInit(x, children)];
          return;
        } else {
          PreDecl(x);
        }
      }
      InsertExpr(e, 1);
    }

    // ----- flushing -----

    /** GenFlushVars: the last `nargs` items are assigned to the next `numVals` temporaries. */
    method GenFlushVars(nargs: nat, numVals: nat)
      requires nargs <= |expStack|
      modifies this`expStack
      ensures var n := |old(expStack)| - nargs;
              expStack == old(expStack)[..n] + [FlushToVars(flushedVars, numVals, old(expStack)[n..])]
    {
      var children := PopItems(nargs);
      expStack := expStack + [FlushToVars(flushedVars, numVals, children)];
    }

    method MoveStatementsBelowVars(numVars: nat, amount: nat)
      requires numVars + amount <= |expStack|
      modifies this`expStack
      ensures expStack == Rotated(old(expStack), numVars, amount)
    {
      expStack := Rotated(expStack, numVars, amount);
    }

    /** GenFlushedVars: the flushed values come back as variables. */
    method GenFlushedVars(numVals: nat)
      modifies this`expStack, this`flushedVars
      ensures expStack == old(expStack) + FlushedVars(old(flushedVars), numVals)
      ensures flushedVars == old(flushedVars) + numVals
    {
      for i := 0 to numVals
        invariant expStack == old(expStack) + FlushedVars(old(flushedVars), i) && flushedVars == old(flushedVars) + i
      {
        expStack := expStack + [FlushedVar(flushedVars)];
        flushedVars := flushedVars + 1;
        assert FlushedVars(old(flushedVars), i) + [FlushedVar(old(flushedVars) + i)]
          == FlushedVars(old(flushedVars), i + 1);
      }
    }

    /** A statement `v` above values: they are flushed, and the flush and the statement go below the
        variables. */
    method FlushBeforeStatement(
      ghost pre: seq<Node>, ghost vars: seq<Node>, ghost vals: seq<Node>, ghost v: Node, numVars: nat, numVals: nat)
      requires expStack == pre + vars + vals + [v] && numVars == |vars| && numVals == |vals|
      modifies this`expStack, this`flushedVars
      ensures expStack
              == pre + [FlushToVars(old(flushedVars), numVals, vals)] + [v] + vars
              + FlushedVars(old(flushedVars), numVals)
      ensures flushedVars == old(flushedVars) + numVals
    {
      ghost var flush := FlushToVars(flushedVars, numVals, vals);
      var voidExp := expStack[|expStack| - 1];
      expStack := expStack[..|expStack| - 1];
      assert expStack == (pre + vars) + vals;
      GenFlushVars(numVals, numVals);
      assert expStack == pre + vars + [flush];
      expStack := expStack + [voidExp];
      assert expStack == pre + vars + [flush, v];
      MoveStatementsBelowVars(numVars, 2);
      RotatedIs(pre, vars, [flush, v]);
      assert expStack == pre + [flush] + [v] + vars;
      GenFlushedVars(numVals);
    }

    /** A statement above variables only goes below them. */
    method LiftStatement(ghost pre: seq<Node>, ghost vars: seq<Node>, ghost v: Node, numVars: nat)
      requires expStack == pre + vars + [v] && numVars == |vars|
      modifies this`expStack
      ensures expStack == pre + [v] + vars
    {
      RotatedIs(pre, vars, [v]);
      expStack := Rotated(expStack, numVars, 1);
    }

    /** Several values at once, with those below them, are flushed below the variables. */
    method FlushMultiValue(
      ghost pre: seq<Node>, ghost vars: seq<Node>, ghost group: seq<Node>, numVars: nat, nargs: nat, numVals: nat)
      requires expStack == pre + vars + group && numVars == |vars| && nargs == |group|
      modifies this`expStack, this`flushedVars
      ensures expStack
              == pre + [FlushToVars(old(flushedVars), numVals, group)] + vars + FlushedVars(old(flushedVars), numVals)
      ensures flushedVars == old(flushedVars) + numVals
    {
      ghost var flush := FlushToVars(flushedVars, numVals, group);
      assert expStack == (pre + vars) + group;
      GenFlushVars(nargs, numVals);
      assert expStack == pre + vars + [flush];
      MoveStatementsBelowVars(numVars, 1);
      RotatedIs(pre, vars, [flush]);
      GenFlushedVars(numVals);
    }

    // ----- expressions -----

    /** Nothing outside the items, the declarations and the counters has changed. */
    twostate predicate SameContext()
      reads this
    {
      && labels == old(labels) && valueStackDepth == old(valueStackDepth)
      && curBlockId == old(curBlockId) && blockStack == old(blockStack)
      && flushedVars >= old(flushedVars) && |blocksClosed| >= |old(blocksClosed)|
    }

    /** What an instruction has become: `news`, made of the operands `args`. */
    ghost predicate Built(e: Expr, args: seq<Node>, news: seq<Node>, lo: nat)
      reads this
    {
      && Does(m, f, labels, e, args, news) && AllWithin(news, lo, flushedVars) && news != []
      && Gives(m, f, labels, Last(news), ArityOf(m, f, labels, e).nreturns)
      && (|news| == 1 || (e.LocalTee? && valueStackDepth == 1))
    }

    /** The operands of an instruction on top of the items. */
    ghost predicate HasArgs(args: seq<Node>, n: nat, lo: nat)
      reads this
    {
      && n <= |expStack| && args == expStack[|expStack| - n..]
      && Singles(m, f, labels, args) && AllWithin(args, lo, flushedVars) && lo <= flushedVars
    }

    lemma SingleBuilt(e: Expr, args: seq<Node>, node: Node, lo: nat)
      requires Does(m, f, labels, e, args, [node]) && Singles(m, f, labels, args)
               && |args| == ArityOf(m, f, labels, e).nargs
      requires Within(node, lo, flushedVars)
      ensures Built(e, args, [node], lo)
    {
      DoesGives(m, f, labels, e, args, node);
    }

    /** LocalGet, GlobalGet, LocalSet and GlobalSet. */
    method ConstructAccess(e: Expr, ghost args: seq<Node>, ghost lo: nat) returns (ghost news: seq<Node>)
      requires e.LocalGet? || e.GlobalGet? || e.LocalSet? || e.GlobalSet?
      requires Open() && Proper(f, labels) && HasArgs(args, ArityOf(m, f, labels, e).nargs, lo)
      modifies this
      ensures Open() && SameContext() && expStack == old(expStack)[..|old(expStack)| - |args|] + news
      ensures Built(e, args, news, lo) && |news| == 1 && !IsReturn(news[0])
    {
      hide Does, Singles, Gives, Proper;
      ghost var was := expStack;
      if e.LocalGet? || e.GlobalGet? {
        Get(e, e.x, e.LocalGet?);
        assert was[..|was| - 0] == was && args == [];
      } else {
        assert args == [Last(was)];
        Set(e, e.x, e.LocalSet?);
      }
      news := expStack[|was| - |args|..];
      ghost var node := news[0];
      if node.DeclInit? {
        assert e == LocalSet(e.x);
        DeclDoes(m, f, labels, e.x, args);
      } else {
        FlatDoes(m, f, labels, e, args);
      }
      SingleBuilt(e, args, node, lo);
    }

    method ConstructTee(e: Expr, ghost args: seq<Node>, ghost lo: nat) returns (ghost news: seq<Node>)
      requires e.LocalTee? && Open() && Proper(f, labels) && HasArgs(args, 1, lo)
      modifies this
      ensures Open() && SameContext() && expStack == old(expStack)[..|old(expStack)| - 1] + news
      ensures Built(e, args, news, lo) && |news| == (if valueStackDepth == 1 then 2 else 1) && !IsReturn(Last(news))
    {
      hide Does, Singles, Gives, Proper;
      ghost var was := expStack;
      assert args == [Last(was)];
      Set(e, e.x, true);
      ghost var node := Last(expStack);
      if valueStackDepth == 1 {
        Get(e, e.x, true);
        news := [node, ExprNode(e, [])];
        TeeDoes(m, f, labels, e.x, args, news);
        TeeGetGives(m, f, labels, e.x);
      } else {
        news := [node];
        FlatDoes(m, f, labels, e, args);
        SingleBuilt(e, args, node, lo);
      }
    }

    method ConstructFlat(e: Expr, nargs: nat, ghost args: seq<Node>, ghost lo: nat) returns (ghost news: seq<Node>)
      requires IsFlat(e) && nargs == ArityOf(m, f, labels, e).nargs && !(e.LocalTee? && nargs == 0)
      requires Open() && Proper(f, labels) && CarriesRight(labels, e) && HasArgs(args, nargs, lo)
      modifies this
      ensures Open() && SameContext() && expStack == old(expStack)[..|old(expStack)| - nargs] + news
      ensures Built(e, args, news, lo) && news == [ExprNode(e, args)]
    {
      hide Does, Singles, Gives, Proper, ArityOf, CarriesRight;
      InsertExpr(e, nargs);
      news := [ExprNode(e, args)];
      FlatDoes(m, f, labels, e, args);
      SingleBuilt(e, args, news[0], lo);
    }

    method BeginBlock(name: string, arity: nat)
      modifies this`labels
      ensures labels == old(labels) + [LabelInfo(name, arity)]
    {
      labels := labels + [LabelInfo(name, arity)];
    }

    method EndBlock()
      requires labels != []
      modifies this`labels
      ensures labels == old(labels)[..|old(labels)| - 1]
    {
      labels := labels[..|labels| - 1];
    }

    /** What a nested list has become: one item. */
    twostate predicate ListBuilt(es: ExprList, nresults: nat, node: Node)
      reads this
    {
      && Open() && SameContext() && expStack == old(expStack) + [node]
      && Body(m, f, labels, es, nresults, node) && Within(node, old(flushedVars), flushedVars)
    }

    /** Block and Loop. */
    method ConstructBlock(e: Expr, ghost lo: nat) returns (ghost news: seq<Node>)
      requires (e.Block? || e.Loop?) && Fits(m, f, labels, e) && Proper(f, labels)
      requires Open() && valueStackDepth >= 0 && lo <= flushedVars
      modifies this
      ensures Open() && SameContext() && expStack == old(expStack) + news
      ensures Built(e, [], news, lo) && |news| == 1 && !IsReturn(news[0])
      decreases e, 0
    {
      hide Does, Body, Gives, FitsList;
      ghost var was, outer := expStack, labels;
      BeginBlock(e.name, if e.Block? then |e.results| else 0);
      ghost var node := ConstructList(e.body, |e.results|);
      EndBlock();
      assert labels == outer;
      assert expStack[..|expStack| - 1] == was && expStack[|expStack| - 1..] == [node];
      InsertExpr(e, 1);
      news := [ExprNode(e, [node])];
      if e.Block? { BlockDoes(m, f, labels, e, node); } else { LoopDoes(m, f, labels, e, node); }
      WithinWider(node, old(flushedVars), flushedVars, lo, flushedVars);
      SingleBuilt(e, [], news[0], lo);
    }

    method ConstructIf(e: Expr, ghost args: seq<Node>, ghost lo: nat) returns (ghost news: seq<Node>)
      requires e.If? && Fits(m, f, labels, e) && Proper(f, labels) && HasArgs(args, 1, lo)
      requires Open() && valueStackDepth >= 1
      modifies this
      ensures Open() && SameContext() && expStack == old(expStack)[..|old(expStack)| - 1] + news
      ensures Built(e, args, news, lo) && |news| == 1 && !IsReturn(news[0])
      decreases e, 1
    {
      hide Does, Body, Gives, Fits, Singles, AllWithin, Proper;
      ghost var was, F := expStack, flushedVars;
      valueStackDepth := valueStackDepth - 1;
      ghost var bodies := ConstructArms(e, lo);
      valueStackDepth := valueStackDepth + 1;
      var nargs := if e.else_.Nil? then 2 else 3;
      assert expStack == was[..|was| - 1] + (args + bodies);
      InsertExpr(e, nargs);
      ghost var node := ExprNode(e, args + bodies);
      news := [node];
      AllWithinWider(args, lo, F, lo, flushedVars);
      assert Within(node, lo, flushedVars) by { WithinTogether(e, args, bodies, lo, flushedVars); }
      IfElse(labels, e);
      IfDoes(m, f, labels, e, args[0], bodies);
      assert args == [args[0]];
      SingleBuilt(e, args, node, lo);
    }

    lemma WithinTogether(e: Expr, args: seq<Node>, bodies: seq<Node>, lo: nat, hi: nat)
      requires AllWithin(args, lo, hi) && AllWithin(bodies, lo, hi)
      ensures Within(ExprNode(e, args + bodies), lo, hi)
    {}

    /** The one or two nested lists of an `if`. */
    method ConstructArms(e: Expr, ghost lo: nat) returns (ghost bodies: seq<Node>)
      requires e.If? && Fits(m, f, labels, e) && Proper(f, labels) && Open() && valueStackDepth >= 0
               && lo <= flushedVars
      modifies this
      ensures Open() && SameContext() && expStack == old(expStack) + bodies && AllWithin(bodies, lo, flushedVars)
      ensures |bodies| == if e.else_.Nil? then 1 else 2
      ensures var inner := labels + [LabelInfo(e.name, |e.results|)];
              && Body(m, f, inner, e.then_, |e.results|, bodies[0])
              && (e.else_.Cons? ==> Body(m, f, inner, e.else_, |e.results|, bodies[1]))
      decreases e, 0
    {
      hide Does, Body, Gives, FitsList;
      ghost var outer, F := labels, flushedVars;
      BeginBlock(e.name, |e.results|);
      ghost var t := ConstructList(e.then_, |e.results|);
      ghost var mid := flushedVars;
      bodies := [t];
      if e.else_.Cons? {
        ghost var u := ConstructList(e.else_, |e.results|);
        bodies := [t, u];
        WithinWider(u, mid, flushedVars, lo, flushedVars);
      }
      WithinWider(t, F, mid, lo, flushedVars);
      EndBlock();
      assert labels == outer;
    }

    /** An `if` without an else branch has no results. */
    lemma IfElse(labels: seq<LabelInfo>, e: Expr)
      requires e.If? && Fits(m, f, labels, e)
      ensures e.else_.Nil? ==> e.results == []
    {}

    /** Construct(const Expr&). */
    method ConstructExpr(e: Expr, ghost args: seq<Node>, ghost lo: nat) returns (ghost news: seq<Node>)
      requires Fits(m, f, labels, e) && Proper(f, labels) && HasArgs(args, ArityOf(m, f, labels, e).nargs, lo)
      requires Open() && valueStackDepth >= |args|
      modifies this
      ensures Open() && SameContext() && expStack == old(expStack)[..|old(expStack)| - |args|] + news
      ensures Built(e, args, news, lo) && (IsReturn(Last(news)) <==> e.Return?)
      ensures |news| == if e.LocalTee? && valueStackDepth == 1 then 2 else 1
      ensures e.Const? || ArityOf(m, f, labels, e).unreachable ==> news == [ExprNode(e, args)]
      decreases e, 2
    {
      hide Does, Gives, FitsList, Proper, Singles;
      ghost var was := expStack;
      var nargs := ArityOf(m, f, labels, e).nargs;
      assert nargs == 0 ==> was[..|was| - 0] == was;
      match e
      case LocalGet(_) => news := ConstructAccess(e, args, lo);
      case GlobalGet(_) => news := ConstructAccess(e, args, lo);
      case LocalSet(_) => news := ConstructAccess(e, args, lo);
      case GlobalSet(_) => news := ConstructAccess(e, args, lo);
      case LocalTee(_) => news := ConstructTee(e, args, lo);
      case If(_, _, _, _) => news := ConstructIf(e, args, lo);
      case Block(_, _, _) => news := ConstructBlock(e, lo);
      case Loop(_, _, _) => news := ConstructBlock(e, lo);
      case Br(_) => news := ConstructFlat(e, 0, args, lo);
      case BrIf(_) => news := ConstructFlat(e, 1, args, lo);
      case _ => news := ConstructFlat(e, nargs, args, lo);
    }

    // ----- lists -----

    /** The items of the current list, which begin at `start`, stand for the instructions so far. */
    ghost predicate Stands(
      es: ExprList, rest: ExprList, start: nat, depth: int, inVars: int, lo: nat, bound: nat)
      reads this`expStack, this`flushedVars, this`labels
    {
      && start <= |expStack| && 0 <= inVars <= depth
      && Shape(m, f, labels, expStack[start..], depth, inVars, lo, bound, flushedVars)
      && Continues(m, f, labels, es, rest, expStack[start..], depth)
    }

    /** The items of the current list are `items` and then `node`, just built from an instruction
        with `nreturns` results. */
    ghost predicate JustBuilt(
      nreturns: nat, depth: nat, inVars: nat, es: ExprList, rest: ExprList, start: nat, items: seq<Node>, node: Node,
      lo: nat, bound: nat)
      reads this`expStack, this`flushedVars, this`labels
    {
      && start <= |expStack| && expStack[start..] == items + [node]
      && nreturns <= depth && inVars <= depth - nreturns
      && Shape(m, f, labels, items, depth - nreturns, inVars, lo, bound, flushedVars)
      && Gives(m, f, labels, node, nreturns) && Within(node, bound, flushedVars)
      && Continues(m, f, labels, es, rest, items + [node], depth)
    }

    /** Afterwards all operands are variables. */
    twostate predicate AllInVars(depth: nat, es: ExprList, rest: ExprList, start: nat, lo: nat)
      reads this
    {
      && start <= |old(expStack)| && |expStack| >= start && expStack[..start] == old(expStack)[..start]
      && flushedVars >= old(flushedVars) && Stands(es, rest, start, depth, depth, lo, flushedVars)
    }

    /** Values are flushed around the statement or the values on top, if there are any to flush.
        `depth` and `inVars` are counted from the start of the list. */
    method FlushAsNeeded(nreturns: nat, depth: nat, inVars: nat, ghost es: ExprList, ghost rest: ExprList,
                         ghost start: nat, ghost items: seq<Node>, ghost node: Node, ghost lo: nat, ghost bound: nat)
      requires nreturns != 1 && JustBuilt(nreturns, depth, inVars, es, rest, start, items, node, lo, bound)
               && !IsReturn(node)
      modifies this`expStack, this`flushedVars
      ensures AllInVars(depth, es, rest, start, lo) && expStack != [] && !IsReturn(Last(expStack))
      ensures |expStack| == |old(expStack)| + if nreturns > 0 then nreturns else if depth > inVars then 1 else 0
    {
      hide Gives, Continues, Singles, Shape;
      var numVals := depth - inVars;
      if nreturns == 0 && depth > 0 {
        if numVals > 0 {
          FlushStatement(depth, inVars, es, rest, start, items, node, lo, bound);
        } else {
          LiftOverVars(depth, es, rest, start, items, node, lo, bound);
        }
      } else if nreturns > 1 {
        FlushValues(nreturns, depth, inVars, es, rest, start, items, node, lo, bound);
      } else {
        NoOperands(es, rest, items, node, lo, bound, flushedVars);
      }
    }

    method FlushStatement(depth: nat, inVars: nat, ghost es: ExprList, ghost rest: ExprList,
                          ghost start: nat, ghost items: seq<Node>, ghost node: Node, ghost lo: nat, ghost bound: nat)
      requires inVars < depth && JustBuilt(0, depth, inVars, es, rest, start, items, node, lo, bound)
      modifies this`expStack, this`flushedVars
      ensures AllInVars(depth, es, rest, start, lo) && |expStack| == |old(expStack)| + 1 && Last(expStack).FlushedVar?
    {
      hide Gives, Continues, Singles, AllWithin, Vars, Shape;
      ghost var base, k, F := expStack[..start], |items| - depth, flushedVars;
      ShapeParts(m, f, labels, items, depth, inVars, lo, bound, flushedVars);
      ghost var pre, vars, vals := items[..k], items[k..k + inVars], items[k + inVars..];
      assert expStack == (base + pre) + vars + vals + [node];
      var numVals := depth - inVars;
      FlushBeforeStatement(base + pre, vars, vals, node, inVars, numVals);
      StatementFlushed(es, rest, pre, vars, vals, node, lo, bound, F);
      assert expStack == base + (pre + [FlushToVars(F, numVals, vals)] + [node] + vars + FlushedVars(F, numVals));
    }

    method LiftOverVars(depth: nat, ghost es: ExprList, ghost rest: ExprList,
                        ghost start: nat, ghost items: seq<Node>, ghost node: Node, ghost lo: nat, ghost bound: nat)
      requires depth > 0 && JustBuilt(0, depth, depth, es, rest, start, items, node, lo, bound)
      modifies this`expStack
      ensures AllInVars(depth, es, rest, start, lo) && |expStack| == |old(expStack)| > 0 && IsVar(Last(expStack))
    {
      hide Gives, Continues, Singles, AllWithin, Vars, Shape;
      ghost var base, k := expStack[..start], |items| - depth;
      ShapeParts(m, f, labels, items, depth, depth, lo, bound, flushedVars);
      ghost var pre, vars := items[..k], items[k..k + depth];
      assert items == pre + vars;
      assert expStack == (base + pre) + vars + [node];
      VarsAre(vars, bound);
      LiftStatement(base + pre, vars, node, depth);
      StatementLifted(es, rest, pre, vars, node, lo, bound, flushedVars);
      assert expStack == base + (pre + [node] + vars);
    }

    method FlushValues(nreturns: nat, depth: nat, inVars: nat, ghost es: ExprList, ghost rest: ExprList,
                       ghost start: nat, ghost items: seq<Node>, ghost node: Node, ghost lo: nat, ghost bound: nat)
      requires nreturns > 1 && JustBuilt(nreturns, depth, inVars, es, rest, start, items, node, lo, bound)
      modifies this`expStack, this`flushedVars
      ensures AllInVars(depth, es, rest, start, lo) && |expStack| == |old(expStack)| + nreturns
              && Last(expStack).FlushedVar?
    {
      hide Gives, Continues, Singles, AllWithin, Vars, Shape;
      ghost var base, k, F := expStack[..start], |items| - (depth - nreturns), flushedVars;
      ShapeParts(m, f, labels, items, depth - nreturns, inVars, lo, bound, flushedVars);
      ghost var pre, vars, vals := items[..k], items[k..k + inVars], items[k + inVars..];
      assert expStack == (base + pre) + vars + (vals + [node]);
      var numVals := depth - inVars;
      FlushMultiValue(base + pre, vars, vals + [node], inVars, numVals - nreturns + 1, numVals);
      ValuesFlushed(es, rest, pre, vars, vals, node, nreturns, lo, bound, F);
      assert expStack == base + (pre + [FlushToVars(F, numVals, vals + [node])] + vars + FlushedVars(F, numVals));
    }

    lemma {:induction false} StatementFlushed(
      es: ExprList, rest: ExprList, pre: seq<Node>, vars: seq<Node>, vals: seq<Node>, node: Node, lo: nat, bound: nat,
      F: nat)
      requires lo <= bound <= F && AllWithin(pre + vars + vals, lo, F)
      requires Vars(vars, bound) && AllWithin(vals, bound, F) && Singles(m, f, labels, vals)
      requires Gives(m, f, labels, node, 0) && Within(node, bound, F)
      requires Continues(m, f, labels, es, rest, pre + vars + vals + [node], |vars| + |vals|)
      ensures var n := |vals|;
              var items := pre + [FlushToVars(F, n, vals)] + [node] + vars + FlushedVars(F, n);
              && Shape(m, f, labels, items, |vars| + n, |vars| + n, lo, F + n, F + n)
              && Continues(m, f, labels, es, rest, items, |vars| + n)
    {
      hide Gives, Continues, Singles, Alike, GroupGives;
      var n := |vals|;
      SinglesGive(m, f, labels, vals);
      OneGives(m, f, labels, node, 0);
      FlushAlike(m, f, labels, pre, vars, vals, [node], bound, F, n);
      var items := pre + [FlushToVars(F, n, vals)] + [node] + vars + FlushedVars(F, n);
      ContinuesAlike(m, f, labels, es, rest, pre + vars + vals + [node], items, |vars| + n);
      FlushShape(pre, vars, vals, [node], n, lo, bound, F);
    }

    lemma StatementLifted(
      es: ExprList, rest: ExprList, pre: seq<Node>, vars: seq<Node>, node: Node, lo: nat, bound: nat, F: nat)
      requires lo <= bound <= F && AllWithin(pre + vars, lo, F) && Vars(vars, bound)
      requires Gives(m, f, labels, node, 0) && Within(node, bound, F)
      requires Continues(m, f, labels, es, rest, pre + vars + [node], |vars|)
      ensures var items := pre + [node] + vars;
              && Shape(m, f, labels, items, |vars|, |vars|, lo, F, F)
              && Continues(m, f, labels, es, rest, items, |vars|)
    {
      hide Gives, Continues, Singles, Alike, GroupGives;
      OneGives(m, f, labels, node, 0);
      LiftAlike(m, f, labels, pre, vars, [node], bound, F);
      ContinuesAlike(m, f, labels, es, rest, pre + vars + [node], pre + [node] + vars, |vars|);
      WithinWider(node, bound, F, lo, F);
      assert AllWithin(pre + [node], lo, F) by { PreWithin(pre, vars, lo, F); }
      assert Vars(vars, F) by { VarsWider(vars, [], bound, F); assert vars + [] == vars; }
      ShapeVars(m, f, labels, pre + [node], vars, lo, F);
    }

    lemma PreWithin(pre: seq<Node>, more: seq<Node>, lo: nat, hi: nat)
      requires AllWithin(pre + more, lo, hi)
      ensures AllWithin(pre, lo, hi)
    {
      assert forall i | 0 <= i < |pre| :: pre[i] == (pre + more)[i];
    }

    lemma ValuesFlushed(
      es: ExprList, rest: ExprList, pre: seq<Node>, vars: seq<Node>, vals: seq<Node>, node: Node, k: nat, lo: nat,
      bound: nat, F: nat)
      requires lo <= bound <= F && AllWithin(pre + vars + vals, lo, F)
      requires Vars(vars, bound) && AllWithin(vals, bound, F) && Singles(m, f, labels, vals)
      requires Gives(m, f, labels, node, k) && Within(node, bound, F)
      requires Continues(m, f, labels, es, rest, pre + vars + vals + [node], |vars| + |vals| + k)
      ensures var n := |vals| + k;
              var items := pre + [FlushToVars(F, n, vals + [node])] + vars + FlushedVars(F, n);
              && Shape(m, f, labels, items, |vars| + n, |vars| + n, lo, F + n, F + n)
              && Continues(m, f, labels, es, rest, items, |vars| + n)
    {
      hide Gives, Continues, Singles, Alike, GroupGives;
      var n := |vals| + k;
      GroupAndLast(m, f, labels, vals, node, k);
      NothingGives(m, f, labels);
      FlushAlike(m, f, labels, pre, vars, vals + [node], [], bound, F, n);
      var items := pre + [FlushToVars(F, n, vals + [node])] + vars + FlushedVars(F, n);
      assert pre + vars + (vals + [node]) + [] == pre + vars + vals + [node];
      assert pre + [FlushToVars(F, n, vals + [node])] + [] + vars + FlushedVars(F, n) == items;
      ContinuesAlike(m, f, labels, es, rest, pre + vars + vals + [node], items, |vars| + n);
      assert AllWithin(pre + vars + (vals + [node]), lo, F) by {
        AddWithin(pre + vars + vals, node, lo, bound, F);
        assert pre + vars + (vals + [node]) == pre + vars + vals + [node];
      }
      assert AllWithin(vals + [node], bound, F);
      FlushShape(pre, vars, vals + [node], [], n, lo, bound, F);
      assert pre + [FlushToVars(F, n, vals + [node])] + [] == pre + [FlushToVars(F, n, vals + [node])];
    }

    lemma AddWithin(items: seq<Node>, node: Node, lo: nat, bound: nat, F: nat)
      requires AllWithin(items, lo, F) && Within(node, bound, F) && lo <= bound
      ensures AllWithin(items + [node], lo, F)
    {
      WithinWider(node, bound, F, lo, F);
    }

    /** After a flush all operands are variables. */
    lemma FlushShape(
      pre: seq<Node>, vars: seq<Node>, group: seq<Node>, tail: seq<Node>, n: nat, lo: nat, bound: nat, F: nat)
      requires lo <= bound <= F && AllWithin(pre + vars + group, lo, F) && Vars(vars, bound)
      requires AllWithin(group, bound, F) && AllWithin(tail, bound, F)
      ensures Shape(m, f, labels, pre + [FlushToVars(F, n, group)] + tail + vars + FlushedVars(F, n),
                    |vars| + n, |vars| + n, lo, F + n, F + n)
    {
      hide Gives, Singles;
      var flush, fvs := FlushToVars(F, n, group), FlushedVars(F, n);
      assert pre + vars + group == pre + (vars + group);
      PreWithin(pre, vars + group, lo, F);
      AllWithinWider(pre, lo, F, lo, F + n);
      AllWithinWider(group, bound, F, lo, F + n);
      AllWithinWider(tail, bound, F, lo, F + n);
      assert AllWithin(pre + [flush] + tail, lo, F + n);
      VarsWider(vars, fvs, bound, F + n);
      ShapeVars(m, f, labels, pre + [flush] + tail, vars + fvs, lo, F + n);
      assert (pre + [flush] + tail) + (vars + fvs) == pre + [flush] + tail + vars + fvs;
    }

    lemma NoOperands(es: ExprList, rest: ExprList, items: seq<Node>, node: Node, lo: nat, bound: nat, F: nat)
      requires Shape(m, f, labels, items, 0, 0, lo, bound, F) && Within(node, bound, F)
      ensures Shape(m, f, labels, items + [node], 0, 0, lo, F, F)
    {
      hide Gives, Singles;
      AddWithin(items, node, lo, bound, F);
      ShapeVars(m, f, labels, items + [node], [], lo, F);
      assert items + [node] + [] == items + [node];
    }

    /** The values a list leaves are its last items, one value each, unless its end is not reached. */
    ghost predicate Results(es: ExprList, items: seq<Node>, n: nat)
      reads this`labels
    {
      || (n <= |items| && Singles(m, f, labels, items[|items| - n..]))
      || Never(m, f, labels, items)
    }

    /** What is known once an instruction has been built: `pre` are the items that stay, `news` the
        new ones in place of the operands. */
    ghost predicate Replaced(e: Expr, pre: seq<Node>, args: seq<Node>, news: seq<Node>, es: ExprList, rest: ExprList,
                             start: nat, depth: nat, inVars: nat, lo: nat, bound: nat)
      reads this`expStack, this`flushedVars, this`labels
    {
      var a := ArityOf(m, f, labels, e);
      && start <= |expStack| && expStack[start..] == pre + news
      && |args| == a.nargs <= depth && Built2(e, args, news, bound) && (|news| == 1 || depth == |args|)
      && Shape(m, f, labels, pre, depth - a.nargs, inVars, lo, bound, flushedVars)
      && Continues(m, f, labels, es, Cons(e, rest), pre + args, depth)
    }

    /** `Built` without the operand depth. */
    ghost predicate Built2(e: Expr, args: seq<Node>, news: seq<Node>, bound: nat)
      reads this`flushedVars, this`labels
    {
      && Does(m, f, labels, e, args, news) && Singles(m, f, labels, args) && AllWithin(news, bound, flushedVars)
        && news != []
      && Gives(m, f, labels, Last(news), ArityOf(m, f, labels, e).nreturns)
      && (e.Const? || ArityOf(m, f, labels, e).unreachable ==> news == [ExprNode(e, args)])
      && (|news| == 1 || e.LocalTee?)
    }

    /** An instruction with one result. */
    lemma OneResult(e: Expr, pre: seq<Node>, args: seq<Node>, news: seq<Node>, es: ExprList, rest: ExprList, start: nat,
                    depth: nat, inVars: nat, lo: nat, bound: nat)
      requires Replaced(e, pre, args, news, es, rest, start, depth, inVars, lo, bound)
      requires ArityOf(m, f, labels, e).nreturns == 1
      ensures var d := depth - |args| + 1;
              && Stands(es, rest, start, d, inVars, lo, bound)
              && (e.Const? && inVars == d - 1 ==> Stands(es, rest, start, d, d, lo, flushedVars))
    {
      hide Gives, Continues, Singles, Does, Shape, AllWithin;
      ContinuesStep(m, f, labels, es, e, rest, pre, args, news, depth);
      var d := depth - |args|;
      ShapePush(m, f, labels, pre, d, inVars, lo, bound, flushedVars, news);
      ShapeBounds(pre, d, inVars, lo, bound);
      if e.Const? && inVars == d {
        ShapeConst(m, f, labels, pre, d, lo, bound, flushedVars, news[0]);
      }
    }

    lemma ShapeBounds(items: seq<Node>, depth: nat, inVars: nat, lo: nat, bound: nat)
      requires Shape(m, f, labels, items, depth, inVars, lo, bound, flushedVars)
      ensures inVars <= depth <= |items| && lo <= bound <= flushedVars
    {}

    /** An instruction with no result, or with several. */
    lemma OtherResults(
      e: Expr, pre: seq<Node>, args: seq<Node>, news: seq<Node>, es: ExprList, rest: ExprList, start: nat,
                       depth: nat, inVars: nat, lo: nat, bound: nat)
      requires Replaced(e, pre, args, news, es, rest, start, depth, inVars, lo, bound)
      requires ArityOf(m, f, labels, e).nreturns != 1
      ensures |news| == 1
      ensures var k := ArityOf(m, f, labels, e).nreturns;
              JustBuilt(k, depth - |args| + k, inVars, es, rest, start, pre, news[0], lo, bound)
    {
      hide Gives, Continues, Singles, Does, Shape;
      ShapeBounds(pre, depth - |args|, inVars, lo, bound);
      assert news == [news[0]];
      ContinuesStep(m, f, labels, es, e, rest, pre, args, news, depth);
    }

    /** The expression itself, in place of its operands. */
    method ReplaceOperands(e: Expr, depthStart: int, inVars: int, ghost es: ExprList, ghost rest: ExprList,
                           ghost start: nat, ghost lo: nat, ghost bound: nat)
      returns (ghost pre: seq<Node>, ghost args: seq<Node>, ghost news: seq<Node>)
      requires Fits(m, f, labels, e) && Proper(f, labels) && Open() && 0 <= depthStart <= inVars <= valueStackDepth
      requires Stands(es, Cons(e, rest), start, valueStackDepth - depthStart, inVars - depthStart, lo, bound)
      requires ArityOf(m, f, labels, e).nargs <= valueStackDepth - depthStart
      modifies this
      ensures Open() && SameContext() && start <= |old(expStack)|
      ensures start <= |expStack| && expStack[..start] == old(expStack)[..start] && expStack != []
      ensures |news| == if e.LocalTee? && valueStackDepth == 1 then 2 else 1
      ensures |expStack| == |old(expStack)| - ArityOf(m, f, labels, e).nargs + |news|
      ensures news != [] && expStack[|expStack| - 1] == Last(news) && (IsReturn(Last(news)) <==> e.Return?)
      ensures var d := valueStackDepth - depthStart;
              var d1 := d - ArityOf(m, f, labels, e).nargs;
              Replaced(e, pre, args, news, es, rest, start, d,
                if inVars - depthStart < d1 then inVars - depthStart else d1, lo, bound)
      decreases e, 3
    {
      hide Gives, Continues, Singles, Shape, AllWithin, Vars, Fits, Does, ArityOf, Proper, IdsKnown, OnlyDecls,
        Replaced;
      var nargs := ArityOf(m, f, labels, e).nargs;
      ghost var items, d, F := expStack[start..], valueStackDepth - depthStart, flushedVars;
      ghost var n := |items| - nargs;
      ghost var v := if inVars - depthStart < d - nargs then inVars - depthStart else d - nargs;
      ShapeTake(m, f, labels, items, d, inVars - depthStart, lo, bound, flushedVars, nargs);
      ghost var was := expStack;
      pre, args := items[..n], items[n..];
      CutStack(was, start, nargs);
      assert pre + args == items;
      news := ConstructExpr(e, args, bound);
      PutStack(was[..start], pre, news);
      ShapeGrow(m, f, labels, pre, d - nargs, v, lo, bound, F, flushedVars);
      TeeArity(labels, e);
      IsReplaced(e, pre, args, news, es, rest, start, d, v, lo, bound);
    }

    lemma CutStack(stack: seq<Node>, start: nat, n: nat)
      requires start <= |stack| && n <= |stack| - start
      ensures var items := stack[start..];
              var k := |items| - n;
              && items[k..] == stack[|stack| - n..] && stack[..|stack| - n] == stack[..start] + items[..k]
              && items[..k] + items[k..] == items
    {}

    lemma PutStack(base: seq<Node>, pre: seq<Node>, news: seq<Node>)
      requires news != []
      ensures var stack := (base + pre) + news;
              stack[|base|..] == pre + news && stack[..|base|] == base && stack[|stack| - 1] == Last(news)
    {}

    lemma IsReplaced(e: Expr, pre: seq<Node>, args: seq<Node>, news: seq<Node>, es: ExprList, rest: ExprList,
                     start: nat, depth: nat, inVars: nat, lo: nat, bound: nat)
      requires |args| == ArityOf(m, f, labels, e).nargs <= depth && start <= |expStack|
               && expStack[start..] == pre + news
      requires Built2(e, args, news, bound) && (|news| == 1 || depth == |args|)
      requires Shape(m, f, labels, pre, depth - |args|, inVars, lo, bound, flushedVars)
      requires Continues(m, f, labels, es, Cons(e, rest), pre + args, depth)
      ensures Replaced(e, pre, args, news, es, rest, start, depth, inVars, lo, bound)
    {
      hide Continues, Shape, Built2, ArityOf;
    }

    lemma TeeArity(labels: seq<LabelInfo>, e: Expr)
      ensures e.LocalTee? ==> ArityOf(m, f, labels, e).nargs == 1
    {}

    /** One instruction of a list.  `depthStart` is the operand depth the list began at. */
    method ConstructNext(e: Expr, depthStart: int, inVars: int, ghost es: ExprList, ghost rest: ExprList,
                         ghost start: nat, ghost lo: nat, ghost bound: nat)
      returns (inVars': int, unreachable: bool, ghost bound': nat)
      requires Fits(m, f, labels, e) && Proper(f, labels) && Open() && 0 <= depthStart <= inVars <= valueStackDepth
      requires Stands(es, Cons(e, rest), start, valueStackDepth - depthStart, inVars - depthStart, lo, bound)
      requires ArityOf(m, f, labels, e).nargs <= valueStackDepth - depthStart
      modifies this
      ensures Open() && labels == old(labels) && curBlockId == old(curBlockId) && blockStack == old(blockStack)
      ensures |blocksClosed| >= |old(blocksClosed)| && flushedVars >= old(flushedVars)
      ensures start <= |old(expStack)| && start <= |expStack| && expStack[..start] == old(expStack)[..start]
      ensures unreachable == ArityOf(m, f, labels, e).unreachable
      ensures valueStackDepth
              == old(valueStackDepth) - ArityOf(m, f, labels, e).nargs + ArityOf(m, f, labels, e).nreturns
      ensures expStack != [] && (IsReturn(Last(expStack)) <==> e.Return?)
      ensures Tally(|expStack| - start, valueStackDepth - depthStart, inVars' - depthStart)
           == Counted(m, f, labels, e,
             Tally(|old(expStack)| - start, old(valueStackDepth) - depthStart, inVars - depthStart), depthStart)
      ensures depthStart <= inVars' <= valueStackDepth
      ensures Stands(es, rest, start, valueStackDepth - depthStart, inVars' - depthStart, lo, bound')
      decreases e, 4
    {
      hide Results, Gives, Continues, Singles, Shape, AllWithin, Vars, Fits, Does, ArityOf, Replaced, Proper, Counted,
        Open, Stands, JustBuilt;
      var arity := ArityOf(m, f, labels, e);
      ghost var d := valueStackDepth - depthStart;
      ghost var pre, args, news := ReplaceOperands(e, depthStart, inVars, es, rest, start, lo, bound);
      ghost var v := if inVars - depthStart < d - arity.nargs then inVars - depthStart else d - arity.nargs;
      ReplacedSize(e, pre, args, news, es, rest, start, d, v, lo, bound);
      OneReturn(labels, e);
      ghost var t := Tally(|old(expStack)| - start, d, inVars - depthStart);
      CountedIs(e, t, depthStart);
      if arity.nreturns != 1 {
        OtherResults(e, pre, args, news, es, rest, start, d, v, lo, bound);
      } else {
        OneResult(e, pre, args, news, es, rest, start, d, v, lo, bound);
      }
      valueStackDepth := valueStackDepth - arity.nargs;
      inVars' := if inVars < valueStackDepth then inVars else valueStackDepth;
      unreachable := arity.unreachable;
      valueStackDepth := valueStackDepth + arity.nreturns;
      bound' := bound;
      if arity.nreturns != 1 {
        FlushAsNeeded(arity.nreturns, valueStackDepth - depthStart, inVars' - depthStart, es, rest, start, pre,
          news[0], lo, bound);
        inVars' := valueStackDepth;
        bound' := flushedVars;
      } else if e.Const? && inVars' == valueStackDepth - 1 {
        inVars' := inVars' + 1;
        bound' := flushedVars;
      }
    }

    lemma OneReturn(labels: seq<LabelInfo>, e: Expr)
      ensures e.Return? || e.LocalTee? || e.Const? || ArityOf(m, f, labels, e).unreachable
              ==> ArityOf(m, f, labels, e).nreturns == 1
    {}

    lemma CountedIs(e: Expr, t: Tally, base: int)
      ensures var a := ArityOf(m, f, labels, e);
              var items := t.items - a.nargs + if e.LocalTee? && base + t.depth == 1 then 2 else 1;
              var depth := t.depth - a.nargs + a.nreturns;
              var inVars := if t.inVars < t.depth - a.nargs then t.inVars else t.depth - a.nargs;
              Counted(m, f, labels, e, t, base)
              == if a.nreturns != 1
                 then Tally(items + (if a.nreturns > 0 then a.nreturns else if depth > inVars then 1 else 0), depth,
                   depth)
                 else Tally(items, depth, if e.Const? && inVars == depth - 1 then depth else inVars)
    {
      hide ArityOf;
    }

    lemma ReplacedSize(e: Expr, pre: seq<Node>, args: seq<Node>, news: seq<Node>, es: ExprList, rest: ExprList,
                       start: nat, depth: nat, inVars: nat, lo: nat, bound: nat)
      requires Replaced(e, pre, args, news, es, rest, start, depth, inVars, lo, bound)
      ensures |args| == ArityOf(m, f, labels, e).nargs <= depth
    {
      hide ArityOf, Shape;
    }

    /** Opening and closing a block of variables. */
    method OpenVars()
      requires IdsKnown(|blocksClosed| + 1) && OnlyDecls()
      modifies this`curBlockId, this`blockStack, this`blocksClosed
      ensures Open() && blockStack == old(blockStack) + [old(curBlockId)] && |blocksClosed| == |old(blocksClosed)| + 1
    {
      blockStack := blockStack + [curBlockId];
      curBlockId := |blocksClosed|;
      blocksClosed := blocksClosed + [false];
    }

    method CloseVars()
      requires Open() && blockStack != []
      modifies this`curBlockId, this`blockStack, this`blocksClosed
      ensures |blocksClosed| == |old(blocksClosed)| && IdsKnown(|blocksClosed|)
      ensures blockStack == old(blockStack)[..|old(blockStack)| - 1] && curBlockId == Last(old(blockStack))
    {
      blocksClosed := blocksClosed[curBlockId := true];
      curBlockId := blockStack[|blockStack| - 1];
      blockStack := blockStack[..|blockStack| - 1];
    }

    /** The instructions of a list one after the other; their items stay on the stack. */
    method ConstructItems(es: ExprList, nresults: nat) returns (ghost items: seq<Node>)
      requires FitsList(m, f, labels, 0, es, nresults) && Proper(f, labels) && Open() && valueStackDepth >= 0
      modifies this
      ensures Open() && SameContext() && expStack == old(expStack) + items
      ensures Continues(m, f, labels, es, Nil, items, nresults) && AllWithin(items, old(flushedVars), flushedVars)
      ensures Results(es, items, nresults)
      ensures |items| == CountedList(m, f, labels, es, Tally(0, 0, 0), valueStackDepth).items
      ensures items != [] ==> (IsReturn(Last(items)) <==> LastOf(es) == Some(Return))
      decreases es, 2
    {
      hide Results, Gives, Continues, Singles, Shape, AllWithin, Vars, Fits, ArityOf, Proper, Counted, Stands;
      ghost var start, lo, bound := |expStack|, flushedVars, flushedVars;
      ghost var before: Option<Expr> := None;
      var depthStart := valueStackDepth;
      var inVars := valueStackDepth;
      var unreachable := false;
      var rest := es;
      StandsAtStart(es);
      while rest.Cons?
        invariant rest == es || rest < es
        invariant Open() && labels == old(labels) && curBlockId == old(curBlockId) && blockStack == old(blockStack)
        invariant |blocksClosed| >= |old(blocksClosed)| && flushedVars >= old(flushedVars)
        invariant start <= |expStack| && expStack[..start] == old(expStack)
        invariant Stops(m, f, labels, es) <==> unreachable || Stops(m, f, labels, rest)
        invariant if rest.Cons? then LastOf(rest) == LastOf(es) else before == LastOf(es)
        invariant if before.None? then |expStack| == start
                  else expStack != [] && (IsReturn(Last(expStack)) <==> before == Some(Return))
        invariant CountedList(m, f, labels, es, Tally(0, 0, 0), depthStart)
               == CountedList(m, f, labels, rest,
                 Tally(|expStack| - start, valueStackDepth - depthStart, inVars - depthStart), depthStart)
        invariant 0 <= depthStart <= inVars <= valueStackDepth
        invariant Stands(es, rest, start, valueStackDepth - depthStart, inVars - depthStart, lo, bound)
        invariant if unreachable then FitsDead(m, f, labels, valueStackDepth - depthStart, rest)
                  else FitsList(m, f, labels, valueStackDepth - depthStart, rest, nresults)
        decreases rest
      {
        var stopped;
        inVars, stopped, bound := ConstructNext(rest.head, depthStart, inVars, es, rest.tail, start, lo, bound);
        unreachable := unreachable || stopped;
        before := Some(rest.head);
        rest := rest.tail;
      }
      items := expStack[start..];
      StandsAtEnd(es, start, valueStackDepth - depthStart, inVars - depthStart, lo, bound, nresults);
      valueStackDepth := depthStart;
    }

    lemma StandsAtStart(es: ExprList)
      ensures Stands(es, es, |expStack|, 0, 0, flushedVars, flushedVars)
    {
      ContinuesStart(m, f, labels, es);
      assert expStack[|expStack|..] == [];
      ShapeVars(m, f, labels, [], [], flushedVars, flushedVars);
    }

    lemma StandsAtEnd(es: ExprList, start: nat, depth: nat, inVars: nat, lo: nat, bound: nat, nresults: nat)
      requires Stands(es, Nil, start, depth, inVars, lo, bound) && (Stops(m, f, labels, es) || depth == nresults)
      ensures AllWithin(expStack[start..], lo, flushedVars) && Results(es, expStack[start..], nresults)
      ensures Continues(m, f, labels, es, Nil, expStack[start..], nresults)
    {
      hide Gives, Stops, Continues, Never;
      if Stops(m, f, labels, es) { ContinuesStop(m, f, labels, es, expStack[start..], depth, nresults); }
    }

    /** The items from `start` on as one node. */
    method Combine(start: nat) returns (node: Node)
      requires start <= |expStack|
      modifies this`expStack
      ensures expStack == old(expStack)[..start] + [node]
      ensures node == Statements(old(expStack)[start..]) || old(expStack)[start..] == [node]
    {
      var size := |expStack| - start;
      if size != 1 {
        var children := PopItems(size);
        expStack := expStack + [Statements(children)];
      } else {
        assert expStack[start..] == [expStack[start]];
      }
      node := expStack[|expStack| - 1];
    }

    lemma CombinedWithin(items: seq<Node>, node: Node, lo: nat, hi: nat)
      requires AllWithin(items, lo, hi) && (node == Statements(items) || items == [node])
      ensures Within(node, lo, hi)
    {
      if items == [node] { assert Within(items[0], lo, hi); }
    }

    /** Construct(const ExprList&, ...) of a nested list: several items become one. */
    method ConstructList(es: ExprList, nresults: nat) returns (ghost node: Node)
      requires FitsList(m, f, labels, 0, es, nresults) && Proper(f, labels)
      requires Open() && valueStackDepth >= 0
      modifies this
      ensures ListBuilt(es, nresults, node)
      decreases es, 3
    {
      hide Gives, Continues, Singles, Shape, FitsList, Proper, AllWithin, Within, Body;
      var start := |expStack|;
      ghost var was, F := expStack, flushedVars;
      OpenVars();
      ghost var items := ConstructItems(es, nresults);
      assert expStack[start..] == items && expStack[..start] == was;
      node := Combine(start);
      ContinuesEnd(m, f, labels, es, items, nresults, node);
      assert Within(node, F, flushedVars) by { CombinedWithin(items, node, F, flushedVars); }
      CloseVars();
    }

    // ----- function bodies -----

    lemma FunctionLabel()
      requires labels == [LabelInfo("", |f.sig.results|)]
      ensures Proper(f, labels)
    {}

    /** Without results at the end of the stack, the body does not reach its end. */
    lemma ResultsThere(items: seq<Node>)
      requires Results(f.body, items, |f.sig.results|)
      ensures items == [] ==> f.sig.results == []
      ensures |items| >= |f.sig.results| ==>
                Singles(m, f, labels, items[|items| - |f.sig.results|..]) || Never(m, f, labels, items)
    {
      hide Singles, Never;
      EmptyEnds(m, f, labels);
    }

    /** Construct(const ExprList&, ...) of a function body.  A final `return` of a void function goes;
        otherwise the results become a return statement; declarations that were lifted come first.
        It fails, on the assertion of InsertNode, if and only if the return statement wants more items
        than there are. */
    method ConstructFunction() returns (root: Option<Node>)
      requires expStack == [] && predecls == [] && valueStackDepth == 0 && blocksClosed == [] && IdsKnown(1)
      requires labels == [LabelInfo("", |f.sig.results|)] && FitsList(m, f, labels, 0, f.body, |f.sig.results|)
      modifies this
      ensures root.Some? <==> ReturnFits(m, f)
      ensures root.Some?
              ==> expStack == [root.value] && RunsAs(m, f, root.value) && Kept(Flatten(f.body), Listing(root.value))
    {
      hide Gives, Continues, Singles, FitsList, Proper, Results, ExitAlike, RunsAs, Never, AllWithin, Kept, Flatten,
        Listing,
        CountedList, LastOf;
      var nresults := |f.sig.results|;
      assert Proper(f, labels) by { FunctionLabel(); }
      OpenVars();
      ghost var items := ConstructItems(f.body, nresults);
      assert expStack == items;
      ExitSame(m, f, labels, items, nresults);
      ResultsThere(items);
      if expStack != [] {
        var fits := EndBody(items);
        if !fits { return None; }
      }
      DeclsFirst(m, f, labels, items, predecls, expStack, nresults);
      expStack := predecls + expStack;
      predecls := [];
      ghost var all := expStack;
      var node := Combine(0);
      root := Some(node);
      FunctionRuns(m, f, labels, items, all, node);
      CloseVars();
    }

    /** The return statement at the end, if there are enough items for it. */
    method EndBody(ghost items: seq<Node>) returns (fits: bool)
      requires expStack == items && items != [] && labels == [LabelInfo("", |f.sig.results|)]
      requires Continues(m, f, labels, f.body, Nil, items, |f.sig.results|) && Results(f.body, items, |f.sig.results|)
      modifies this`expStack
      ensures fits <==> f.sig.results == [] || IsReturn(Last(items)) || |f.sig.results| <= |items|
      ensures fits ==> ExitAlike(m, f, labels, items, expStack, |f.sig.results|)
    {
      hide Gives, Continues, Singles, Results, ExitAlike, Never;
      var nresults := |f.sig.results|;
      ExitSame(m, f, labels, items, nresults);
      var back := expStack[|expStack| - 1];
      if back.ExprNode? && back.e.Return? {
        if back.children == [] {
          ReturnDropped(m, f, labels, items);
          expStack := expStack[..|expStack| - 1];
        }
      } else if nresults > 0 {
        if nresults > |expStack| { return false; }
        ResultsThere(items);
        EndReturnAdded(m, f, labels, items, nresults);
        var children := PopItems(nresults);
        expStack := expStack + [EndReturn(children)];
      }
      fits := true;
    }
  }
}

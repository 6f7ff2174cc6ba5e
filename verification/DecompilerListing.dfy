/** Which instructions a tree holds, and in which order: nothing is lost, added or reordered, except
    that constants may move. */
module DecompilerListing {
  import opened Util
  import opened Wasm
  import opened DecompilerTree

  /** An instruction without its nested lists.  A `local.tee` counts as its assignment. */
  function Shell(e: Expr): Expr {
    match e
    case Block(name, results, _) => Block(name, results, Nil)
    case Loop(name, results, _) => Loop(name, results, Nil)
    case If(name, results, _, _) => If(name, results, Nil, Nil)
    case LocalTee(x) => LocalSet(x)
    case _ => e
  }

  /** The instructions of a tree, children first.  Temporaries, statement lists, declarations and the
      return statement at the end are not instructions; neither is reading back the local that a
      `local.tee` of its own has just set. */
  function Listing(n: Node): seq<Expr>
    decreases n, 1
  {
    match n
    case FlushedVar(_) => []
    case Decl(_) => []
    case DeclInit(x, cs) => Listings(cs) + [LocalSet(x)]
    case ExprNode(e, cs) => if e.LocalTee? && cs == [] then [] else Listings(cs) + [Shell(e)]
    case _ => Listings(n.children)
  }

  function Listings(items: seq<Node>): seq<Expr>
    decreases items, 0
  {
    if items == [] then [] else Listing(items[0]) + Listings(items[1..])
  }

  /** The instructions of stack code, nested lists first. */
  function FlattenOne(e: Expr): seq<Expr>
    decreases e
  {
    match e
    case Block(_, _, body) => Flatten(body) + [Shell(e)]
    case Loop(_, _, body) => Flatten(body) + [Shell(e)]
    case If(_, _, then_, else_) => Flatten(then_) + Flatten(else_) + [Shell(e)]
    case _ => [Shell(e)]
  }

  function Flatten(es: ExprList): seq<Expr>
    decreases es
  {
    match es case Nil => [] case Cons(e, rest) => FlattenOne(e) + Flatten(rest)
  }

  function NonConst(s: seq<Expr>): seq<Expr> {
    if s == [] then [] else (if s[0].Const? then [] else [s[0]]) + NonConst(s[1..])
  }

  /** The same instructions, in the same order apart from the constants. */
  predicate ConstMoved(a: seq<Expr>, b: seq<Expr>) {
    NonConst(a) == NonConst(b) && multiset(a) == multiset(b)
  }

  /** The same, or a final `return` is missing. */
  predicate Kept(a: seq<Expr>, b: seq<Expr>) { ConstMoved(a, b) || ConstMoved(a, b + [Return]) }

  lemma {:induction false} NonConstJoin(a: seq<Expr>, b: seq<Expr>)
    ensures NonConst(a + b) == NonConst(a) + NonConst(b)
    decreases |a|
  {
    hide NonConst;
    if a == [] {
      assert a + b == b;
      NonConstNone();
      assert [] + NonConst(b) == NonConst(b);
    } else {
      NonConstJoin(a[1..], b);
      assert a + b == [a[0]] + (a[1..] + b) && a == [a[0]] + a[1..];
      NonConstFront(a[0], a[1..] + b);
      NonConstFront(a[0], a[1..]);
      var front := if a[0].Const? then [] else [a[0]];
      assert front + (NonConst(a[1..]) + NonConst(b)) == (front + NonConst(a[1..])) + NonConst(b);
    }
  }

  lemma NonConstNone()
    ensures NonConst([]) == []
  {}

  lemma NonConstFront(e: Expr, s: seq<Expr>)
    ensures NonConst([e] + s) == (if e.Const? then [] else [e]) + NonConst(s)
  {
    assert ([e] + s)[1..] == s;
  }

  lemma MovedJoin(a: seq<Expr>, a': seq<Expr>, b: seq<Expr>, b': seq<Expr>)
    requires ConstMoved(a, a') && ConstMoved(b, b')
    ensures ConstMoved(a + b, a' + b')
  {
    NonConstJoin(a, b);
    NonConstJoin(a', b');
  }

  lemma MovedTwice(a: seq<Expr>, b: seq<Expr>, c: seq<Expr>)
    requires ConstMoved(a, b) && ConstMoved(b, c)
    ensures ConstMoved(a, c)
  {}

  lemma MovedSame(a: seq<Expr>)
    ensures ConstMoved(a, a)
  {}

  /** Constants change places with anything. */
  lemma MovedSwap(a: seq<Expr>, b: seq<Expr>)
    requires NonConst(a) == []
    ensures ConstMoved(a + b, b + a)
  {
    NonConstJoin(a, b);
    NonConstJoin(b, a);
    assert [] + NonConst(b) == NonConst(b) + [];
  }

  lemma {:induction false} ListingsJoin(a: seq<Node>, b: seq<Node>)
    ensures Listings(a + b) == Listings(a) + Listings(b)
    decreases |a|
  {
    hide Listing;
    if a == [] {
      assert a + b == b;
    } else {
      ListingsJoin(a[1..], b);
      assert (a + b)[1..] == a[1..] + b;
    }
  }

  lemma ListingsOne(n: Node)
    ensures Listings([n]) == Listing(n)
  {
    hide Listing;
    assert [n][1..] == [];
  }

  lemma {:induction false} VarsAreConst(vars: seq<Node>)
    requires forall i | 0 <= i < |vars| :: IsVar(vars[i])
    ensures NonConst(Listings(vars)) == []
    decreases |vars|
  {
    if vars != [] {
      VarsAreConst(vars[1..]);
      NonConstJoin(Listing(vars[0]), Listings(vars[1..]));
      VarIsConst(vars[0]);
    }
  }

  lemma VarIsConst(n: Node)
    requires IsVar(n)
    ensures NonConst(Listing(n)) == []
  {
    if n.ExprNode? {
      assert Listings([]) + [Shell(n.e)] == [n.e];
      assert [n.e][1..] == [];
    }
  }

  lemma {:induction false} DeclsListNothing(decls: seq<Node>)
    requires forall d | d in decls :: d.Decl?
    ensures Listings(decls) == []
    decreases |decls|
  {
    if decls != [] {
      DeclsListNothing(decls[1..]);
      assert decls[0] in decls;
    }
  }

  // ----- what the construction does to the listing -----

  lemma FlattenCons(e: Expr, rest: ExprList)
    ensures Flatten(Cons(e, rest)) == FlattenOne(e) + Flatten(rest)
  {}

  /** An instruction takes the place of its operands. */
  lemma {:induction false} StepMoved(
    es: ExprList, e: Expr, rest: ExprList, pre: seq<Node>, args: seq<Node>, news: seq<Node>)
    requires ConstMoved(Flatten(es), Listings(pre + args) + Flatten(Cons(e, rest)))
    requires ConstMoved(Listings(args) + FlattenOne(e), Listings(news))
    ensures ConstMoved(Flatten(es), Listings(pre + news) + Flatten(rest))
  {
    hide *;
    FlattenCons(e, rest);
    ListingsJoin(pre, args);
    ListingsJoin(pre, news);
    var p, a, o, n, r := Listings(pre), Listings(args), FlattenOne(e), Listings(news), Flatten(rest);
    StepIn(p, a, o, n, r);
    MovedTwice(Flatten(es), (p + a) + (o + r), (p + n) + r);
  }

  lemma StepIn(p: seq<Expr>, a: seq<Expr>, o: seq<Expr>, n: seq<Expr>, r: seq<Expr>)
    requires ConstMoved(a + o, n)
    ensures ConstMoved((p + a) + (o + r), (p + n) + r)
  {
    hide ConstMoved;
    MovedSame(p);
    MovedSame(r);
    MovedJoin(p, p, a + o, n);
    MovedJoin(p + (a + o), p + n, r, r);
    assert (p + a) + (o + r) == p + (a + o) + r;
  }

  lemma {:induction false} AlikeMoved(es: ExprList, rest: ExprList, a: seq<Node>, b: seq<Node>)
    requires ConstMoved(Flatten(es), Listings(a) + Flatten(rest)) && ConstMoved(Listings(a), Listings(b))
    ensures ConstMoved(Flatten(es), Listings(b) + Flatten(rest))
  {
    hide Listings, ConstMoved, Flatten;
    MovedSame(Flatten(rest));
    MovedJoin(Listings(a), Listings(b), Flatten(rest), Flatten(rest));
    MovedTwice(Flatten(es), Listings(a) + Flatten(rest), Listings(b) + Flatten(rest));
  }

  lemma {:induction false} EndMoved(es: ExprList, items: seq<Node>, node: Node)
    requires ConstMoved(Flatten(es), Listings(items) + Flatten(Nil)) && (node == Statements(items) || items == [node])
    ensures ConstMoved(Flatten(es), Listing(node))
  {
    hide Listings, ConstMoved;
    assert Listings(items) + [] == Listings(items);
    if items == [node] { ListingsOne(node); }
  }

  lemma LiftMoved(pre: seq<Node>, vars: seq<Node>, tail: seq<Node>)
    requires forall i | 0 <= i < |vars| :: IsVar(vars[i])
    ensures ConstMoved(Listings(pre + vars + tail), Listings(pre + tail + vars))
  {
    hide Listings, ConstMoved, NonConst;
    var p, v, t := Listings(pre), Listings(vars), Listings(tail);
    VarsAreConst(vars);
    MovedSwap(v, t);
    MovedSame(p);
    MovedJoin(p, p, v + t, t + v);
    ListingsJoin(pre + vars, tail);
    ListingsJoin(pre, vars);
    ListingsJoin(pre + tail, vars);
    ListingsJoin(pre, tail);
    assert (p + v) + t == p + (v + t) && (p + t) + v == p + (t + v);
  }

  lemma {:induction false} FlushMoved(
    pre: seq<Node>, vars: seq<Node>, group: seq<Node>, tail: seq<Node>, F: nat, count: nat, fvs: seq<Node>)
    requires forall i | 0 <= i < |vars| :: IsVar(vars[i])
    requires forall i | 0 <= i < |fvs| :: fvs[i].FlushedVar?
    ensures ConstMoved(Listings(pre + vars + group + tail),
            Listings(pre + [FlushToVars(F, count, group)] + tail + vars + fvs))
  {
    hide Listings, ConstMoved, NonConst;
    var flush := FlushToVars(F, count, group);
    LiftMoved(pre, vars, group + tail);
    assert pre + vars + (group + tail) == pre + vars + group + tail
      && pre + (group + tail) + vars == pre + group + tail + vars;
    FlushedListNothing(fvs);
    ListingsJoin(pre + [flush] + tail + vars, fvs);
    ListingsJoin(pre + [flush] + tail, vars);
    ListingsJoin(pre + [flush], tail);
    ListingsJoin(pre, [flush]);
    ListingsOne(flush);
    assert Listing(flush) == Listings(group);
    ListingsJoin(pre + group + tail, vars);
    ListingsJoin(pre + group, tail);
    ListingsJoin(pre, group);
    var l := Listings(pre + [flush] + tail + vars);
    assert l + [] == l;
  }

  lemma {:induction false} FlushedListNothing(fvs: seq<Node>)
    requires forall i | 0 <= i < |fvs| :: fvs[i].FlushedVar?
    ensures Listings(fvs) == []
    decreases |fvs|
  {
    if fvs != [] { FlushedListNothing(fvs[1..]); }
  }

  /** The nodes an instruction becomes. */
  lemma {:induction false} NodeMoved(e: Expr, args: seq<Node>, news: seq<Node>)
    requires !e.Block? && !e.Loop? && !e.If?
    requires (news == [ExprNode(e, args)] && !(e.LocalTee? && args == []))
          || (e.LocalSet? && news == [DeclInit(e.x, args)])
          || (e.LocalTee? && args != [] && news == [ExprNode(e, args), ExprNode(e, [])])
          || (e.LocalTee? && news == [DeclInit(e.x, args), ExprNode(e, [])])
    ensures ConstMoved(Listings(args) + FlattenOne(e), Listings(news))
  {
    hide Listings, ConstMoved;
    MovedSame(Listings(args) + FlattenOne(e));
    ListingsOne(news[0]);
    if |news| == 2 {
      assert news == [news[0]] + [news[1]];
      ListingsJoin([news[0]], [news[1]]);
      ListingsOne(news[1]);
      assert Listing(news[0]) + [] == Listing(news[0]);
    }
  }

  lemma {:induction false} BlockMoved(e: Expr, b: Node)
    requires (e.Block? || e.Loop?) && ConstMoved(Flatten(e.body), Listing(b))
    ensures ConstMoved(Listings([]) + FlattenOne(e), Listings([ExprNode(e, [b])]))
  {
    hide ConstMoved;
    ListingsOne(b);
    ListingsOne(ExprNode(e, [b]));
    MovedSame([Shell(e)]);
    MovedJoin(Flatten(e.body), Listing(b), [Shell(e)], [Shell(e)]);
    assert [] + FlattenOne(e) == FlattenOne(e);
  }

  lemma BodiesMoved(e: Expr, bodies: seq<Node>)
    requires e.If? && |bodies| == (if e.else_.Nil? then 1 else 2)
    requires ConstMoved(Flatten(e.then_), Listing(bodies[0]))
    requires e.else_.Cons? ==> ConstMoved(Flatten(e.else_), Listing(bodies[1]))
    ensures ConstMoved(Flatten(e.then_) + Flatten(e.else_), Listings(bodies))
  {
    hide ConstMoved, Listings, Listing;
    ListingsOne(bodies[0]);
    if e.else_.Cons? {
      assert bodies == [bodies[0]] + [bodies[1]];
      ListingsJoin([bodies[0]], [bodies[1]]);
      ListingsOne(bodies[1]);
      MovedJoin(Flatten(e.then_), Listing(bodies[0]), Flatten(e.else_), Listing(bodies[1]));
    } else {
      assert bodies == [bodies[0]] && Flatten(e.then_) + [] == Flatten(e.then_);
    }
  }

  lemma IfListing(e: Expr, c: Node, bodies: seq<Node>)
    requires e.If?
    ensures Listings([ExprNode(e, [c] + bodies)]) == Listings([c]) + (Listings(bodies) + [Shell(e)])
    ensures FlattenOne(e) == Flatten(e.then_) + Flatten(e.else_) + [Shell(e)]
  {
    hide Listings;
    ListingsOne(ExprNode(e, [c] + bodies));
    ListingsJoin([c], bodies);
    assert Listings([c]) + Listings(bodies) + [Shell(e)] == Listings([c]) + (Listings(bodies) + [Shell(e)]);
  }

  lemma {:induction false} IfMoved(e: Expr, c: Node, bodies: seq<Node>)
    requires e.If? && |bodies| == (if e.else_.Nil? then 1 else 2)
    requires ConstMoved(Flatten(e.then_), Listing(bodies[0]))
    requires e.else_.Cons? ==> ConstMoved(Flatten(e.else_), Listing(bodies[1]))
    ensures ConstMoved(Listings([c]) + FlattenOne(e), Listings([ExprNode(e, [c] + bodies)]))
  {
    hide ConstMoved, Listings, Listing, Flatten, FlattenOne;
    BodiesMoved(e, bodies);
    IfListing(e, c, bodies);
    MovedSame([Shell(e)]);
    MovedJoin(Flatten(e.then_) + Flatten(e.else_), Listings(bodies), [Shell(e)], [Shell(e)]);
    MovedSame(Listings([c]));
    MovedJoin(Listings([c]), Listings([c]), FlattenOne(e), Listings(bodies) + [Shell(e)]);
  }

  // ----- the end of a function -----

  lemma DropKept(items: seq<Node>)
    requires items != [] && Last(items) == ExprNode(Return, [])
    ensures Kept(Listings(items), Listings(items[..|items| - 1]))
  {
    hide Listings, Listing, ConstMoved;
    var pre := items[..|items| - 1];
    assert items == pre + [Last(items)];
    ListingsJoin(pre, [Last(items)]);
    ListingsOne(Last(items));
    ReturnListing();
    MovedSame(Listings(items));
  }

  lemma ReturnListing()
    ensures Listing(ExprNode(Return, [])) == [Return]
  {
    NoChildren();
  }

  lemma NoChildren()
    ensures Listings([]) == [] && [] + [Shell(Return)] == [Return]
  {}

  lemma ReturnKept(pre: seq<Node>, cs: seq<Node>)
    ensures Kept(Listings(pre + cs), Listings(pre + [EndReturn(cs)]))
  {
    hide Listings, ConstMoved;
    ListingsJoin(pre, cs);
    ListingsJoin(pre, [EndReturn(cs)]);
    ListingsOne(EndReturn(cs));
    MovedSame(Listings(pre + cs));
  }

  lemma DeclsKept(a: seq<Expr>, decls: seq<Node>, ended: seq<Node>)
    requires Kept(a, Listings(ended)) && forall d | d in decls :: d.Decl?
    ensures Kept(a, Listings(decls + ended))
  {
    hide Listings, ConstMoved;
    ListingsJoin(decls, ended);
    DeclsListNothing(decls);
    assert [] + Listings(ended) == Listings(ended);
  }

  /** All of a function's instructions are in its tree. */
  lemma {:induction false} FunctionKept(es: ExprList, items: seq<Node>, all: seq<Node>, root: Node)
    requires ConstMoved(Flatten(es), Listings(items) + Flatten(Nil)) && Kept(Listings(items), Listings(all))
    requires root == Statements(all) || all == [root]
    ensures Kept(Flatten(es), Listing(root))
  {
    hide Listings, ConstMoved;
    assert Listings(items) + [] == Listings(items);
    if all == [root] { ListingsOne(root); }
    if ConstMoved(Listings(items), Listings(all)) {
      MovedTwice(Flatten(es), Listings(items), Listings(all));
    } else {
      MovedTwice(Flatten(es), Listings(items), Listings(all) + [Return]);
    }
  }
}

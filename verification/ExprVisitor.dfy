/** The traversal of an expression tree with explicit stacks (src/expr-visitor.cc): it makes the
    callbacks of the recursive traversal, in that order, and stops at the first error. */
module ExprVisitor {
  import opened Util
  import opened BinaryCodec
  import opened BinaryFormat

  /** A callback with the expression it is about. */
  datatype Event = On(e: Expr) | Begin(e: Expr) | AfterIfTrue(e: Expr) | OnCatch(e: Expr) | End(e: Expr)

  /** The recursive traversal. */
  function Events(e: Expr): (r: seq<Event>)
    ensures r != []
    decreases e
  {
    match e
    case Block(_, body) => [Begin(e)] + EventsList(body) + [End(e)]
    case Loop(_, body) => [Begin(e)] + EventsList(body) + [End(e)]
    case If(_, then_, else_) => [Begin(e)] + EventsList(then_) + [AfterIfTrue(e)] + EventsList(else_) + [End(e)]
    case Try(_, body, catch_) => [Begin(e)] + EventsList(body) + [OnCatch(e)] + EventsList(catch_) + [End(e)]
    case _ => [On(e)]
  }

  function EventsList(es: seq<Expr>): seq<Event>
    decreases es
  {
    if es == [] then [] else Events(es[0]) + EventsList(es[1..])
  }

  /** What a delegate makes of a callback: its new state and whether to go on. */
  type Delegate<!D> = (D, Event) -> (D, bool)

  /** The callbacks one after the other, up to the first error. */
  function Feed<D>(on: Delegate<D>, d: D, events: seq<Event>): (D, bool) {
    if events == [] then (d, true)
    else
      var (d', ok) := on(d, events[0]);
      if ok then Feed(on, d', events[1..]) else (d', false)
  }

  lemma {:induction false} FeedSplit<D>(on: Delegate<D>, d: D, a: seq<Event>, b: seq<Event>)
    ensures var (d', ok) := Feed(on, d, a); Feed(on, d, a + b) == if ok then Feed(on, d', b) else (d', false)
    decreases |a|
  {
    if a == [] {
      assert a + b == b;
    } else {
      assert (a + b)[1..] == a[1..] + b;
      FeedSplit(on, on(d, a[0]).0, a[1..], b);
    }
  }

  // ----- the stacks -----

  datatype State = Default | BlockState | IfTrue | IfFalse | LoopState | TryState | Catch

  /** The list a state goes through. */
  function ListOf(s: State, e: Expr): seq<Expr>
    requires Matches(s, e)
  {
    match s
    case Default => []
    case BlockState => e.body
    case LoopState => e.body
    case TryState => e.body
    case IfTrue => e.then_
    case IfFalse => e.else_
    case Catch => e.catch_
  }

  predicate Matches(s: State, e: Expr) {
    match s
    case Default => true
    case BlockState => e.Block?
    case LoopState => e.Loop?
    case TryState => e.Try?
    case Catch => e.Try?
    case IfTrue => e.If?
    case IfFalse => e.If?
  }

  /** What follows the list of a state. */
  function After(s: State, e: Expr): seq<Event>
    requires Matches(s, e)
  {
    match s
    case IfTrue => [AfterIfTrue(e)] + EventsList(e.else_) + [End(e)]
    case TryState => [OnCatch(e)] + EventsList(e.catch_) + [End(e)]
    case _ => [End(e)]
  }

  function NonDefault(states: seq<State>): nat {
    if states == [] then 0 else NonDefault(states[..|states| - 1]) + if Last(states) == Default then 0 else 1
  }

  /** The three stacks fit together: an iterator for every state but `Default`, within its list. */
  predicate Aligned(states: seq<State>, exprs: seq<Expr>, iters: seq<nat>)
    ensures Aligned(states, exprs, iters) ==> |states| == |exprs| && |iters| == NonDefault(states)
    decreases |states|
  {
    if states == [] || exprs == [] then states == [] && exprs == [] && iters == []
    else
      var s, e, states', exprs' := Last(states), Last(exprs), states[..|states| - 1], exprs[..|exprs| - 1];
      if s == Default then Aligned(states', exprs', iters)
      else Matches(s, e) && iters != [] && Last(iters) <= |ListOf(s, e)|
           && Aligned(states', exprs', iters[..|iters| - 1])
  }

  /** The callbacks still to be made. */
  function Pending(states: seq<State>, exprs: seq<Expr>, iters: seq<nat>): seq<Event>
    requires Aligned(states, exprs, iters)
    decreases |states|
  {
    if states == [] then []
    else
      var s, e, states', exprs' := Last(states), Last(exprs), states[..|states| - 1], exprs[..|exprs| - 1];
      if s == Default then Events(e) + Pending(states', exprs', iters)
      else EventsList(ListOf(s, e)[Last(iters)..]) + After(s, e) + Pending(states', exprs', iters[..|iters| - 1])
  }

  lemma NothingPending()
    ensures Pending([], [], []) == []
  {}

  lemma PushedDefault(states: seq<State>, exprs: seq<Expr>, iters: seq<nat>, e: Expr)
    requires Aligned(states, exprs, iters)
    ensures Aligned(states + [Default], exprs + [e], iters)
    ensures Pending(states + [Default], exprs + [e], iters) == Events(e) + Pending(states, exprs, iters)
  {
    assert (states + [Default])[..|states|] == states && (exprs + [e])[..|exprs|] == exprs;
  }

  lemma PushedList(states: seq<State>, exprs: seq<Expr>, iters: seq<nat>, s: State, e: Expr, i: nat)
    requires Aligned(states, exprs, iters) && s != Default && Matches(s, e) && i <= |ListOf(s, e)|
    ensures Aligned(states + [s], exprs + [e], iters + [i])
    ensures Pending(states + [s], exprs + [e], iters + [i])
         == EventsList(ListOf(s, e)[i..]) + After(s, e) + Pending(states, exprs, iters)
  {
    assert (states + [s])[..|states|] == states && (exprs + [e])[..|exprs|] == exprs
      && (iters + [i])[..|iters|] == iters;
  }

  /** What begins an expression with a list: its first callback, its list and what follows. */
  lemma {:induction false} Opened(e: Expr, s: State)
    requires (e.Block? && s == BlockState) || (e.Loop? && s == LoopState) || (e.If? && s == IfTrue)
             || (e.Try? && s == TryState)
    ensures Events(e) == [Begin(e)] + (EventsList(ListOf(s, e)[0..]) + After(s, e))
  {
    hide EventsList;
    assert ListOf(s, e)[0..] == ListOf(s, e);
  }

  lemma NextOf(es: seq<Expr>, i: nat)
    requires i < |es|
    ensures EventsList(es[i..]) == Events(es[i]) + EventsList(es[i + 1..])
  {
    hide Events;
    assert es[i..][1..] == es[i + 1..];
  }

  lemma RegroupEvents(a: seq<Event>, b: seq<Event>, c: seq<Event>, d: seq<Event>)
    ensures (a + b) + c + d == a + (b + c + d)
  {}

  lemma NoneLeft(es: seq<Expr>)
    ensures EventsList(es[|es|..]) == []
  {}

  // ----- the visitor -----

  class ExprVisitor<!D> {
    const on: Delegate<D>
    var delegate_: D
    var stateStack: seq<State>
    var exprStack: seq<Expr>
    var exprIterStack: seq<nat>

    constructor (on: Delegate<D>, d: D)
      ensures this.on == on && delegate_ == d
    {
      this.on, delegate_, stateStack, exprStack, exprIterStack := on, d, [], [], [];
    }

    ghost predicate Valid()
      reads this`stateStack, this`exprStack, this`exprIterStack
    {
      Aligned(stateStack, exprStack, exprIterStack)
    }

    /** What the delegate will have become, and the result, when all is done. */
    ghost function Outcome(): (D, bool)
      requires Valid()
      reads this
    {
      Feed(on, delegate_, Pending(stateStack, exprStack, exprIterStack))
    }

    ghost function Rest(): seq<Event>
      requires Valid()
      reads this`stateStack, this`exprStack, this`exprIterStack
    {
      Pending(stateStack, exprStack, exprIterStack)
    }

    method Callback(ev: Event) returns (ok: bool)
      modifies this`delegate_
      ensures (delegate_, ok) == on(old(delegate_), ev)
    {
      var r := on(delegate_, ev);
      delegate_ := r.0;
      ok := r.1;
    }

    method PushDefault(e: Expr)
      requires Valid()
      modifies this`stateStack, this`exprStack
      ensures Valid() && Rest() == Events(e) + old(Rest())
      ensures stateStack == old(stateStack) + [Default]
    {
      hide Aligned, Pending;
      PushedDefault(stateStack, exprStack, exprIterStack, e);
      stateStack := stateStack + [Default];
      exprStack := exprStack + [e];
    }

    method PopDefault()
      requires Valid() && stateStack != [] && Last(stateStack) == Default
      modifies this`stateStack, this`exprStack
      ensures Valid() && old(Rest()) == Events(old(Last(exprStack))) + Rest()
    {
      stateStack := stateStack[..|stateStack| - 1];
      exprStack := exprStack[..|exprStack| - 1];
    }

    method PushExprlist(s: State, e: Expr)
      requires Valid() && s != Default && Matches(s, e)
      modifies this`stateStack, this`exprStack, this`exprIterStack
      ensures Valid() && Rest() == EventsList(ListOf(s, e)[0..]) + After(s, e) + old(Rest())
    {
      hide Aligned, Pending;
      PushedList(stateStack, exprStack, exprIterStack, s, e, 0);
      stateStack := stateStack + [s];
      exprStack := exprStack + [e];
      exprIterStack := exprIterStack + [0];
    }

    method PopExprlist()
      requires Valid() && stateStack != [] && Last(stateStack) != Default
      modifies this`stateStack, this`exprStack, this`exprIterStack
      ensures Valid()
      ensures old(Rest())
           == EventsList(old(ListOf(Last(stateStack), Last(exprStack))[Last(exprIterStack)..]))
              + After(old(Last(stateStack)), old(Last(exprStack))) + Rest()
    {
      hide EventsList, After, Matches, ListOf;
      stateStack := stateStack[..|stateStack| - 1];
      exprStack := exprStack[..|exprStack| - 1];
      exprIterStack := exprIterStack[..|exprIterStack| - 1];
    }

    /** The next expression of the list on top of the stack. */
    method Advance(s: State, e: Expr, i: nat)
      requires Valid() && stateStack != [] && s == Last(stateStack) != Default && e == Last(exprStack)
               && i == Last(exprIterStack)
      requires i < |ListOf(s, e)|
      modifies this`stateStack, this`exprStack, this`exprIterStack
      ensures Valid() && Rest() == old(Rest()) && stateStack == old(stateStack) + [Default]
    {
      hide EventsList, Events, After, Matches, ListOf;
      ghost var states, exprs, iters := stateStack[..|stateStack| - 1], exprStack[..|exprStack| - 1],
        exprIterStack[..|exprIterStack| - 1];
      NextOf(ListOf(s, e), i);
      PushedList(states, exprs, iters, s, e, i + 1);
      assert stateStack == states + [s] && exprStack == exprs + [e];
      ghost var was := Rest();
      exprIterStack := exprIterStack[..|exprIterStack| - 1] + [i + 1];
      assert exprIterStack == iters + [i + 1];
      PushDefault(ListOf(s, e)[i]);
      RegroupEvents(Events(ListOf(s, e)[i]), EventsList(ListOf(s, e)[i + 1..]), After(s, e),
        Pending(states, exprs, iters));
      assert Rest()
        == Events(ListOf(s, e)[i]) + (EventsList(ListOf(s, e)[i + 1..]) + After(s, e) + Pending(states, exprs, iters));
      assert was == EventsList(ListOf(s, e)[i..]) + After(s, e) + Pending(states, exprs, iters);
    }

    method HandleDefaultState(e: Expr) returns (ok: bool)
      requires Valid()
      modifies this
      ensures Valid()
      ensures Feed(on, old(delegate_), Events(e) + old(Rest())) == if ok then Outcome() else (delegate_, false)
      ensures ok ==> |Rest()| + 1 == |Events(e)| + |old(Rest())|
    {
      hide Aligned, Pending, EventsList, After, Matches, ListOf, Events;
      ghost var rest, d := Rest(), delegate_;
      if e.Block? || e.Loop? || e.If? || e.Try? {
        ok := Callback(Begin(e));
        var s := if e.Block? then BlockState else if e.Loop? then LoopState else if e.If? then IfTrue else TryState;
        Opened(e, s);
        Fits(s, e);
        if ok {
          PushExprlist(s, e);
          assert Events(e) + rest == [Begin(e)] + Rest();
        }
        OneEvent(on, d, Begin(e), EventsList(ListOf(s, e)[0..]) + After(s, e) + rest);
        assert Events(e) + rest == [Begin(e)] + (EventsList(ListOf(s, e)[0..]) + After(s, e) + rest);
      } else {
        ok := Callback(On(e));
        Plain(e);
        OneEvent(on, d, On(e), rest);
      }
    }

    lemma Fits(s: State, e: Expr)
      requires s == if e.Block? then BlockState else if e.Loop? then LoopState else if e.If? then IfTrue else TryState
      requires e.Block? || e.Loop? || e.If? || e.Try?
      ensures Matches(s, e)
    {}

    lemma Plain(e: Expr)
      requires !(e.Block? || e.Loop? || e.If? || e.Try?)
      ensures Events(e) == [On(e)]
    {}

    /** The end of the first list of an `if`. */
    method FinishTrue(e: Expr) returns (ok: bool)
      requires AtEnd(IfTrue, e)
      modifies this
      ensures Valid() && old(Outcome()) == if ok then Outcome() else (delegate_, false)
      ensures ok ==> |Rest()| < |old(Rest())|
    {
      hide Aligned, Pending, EventsList, Events, Feed;
      ghost var d, all := delegate_, Rest();
      NoneLeft(e.then_);
      ok := Callback(AfterIfTrue(e));
      PopExprlist();
      ghost var rest := EventsList(e.else_) + [End(e)] + Rest();
      assert all == [AfterIfTrue(e)] + rest;
      OneEvent(on, d, AfterIfTrue(e), rest);
      if ok {
        PushExprlist(IfFalse, e);
        assert e.else_[0..] == e.else_;
      }
    }

    /** The end of the first list of a `try`; an empty second list gets no state of its own. */
    method FinishTry(e: Expr) returns (ok: bool)
      requires AtEnd(TryState, e)
      modifies this
      ensures Valid() && old(Outcome()) == if ok then Outcome() else (delegate_, false)
      ensures ok ==> |Rest()| < |old(Rest())|
    {
      hide Aligned, Pending, EventsList, Events, Feed;
      ghost var d, all := delegate_, Rest();
      NoneLeft(e.body);
      ok := Callback(OnCatch(e));
      PopExprlist();
      ghost var rest := EventsList(e.catch_) + [End(e)] + Rest();
      assert all == [OnCatch(e)] + rest;
      OneEvent(on, d, OnCatch(e), rest);
      if ok {
        if e.catch_ == [] {
          ghost var d' := delegate_;
          EmptyList();
          assert rest == [End(e)] + Rest();
          ok := Callback(End(e));
          OneEvent(on, d', End(e), Rest());
        } else {
          PushExprlist(Catch, e);
          assert e.catch_[0..] == e.catch_;
        }
      }
    }

    /** The end of the last list of an expression. */
    method FinishLast(s: State, e: Expr) returns (ok: bool)
      requires AtEnd(s, e) && s != IfTrue && s != TryState
      modifies this
      ensures Valid() && old(Outcome()) == if ok then Outcome() else (delegate_, false)
      ensures ok ==> |Rest()| < |old(Rest())|
    {
      hide Aligned, Pending, EventsList, Events, Feed;
      ghost var d, all := delegate_, Rest();
      NoneLeft(ListOf(s, e));
      ok := Callback(End(e));
      PopExprlist();
      assert all == [End(e)] + Rest();
      OneEvent(on, d, End(e), Rest());
    }

    /** The list on top of the stack has been gone through. */
    ghost predicate AtEnd(s: State, e: Expr)
      reads this`stateStack, this`exprStack, this`exprIterStack
    {
      && Aligned(stateStack, exprStack, exprIterStack) && stateStack != [] && s == Last(stateStack) != Default
      && e == Last(exprStack) && exprIterStack != [] && Matches(s, e) && Last(exprIterStack) == |ListOf(s, e)|
    }

    method FinishList(s: State, e: Expr) returns (ok: bool)
      requires AtEnd(s, e)
      modifies this
      ensures Valid() && old(Outcome()) == if ok then Outcome() else (delegate_, false)
      ensures ok ==> |Rest()| < |old(Rest())|
    {
      hide AtEnd, Aligned, Pending, Feed;
      Kind(s, e);
      match s
      case IfTrue => ok := FinishTrue(e);
      case TryState => ok := FinishTry(e);
      case _ => ok := FinishLast(s, e);
    }

    lemma Kind(s: State, e: Expr)
      requires AtEnd(s, e)
      ensures Valid()
    {}

    lemma EmptyList()
      ensures EventsList([]) == []
    {}

    lemma OneEvent(on: Delegate<D>, d: D, ev: Event, rest: seq<Event>)
      ensures Feed(on, d, [ev] + rest) == if on(d, ev).1 then Feed(on, on(d, ev).0, rest) else (on(d, ev).0, false)
    {
      assert ([ev] + rest)[1..] == rest;
    }

    /** The loop: every callback of the recursive traversal, and nothing after the first error. */
    method VisitExpr(root: Expr) returns (ok: bool)
      modifies this
      ensures (delegate_, ok) == Feed(on, old(delegate_), Events(root))
      ensures ok ==> stateStack == [] && exprStack == [] && exprIterStack == []
    {
      hide Pending, Events, EventsList, After, Matches, ListOf, Feed;
      stateStack, exprStack, exprIterStack := [], [], [];
      PushDefault(root);
      assert Events(root) + Pending([], [], []) == Events(root) by { NothingPending(); }
      while stateStack != []
        invariant Valid() && Outcome() == Feed(on, old(delegate_), Events(root))
        decreases |Rest()|, if stateStack != [] && Last(stateStack) == Default then 0 else 1
      {
        var s := Last(stateStack);
        var e := Last(exprStack);
        if s == Default {
          PopDefault();
          ok := HandleDefaultState(e);
          if !ok { return; }
        } else {
          var i := Last(exprIterStack);
          if i < |ListOf(s, e)| {
            Advance(s, e, i);
          } else {
            ok := FinishList(s, e);
            if !ok { return; }
          }
        }
      }
      ok := true;
      AllDone();
    }

    lemma AllDone()
      requires Valid() && stateStack == []
      ensures Outcome() == (delegate_, true) && exprStack == [] && exprIterStack == []
    {}

    method VisitExprList(exprs: seq<Expr>) returns (ok: bool)
      modifies this
      ensures (delegate_, ok) == Feed(on, old(delegate_), EventsList(exprs))
    {
      hide Events, Feed;
      assert exprs[0..] == exprs;
      for i := 0 to |exprs|
        invariant Feed(on, delegate_, EventsList(exprs[i..])) == Feed(on, old(delegate_), EventsList(exprs))
      {
        NextOf(exprs, i);
        FeedSplit(on, delegate_, Events(exprs[i]), EventsList(exprs[i + 1..]));
        ok := VisitExpr(exprs[i]);
        if !ok { return; }
      }
      ok := true;
      NoneLeft(exprs);
      FeedNothing(on, delegate_);
    }
  }

  lemma FeedNothing<D>(on: Delegate<D>, d: D)
    ensures Feed(on, d, []) == (d, true)
  {}

  /** A delegate that keeps a log of its callbacks and fails at one of them. */
  function Logging(limit: nat): Delegate<seq<Event>> {
    (log: seq<Event>, ev: Event) => (log + [ev], |log| + 1 < limit)
  }

  /** The log of a traversal is the beginning of the callbacks of the recursive one: all of them, or
      up to the one that failed. */
  lemma {:induction false} LogIsPrefix(limit: nat, log: seq<Event>, events: seq<Event>)
    requires |log| < limit
    ensures var n := if |log| + |events| < limit then |events| else limit - |log|;
            Feed(Logging(limit), log, events) == (log + events[..n], |log| + |events| < limit)
    decreases |events|
  {
    if events == [] {
      assert log + events[..0] == log;
    } else if |log| + 1 < limit {
      LogIsPrefix(limit, log + [events[0]], events[1..]);
      var n := if |log| + |events| < limit then |events| else limit - |log|;
      assert log + [events[0]] + events[1..][..n - 1] == log + events[..n];
    } else {
      assert log + [events[0]] == log + events[..1];
    }
  }
}

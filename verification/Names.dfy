/** Names for what has none (src/generate-names.cc). */
module GenerateNames {
  import opened Util
  import opened Wasm
  import opened CCompile
  import opened References
  import opened Decimals

  function IndexText(index: Option<nat>): string {
    match index case None => "" case Some(i) => Decimal(i)
  }

  function GeneratedName(prefix: string, index: Option<nat>, disambiguator: nat): string {
    "$" + prefix + IndexText(index) + if disambiguator != 0 then "_" + Decimal(disambiguator) else ""
  }

  method GenerateName(prefix: string, index: Option<nat>, disambiguator: nat) returns (str: string)
    ensures str == GeneratedName(prefix, index, disambiguator)
  {
    str := "$";
    str := str + prefix;
    if index.Some? {
      str := str + Decimal(index.value);
    }
    if disambiguator != 0 {
      str := str + ("_" + Decimal(disambiguator));
    }
  }

  /** Different disambiguators give different names. */
  lemma DisambiguatorInjective(prefix: string, index: Option<nat>, a: nat, b: nat)
    requires GeneratedName(prefix, index, a) == GeneratedName(prefix, index, b)
    ensures a == b
  {
    var stem := "$" + prefix + IndexText(index);
    var x, y := GeneratedName(prefix, index, a), GeneratedName(prefix, index, b);
    if a != 0 { assert x[|stem|] == '_' && x[|stem| + 1..] == Decimal(a); }
    if b != 0 { assert y[|stem|] == '_' && y[|stem| + 1..] == Decimal(b); }
    if a != 0 && b != 0 { DecimalInjective(a, b); }
  }

  // ----- which names are given -----

  function Taken(names: seq<string>): set<string> { set n | n in names && n != "" }

  /** The first generated name, from disambiguator `d` on, that is not taken. */
  function FirstFree(taken: set<string>, prefix: string, index: Option<nat>, d: nat): string
    decreases |taken| - d
  {
    var name := GeneratedName(prefix, index, d);
    if name !in taken || d >= |taken| then name else FirstFree(taken, prefix, index, d + 1)
  }

  /** One entity gets a name, if it has none. */
  function Bound(names: seq<string>, prefix: string, index: Option<nat>, i: nat): (r: seq<string>)
    requires i < |names|
    ensures |r| == |names|
  {
    if names[i] != "" then names else names[i := FirstFree(Taken(names), prefix, index, 0)]
  }

  predicate Within(outside: seq<(nat, string)>, n: nat) { forall k | 0 <= k < |outside| :: outside[k].0 < n }

  /** What is left of a name that is passed on as a C string: all before the first NUL. */
  function CString(s: string): (r: string)
    ensures r <= s && '\0' !in r && (r == s || s[|r|] == '\0')
  {
    if s == "" || s[0] == '\0' then "" else [s[0]] + CString(s[1..])
  }

  /** Outside names are used first, in order. */
  function OutsideUsed(names: seq<string>, outside: seq<(nat, string)>): (r: seq<string>)
    requires Within(outside, |names|)
    ensures |r| == |names|
    decreases |outside|
  {
    if outside == [] then names
    else
      var init, (i, name) := outside[..|outside| - 1], outside[|outside| - 1];
      Bound(OutsideUsed(names, init), CString(name), None, i)
  }

  /** Then the entities from number `from` up to `end` that still have no name get one with their
      number. */
  function NamesInvented(names: seq<string>, prefix: string, from: nat, end: nat): (r: seq<string>)
    requires from <= end <= |names|
    ensures |r| == |names|
    decreases end
  {
    if from == end then names else Bound(NamesInvented(names, prefix, from, end - 1), prefix, Some(end - 1), end - 1)
  }

  /** The names of all functions, or of all globals, memories or tables. */
  function KindNames(names: seq<string>, outside: seq<(nat, string)>, prefix: string): (r: seq<string>)
    requires Within(outside, |names|)
    ensures |r| == |names|
  {
    NamesInvented(OutsideUsed(names, outside), prefix, 0, |names|)
  }

  /** The first outside name of its entity. */
  predicate FirstFor(outside: seq<(nat, string)>, k: nat)
    requires k < |outside|
  {
    forall j | 0 <= j < k :: outside[j].0 != outside[k].0
  }

  lemma WithinAll(outside: seq<(nat, string)>, n: nat)
    requires Within(outside, n)
    ensures forall k | 0 <= k <= |outside| :: Within(outside[..k], n)
    ensures forall k | 0 <= k < |outside| :: outside[k].0 < n
  {}

  lemma {:induction false} FirstFreeProper(taken: set<string>, prefix: string, index: Option<nat>, d: nat)
    ensures var r := FirstFree(taken, prefix, index, d); r != "" && Prefixed(prefix, r)
    decreases |taken| - d
  {
    hide Prefixed, GeneratedName;
    NameNotEmpty(prefix, index, d);
    if GeneratedName(prefix, index, d) in taken && d < |taken| { FirstFreeProper(taken, prefix, index, d + 1); }
  }

  lemma {:induction false} NotNamedOutside(names: seq<string>, outside: seq<(nat, string)>, i: nat)
    requires Within(outside, |names|) && i < |names| && forall k | 0 <= k < |outside| :: outside[k].0 != i
    ensures OutsideUsed(names, outside)[i] == names[i]
    decreases |outside|
  {
    hide FirstFree;
    if outside != [] { NotNamedOutside(names, outside[..|outside| - 1], i); }
  }

  /** An entity with an outside name has a name; if it had none, its first outside name is used. */
  lemma {:induction false} NamedOutside(names: seq<string>, outside: seq<(nat, string)>, k: nat)
    requires Within(outside, |names|) && k < |outside|
    ensures var r := OutsideUsed(names, outside)[outside[k].0];
            r != "" && (names[outside[k].0] == "" && FirstFor(outside, k) ==> Prefixed(CString(outside[k].1), r))
    decreases |outside|
  {
    hide FirstFree, Prefixed, CString;
    var n := |outside| - 1;
    var init := outside[..n];
    var was := OutsideUsed(names, init);
    if k < n {
      NamedOutside(names, init, k);
    } else {
      FirstFreeProper(Taken(was), CString(outside[n].1), None, 0);
      if FirstFor(outside, k) { NotNamedOutside(names, init, outside[n].0); }
    }
  }

  lemma OutsideNext(names: seq<string>, outside: seq<(nat, string)>, k: nat)
    requires Within(outside, |names|) && k < |outside|
    ensures OutsideUsed(names, outside[..k + 1])
         == Bound(OutsideUsed(names, outside[..k]), CString(outside[k].1), None, outside[k].0)
  {
    hide Bound, CString;
    assert outside[..k + 1][..k] == outside[..k];
  }

  lemma SubsetSize(a: set<string>, b: set<string>)
    requires a < b
    ensures |a| < |b|
  {
    assert b == a + (b - a) && b - a != {};
  }

  /** A binding table: the names of all functions, all globals or all locals, "" where there is none,
      with the hash from names to indices. */
  class Bindings {
    var names: seq<string>
    var hash: map<string, nat>

    ghost predicate Valid()
      reads this
    {
      && (forall n | n in hash :: n != "" && hash[n] < |names| && names[hash[n]] == n)
      && (forall i | 0 <= i < |names| && names[i] != "" :: names[i] in hash && hash[names[i]] == i)
    }

    constructor (names: seq<string>)
      requires forall i, j | 0 <= i < j < |names| && names[i] != "" :: names[i] != names[j]
      ensures Valid() && this.names == names
    {
      this.names := names;
      hash := map n | n in names && n != "" :: IndexOf(names, n).value;
      new;
      forall i | 0 <= i < |names| && names[i] != "" ensures names[i] in hash && hash[names[i]] == i {
        var r := IndexOf(names, names[i]);
        assert r.value == i;
      }
    }

    lemma HashIsTaken()
      requires Valid()
      ensures hash.Keys == Taken(names)
    {}

    /** The loop of GenerateAndBindName and MaybeUseAndBindName: tries disambiguators until the name
        is new.  It ends because the names tried are pairwise different and all taken. */
    method FreeName(prefix: string, index: Option<nat>) returns (str: string)
      ensures str !in hash && str == FirstFree(hash.Keys, prefix, index, 0)
      ensures exists d: nat :: str == GeneratedName(prefix, index, d)
                && forall c: nat | c < d :: GeneratedName(prefix, index, c) in hash
    {
      hide GeneratedName;
      var disambiguator := 0;
      str := GenerateName(prefix, index, disambiguator);
      ghost var tried: set<string> := {};
      while str in hash
        invariant str == GeneratedName(prefix, index, disambiguator)
        invariant forall c: nat | c < disambiguator :: GeneratedName(prefix, index, c) in tried
        invariant forall s | s in tried :: exists c: nat :: c < disambiguator && s == GeneratedName(prefix, index, c)
        invariant tried <= hash.Keys && |tried| == disambiguator
        invariant FirstFree(hash.Keys, prefix, index, 0) == FirstFree(hash.Keys, prefix, index, disambiguator)
        decreases |hash.Keys - tried|
      {
        if str in tried {
          var c: nat :| c < disambiguator && str == GeneratedName(prefix, index, c);
          DisambiguatorInjective(prefix, index, c, disambiguator);
          assert false;
        }
        assert hash.Keys - (tried + {str}) < hash.Keys - tried;
        assert str in hash.Keys && tried < hash.Keys;
        SubsetSize(tried, hash.Keys);
        tried := tried + {str};
        disambiguator := disambiguator + 1;
        str := GenerateName(prefix, index, disambiguator);
      }
    }

    method GenerateAndBindName(prefix: string, index: Option<nat>, i: nat)
      requires Valid() && i < |names| && names[i] == ""
      modifies this
      ensures Valid() && names == Bound(old(names), prefix, index, i)
      ensures names[i] != "" && names[i] !in old(hash) && Prefixed(prefix, names[i])
    {
      hide GeneratedName, Prefixed, FirstFree;
      HashIsTaken();
      var str := FreeName(prefix, index);
      ghost var d: nat :| str == GeneratedName(prefix, index, d) && forall c: nat | c < d ::
        GeneratedName(prefix, index, c) in hash;
      NameNotEmpty(prefix, index, d);
      hash, names := hash[str := i], names[i := str];
    }

    method MaybeGenerateAndBindName(prefix: string, index: Option<nat>, i: nat)
      requires Valid() && i < |names|
      modifies this
      ensures Valid() && Kept(old(names)) && names[i] != "" && names == Bound(old(names), prefix, index, i)
      ensures forall k | 0 <= k < |names| && k != i :: names[k] == old(names)[k]
      ensures old(names)[i] == "" ==> Prefixed(prefix, names[i])
    {
      hide FirstFree, Prefixed;
      if names[i] == "" {
        GenerateAndBindName(prefix, index, i);
      }
    }

    /** The name comes as a C string. */
    method MaybeUseAndBindName(name: string, i: nat)
      requires Valid() && i < |names|
      modifies this
      ensures Valid() && Kept(old(names)) && names == Bound(old(names), CString(name), None, i)
    {
      hide Bound, Prefixed, CString;
      MaybeGenerateAndBindName(CString(name), None, i);
    }

    /** Existing names stay. */
    ghost predicate Kept(before: seq<string>)
      reads this
    {
      |names| == |before| && forall i | 0 <= i < |names| && before[i] != "" :: names[i] == before[i]
    }

    /** VisitImport and VisitExport: the outside name of an entity is preferred to an invented one.
        The first one of an entity without a name is used, with a disambiguator if it is taken. */
    method UseOutsideNames(outside: seq<(nat, string)>)
      requires Valid() && Within(outside, |names|)
      modifies this
      ensures Valid() && Kept(old(names)) && names == OutsideUsed(old(names), outside)
      ensures forall k | 0 <= k < |outside| :: names[outside[k].0] != ""
      ensures forall k | 0 <= k < |outside| && old(names)[outside[k].0] == "" && FirstFor(outside, k) ::
                Prefixed(CString(outside[k].1), names[outside[k].0])
    {
      hide Bound, Prefixed, Within, FirstFor, CString;
      WithinAll(outside, |names|);
      ghost var before := names;
      for k := 0 to |outside|
        invariant Valid() && Kept(before) && names == OutsideUsed(before, outside[..k])
      {
        MaybeUseAndBindName(outside[k].1, outside[k].0);
        OutsideNext(before, outside, k);
      }
      assert outside[..|outside|] == outside;
      forall k | 0 <= k < |outside|
        ensures names[outside[k].0] != ""
        ensures before[outside[k].0] == "" && FirstFor(outside, k)
                ==> Prefixed(CString(outside[k].1), names[outside[k].0])
      {
        NamedOutside(before, outside, k);
      }
    }

    /** Every entity from number `from` up to `to` gets a name. */
    method NameAll(prefix: string, from: nat, to: nat)
      requires Valid() && from <= to <= |names|
      modifies this
      ensures Valid() && Kept(old(names)) && names == NamesInvented(old(names), prefix, from, to)
      ensures forall i | from <= i < to :: names[i] != ""
      ensures forall i | 0 <= i < |names| :: if from <= i < to then old(names)[i] == "" ==> Prefixed(prefix, names[i])
                                             else names[i] == old(names)[i]
    {
      hide Bound, Prefixed;
      for i := from to to
        invariant Valid() && Kept(old(names)) && names == NamesInvented(old(names), prefix, from, i)
        invariant forall k | from <= k < i :: names[k] != ""
        invariant forall k | 0 <= k < |names| ::
                  if from <= k < i then old(names)[k] == "" ==> Prefixed(prefix, names[k])
                                                 else names[k] == old(names)[k]
      {
        MaybeGenerateAndBindName(prefix, Some(i), i);
      }
    }

    lemma AllDistinct()
      requires Valid() && forall i | 0 <= i < |names| :: names[i] != ""
      ensures NoDuplicates(names)
    {
      forall i, j | 0 <= i < j < |names| ensures names[i] != names[j] {
        assert hash[names[i]] == i && hash[names[j]] == j;
      }
    }
  }

  predicate Prefixed(prefix: string, name: string) { "$" + prefix <= name }

  lemma NameNotEmpty(prefix: string, index: Option<nat>, d: nat)
    ensures GeneratedName(prefix, index, d) != "" && Prefixed(prefix, GeneratedName(prefix, index, d))
  {
    assert GeneratedName(prefix, index, d)[0] == '$';
  }

  // ----- labels -----

  function LabelName(kind: char, n: nat): string { GeneratedName([kind], Some(n), 0) }

  function LabelOr(given: string, kind: char, n: nat): string {
    if given == "" then LabelName(kind, n) else given
  }

  /** How many labels an expression declares. */
  function LabelCount(e: Expr): nat
    decreases e
  {
    match e
    case Block(_, _, body) => 1 + LabelCountList(body)
    case Loop(_, _, body) => 1 + LabelCountList(body)
    case If(_, _, then_, else_) => 1 + LabelCountList(then_) + LabelCountList(else_)
    case _ => 0
  }

  function LabelCountList(es: ExprList): nat
    decreases es
  {
    match es case Nil => 0 case Cons(e, rest) => LabelCount(e) + LabelCountList(rest)
  }

  /** The expression with labels; those without a name are numbered from `n` in order of appearance. */
  function WithLabels(e: Expr, n: nat): Expr
    decreases e
  {
    match e
    case Block(given, results, body) => Block(LabelOr(given, 'B', n), results, WithLabelsList(body, n + 1))
    case Loop(given, results, body) => Loop(LabelOr(given, 'L', n), results, WithLabelsList(body, n + 1))
    case If(given, results, then_, else_) =>
      If(LabelOr(given, 'I', n), results, WithLabelsList(then_, n + 1),
         WithLabelsList(else_, n + 1 + LabelCountList(then_)))
    case _ => e
  }

  function WithLabelsList(es: ExprList, n: nat): ExprList
    decreases es
  {
    match es
    case Nil => Nil
    case Cons(e, rest) => Cons(WithLabels(e, n), WithLabelsList(rest, n + LabelCount(e)))
  }

  class NameGenerator {
    var labelCount: nat

    constructor ()
      ensures labelCount == 0
    {
      labelCount := 0;
    }

    /** MaybeGenerateName with `label_count_++`. */
    method BeginLabel(kind: char, given: string) returns (name: string)
      modifies this
      ensures name == LabelOr(given, kind, old(labelCount)) && labelCount == old(labelCount) + 1
    {
      name := given;
      if given == "" {
        name := GenerateName([kind], Some(labelCount), 0);
      }
      labelCount := labelCount + 1;
    }

    method VisitExpr(e: Expr) returns (r: Expr)
      modifies this
      ensures r == WithLabels(e, old(labelCount)) && labelCount == old(labelCount) + LabelCount(e)
      decreases e
    {
      hide LabelOr;
      match e
      case Block(given, results, body) =>
        var name := BeginLabel('B', given);
        var b := VisitList(body);
        r := Block(name, results, b);
      case Loop(given, results, body) =>
        var name := BeginLabel('L', given);
        var b := VisitList(body);
        r := Loop(name, results, b);
      case If(given, results, then_, else_) =>
        var name := BeginLabel('I', given);
        var t := VisitList(then_);
        var f := VisitList(else_);
        r := If(name, results, t, f);
      case _ => r := e;
    }

    method VisitList(es: ExprList) returns (r: ExprList)
      modifies this
      ensures r == WithLabelsList(es, old(labelCount)) && labelCount == old(labelCount) + LabelCountList(es)
      decreases es
    {
      match es
      case Nil => r := Nil;
      case Cons(e, rest) =>
        var e' := VisitExpr(e);
        var rest' := VisitList(rest);
        r := Cons(e', rest');
    }
  }

  // ----- bodies as they come from a binary module -----

  /** A reference that can be looked up. */
  predicate Resolves(ns: seq<string>, x: Var) {
    match x case Index(i) => i < |ns| case Name(n) => n != "" && n in ns
  }

  predicate InRange(depth: nat, x: Var) { x.Index? && x.index < depth }

  /** Branch targets are depths within range, and all other references can be looked up. */
  predicate Indexed(t: Tables, depth: nat, e: Expr)
    decreases e
  {
    match e
    case LocalGet(x) => Resolves(t.locals, x)
    case LocalSet(x) => Resolves(t.locals, x)
    case LocalTee(x) => Resolves(t.locals, x)
    case GlobalGet(x) => Resolves(t.globals, x)
    case GlobalSet(x) => Resolves(t.globals, x)
    case Call(x) => Resolves(t.funcs, x)
    case Br(x) => InRange(depth, x)
    case BrIf(x) => InRange(depth, x)
    case BrTable(xs, d) => InRange(depth, d) && forall i | 0 <= i < |xs| :: InRange(depth, xs[i])
    case Block(_, _, body) => IndexedList(t, depth + 1, body)
    case Loop(_, _, body) => IndexedList(t, depth + 1, body)
    case If(_, _, then_, else_) => IndexedList(t, depth + 1, then_) && IndexedList(t, depth + 1, else_)
    case _ => true
  }

  predicate IndexedList(t: Tables, depth: nat, es: ExprList)
    decreases es
  {
    es.Cons? ==> Indexed(t, depth, es.head) && IndexedList(t, depth, es.tail)
  }

  /** No label has a name yet. */
  predicate Unlabelled(e: Expr)
    decreases e
  {
    match e
    case Block(given, _, body) => given == "" && UnlabelledList(body)
    case Loop(given, _, body) => given == "" && UnlabelledList(body)
    case If(given, _, then_, else_) => given == "" && UnlabelledList(then_) && UnlabelledList(else_)
    case _ => true
  }

  predicate UnlabelledList(es: ExprList)
    decreases es
  {
    es.Cons? ==> Unlabelled(es.head) && UnlabelledList(es.tail)
  }

  /** The names of `ns` are kept in `ns'`, which has no duplicates and no empty name. */
  predicate Completes(ns: seq<string>, ns': seq<string>) {
    && |ns'| == |ns| && NoDuplicates(ns') && "" !in ns'
    && forall i | 0 <= i < |ns| && ns[i] != "" :: ns'[i] == ns[i]
  }

  predicate CompletesAll(t: Tables, t': Tables) {
    Completes(t.funcs, t'.funcs) && Completes(t.globals, t'.globals) && Completes(t.locals, t'.locals)
  }

  lemma FirstIs(ns: seq<string>, i: nat)
    requires NoDuplicates(ns) && i < |ns|
    ensures IndexOf(ns, ns[i]) == Some(i)
  {}

  lemma StillResolves(ns: seq<string>, ns': seq<string>, x: Var)
    requires Completes(ns, ns') && Resolves(ns, x)
    ensures SameRef(ns, ns', x, x) && Resolves(ns', x)
  {
    if x.Name? {
      var i := IndexOf(ns, x.name).value;
      FirstIs(ns', i);
    }
  }

  /** GenerateNames changes no reference. */
  lemma {:induction false} LabelsKeepRefs(s: Scope, s': Scope, e: Expr, n: nat)
    requires Indexed(s.t, |s.labels|, e) && |s.labels| == |s'.labels| && CompletesAll(s.t, s'.t)
    ensures SameExpr(s, s', e, WithLabels(e, n)) && Indexed(s'.t, |s.labels|, WithLabels(e, n))
    decreases e
  {
    hide Completes, CompletesAll, Resolves, LabelOr, Resolve, InRange, Depth, SameRef, SameLabel, LabelCountList;
    match e
    case Block(given, results, body) =>
      LabelsKeepRefsList(s.Inside(given), s'.Inside(LabelOr(given, 'B', n)), body, n + 1);
    case Loop(given, results, body) =>
      LabelsKeepRefsList(s.Inside(given), s'.Inside(LabelOr(given, 'L', n)), body, n + 1);
    case If(given, results, then_, else_) =>
      var inner := s'.Inside(LabelOr(given, 'I', n));
      LabelsKeepRefsList(s.Inside(given), inner, then_, n + 1);
      LabelsKeepRefsList(s.Inside(given), inner, else_, n + 1 + LabelCountList(then_));
    case _ => FlatKeepsRefs(s, s', e);
  }

  lemma FlatKeepsRefs(s: Scope, s': Scope, e: Expr)
    requires !e.Block? && !e.Loop? && !e.If?
    requires Indexed(s.t, |s.labels|, e) && |s.labels| == |s'.labels| && CompletesAll(s.t, s'.t)
    ensures SameExpr(s, s', e, e) && Indexed(s'.t, |s.labels|, e)
  {
    hide Completes, Resolves, Resolve;
    match e
    case LocalGet(x) => StillResolves(s.t.locals, s'.t.locals, x);
    case LocalSet(x) => StillResolves(s.t.locals, s'.t.locals, x);
    case LocalTee(x) => StillResolves(s.t.locals, s'.t.locals, x);
    case GlobalGet(x) => StillResolves(s.t.globals, s'.t.globals, x);
    case GlobalSet(x) => StillResolves(s.t.globals, s'.t.globals, x);
    case Call(x) => StillResolves(s.t.funcs, s'.t.funcs, x);
    case _ =>
  }

  lemma {:induction false} LabelsKeepRefsList(s: Scope, s': Scope, es: ExprList, n: nat)
    requires IndexedList(s.t, |s.labels|, es) && |s.labels| == |s'.labels| && CompletesAll(s.t, s'.t)
    ensures SameList(s, s', es, WithLabelsList(es, n)) && IndexedList(s'.t, |s.labels|, WithLabelsList(es, n))
    decreases es
  {
    hide Completes;
    if es.Cons? {
      LabelsKeepRefs(s, s', es.head, n);
      LabelsKeepRefsList(s, s', es.tail, n + LabelCount(es.head));
    }
  }

  // ----- the generated labels are distinct -----

  /** `name` is a label numbered from `lo` up to `hi`. */
  ghost predicate Numbered(name: string, lo: nat, hi: nat) {
    exists k: nat, c: char :: lo <= k < hi && c in {'B', 'L', 'I'} && name == LabelName(c, k)
  }

  lemma LabelNameInjective(c: char, k: nat, d: char, l: nat)
    requires LabelName(c, k) == LabelName(d, l)
    ensures c == d && k == l
  {
    assert LabelName(c, k)[2..] == Decimal(k) && LabelName(d, l)[2..] == Decimal(l);
    assert LabelName(c, k)[1] == c && LabelName(d, l)[1] == d;
    DecimalInjective(k, l);
  }

  /** A generated label is neither empty nor the implicit function label. */
  lemma LabelNameProper(c: char, k: nat)
    ensures LabelName(c, k) != "" && LabelName(c, k) != IMPLICIT_FUNC_LABEL
  {
    var name := LabelName(c, k);
    assert name[2..] == Decimal(k) && name[2] == Decimal(k)[0] && name[2] in Decimal(k);
    assert IMPLICIT_FUNC_LABEL[2] == 'f';
  }

  lemma Apart(names: set<string>, lo: nat, mid: nat, others: set<string>, mid': nat, hi: nat)
    requires forall s | s in names :: Numbered(s, lo, mid)
    requires forall s | s in others :: Numbered(s, mid', hi)
    requires lo <= mid <= mid' <= hi
    ensures names !! others
    ensures forall s | s in names + others :: Numbered(s, lo, hi)
  {
    hide LabelName;
    forall s | s in names ensures s !in others {
      if s in others {
        var k: nat, c: char :| lo <= k < mid && c in {'B', 'L', 'I'} && s == LabelName(c, k);
        var l: nat, d: char :| mid' <= l < hi && d in {'B', 'L', 'I'} && s == LabelName(d, l);
        LabelNameInjective(c, k, d, l);
      }
    }
    forall s | s in names + others ensures Numbered(s, lo, hi) {
      if s in names {
        var k: nat, c: char :| lo <= k < mid && c in {'B', 'L', 'I'} && s == LabelName(c, k);
      } else {
        var k: nat, c: char :| mid' <= k < hi && c in {'B', 'L', 'I'} && s == LabelName(c, k);
      }
    }
  }

  lemma OwnLabel(c: char, n: nat)
    requires c in {'B', 'L', 'I'}
    ensures Numbered(LabelName(c, n), n, n + 1)
  {}

  lemma {:induction false} LabelsNumbered(e: Expr, n: nat)
    requires Unlabelled(e)
    ensures DistinctLabels(WithLabels(e, n))
    ensures forall s | s in LabelsOf(WithLabels(e, n)) :: Numbered(s, n, n + LabelCount(e))
    decreases e
  {
    hide LabelName, Numbered;
    match e
    case Block(_, _, body) => NestedNumbered('B', body, n);
    case Loop(_, _, body) => NestedNumbered('L', body, n);
    case If(_, _, then_, else_) =>
      OwnLabel('I', n);
      LabelsNumberedList(then_, n + 1);
      var mid := n + 1 + LabelCountList(then_);
      LabelsNumberedList(else_, mid);
      var a, b := LabelsOfList(WithLabelsList(then_, n + 1)), LabelsOfList(WithLabelsList(else_, mid));
      Apart(a, n + 1, mid, b, mid, mid + LabelCountList(else_));
      Apart({LabelName('I', n)}, n, n + 1, a + b, n + 1, mid + LabelCountList(else_));
    case _ =>
  }

  lemma NestedNumbered(kind: char, body: ExprList, n: nat)
    requires UnlabelledList(body) && kind in {'B', 'L', 'I'}
    ensures var inner := WithLabelsList(body, n + 1);
            && LabelName(kind, n) !in LabelsOfList(inner) && DistinctLabelsList(inner)
            && forall s | s in {LabelName(kind, n)} + LabelsOfList(inner) ::
              Numbered(s, n, n + 1 + LabelCountList(body))
    decreases body, 1
  {
    hide LabelName, Numbered;
    OwnLabel(kind, n);
    LabelsNumberedList(body, n + 1);
    Apart({LabelName(kind, n)}, n, n + 1, LabelsOfList(WithLabelsList(body, n + 1)), n + 1,
      n + 1 + LabelCountList(body));
  }

  lemma {:induction false} LabelsNumberedList(es: ExprList, n: nat)
    requires UnlabelledList(es)
    ensures DistinctLabelsList(WithLabelsList(es, n))
    ensures forall s | s in LabelsOfList(WithLabelsList(es, n)) :: Numbered(s, n, n + LabelCountList(es))
    decreases es, 0
  {
    hide LabelName, Numbered;
    if es.Cons? {
      LabelsNumbered(es.head, n);
      var mid := n + LabelCount(es.head);
      LabelsNumberedList(es.tail, mid);
      Apart(LabelsOf(WithLabels(es.head, n)), n, mid, LabelsOfList(WithLabelsList(es.tail, mid)), mid,
        n + LabelCountList(es));
    }
  }
}

/** References by index become references by name (src/apply-names.cc). */
module ApplyNames {
  import opened Util
  import opened Wasm
  import opened Validation
  import opened CCompile
  import opened References
  import opened GenerateNames
  import Decimals

  /** UseNameForVar with the name that was looked up. */
  function Used(name: string, x: Var): Var {
    if x.Name? || name == "" then x else Name(name)
  }

  /** The label a branch target denotes, or "".  The function label is not on the stack. */
  function LabelByVar(labels: seq<string>, x: Var): string {
    match x
    case Name(n) => if n in labels then n else ""
    case Index(i) => if i < |labels| then labels[|labels| - 1 - i] else ""
  }

  function UseLabel(labels: seq<string>, x: Var): Var { Used(LabelByVar(labels, x), x) }

  function UseName(ns: seq<string>, x: Var): Var {
    match Resolve(ns, x) case None => x case Some(i) => Used(ns[i], x)
  }

  function UseLabels(labels: seq<string>, xs: seq<Var>): (r: seq<Var>)
    ensures |r| == |xs| && forall i | 0 <= i < |xs| :: r[i] == UseLabel(labels, xs[i])
  {
    seq(|xs|, i requires 0 <= i < |xs| => UseLabel(labels, xs[i]))
  }

  /** The expression with names wherever there are any; `labels` are the enclosing labels without
      the function label. */
  function Applied(t: Tables, labels: seq<string>, e: Expr): Expr
    decreases e
  {
    match e
    case LocalGet(x) => LocalGet(UseName(t.locals, x))
    case LocalSet(x) => LocalSet(UseName(t.locals, x))
    case LocalTee(x) => LocalTee(UseName(t.locals, x))
    case GlobalGet(x) => GlobalGet(UseName(t.globals, x))
    case GlobalSet(x) => GlobalSet(UseName(t.globals, x))
    case Call(x) => Call(UseName(t.funcs, x))
    case Br(x) => Br(UseLabel(labels, x))
    case BrIf(x) => BrIf(UseLabel(labels, x))
    case BrTable(xs, d) => BrTable(UseLabels(labels, xs), UseLabel(labels, d))
    case Block(name, results, body) => Block(name, results, AppliedList(t, labels + [name], body))
    case Loop(name, results, body) => Loop(name, results, AppliedList(t, labels + [name], body))
    case If(name, results, then_, else_) =>
      If(name, results, AppliedList(t, labels + [name], then_), AppliedList(t, labels + [name], else_))
    case _ => e
  }

  function AppliedList(t: Tables, labels: seq<string>, es: ExprList): ExprList
    decreases es
  {
    match es
    case Nil => Nil
    case Cons(e, rest) => Cons(Applied(t, labels, e), AppliedList(t, labels, rest))
  }

  class NameApplier {
    const t: Tables
    var labels: seq<string>

    constructor (t: Tables)
      ensures this.t == t && labels == []
    {
      this.t, labels := t, [];
    }

    /** FindLabelByVar: innermost first. */
    method FindLabelByVar(x: Var) returns (label_: string)
      ensures label_ == LabelByVar(labels, x)
    {
      match x
      case Name(n) =>
        var i := |labels|;
        while i > 0
          invariant 0 <= i <= |labels|
          invariant forall j | i <= j < |labels| :: labels[j] != n
        {
          if labels[i - 1] == n {
            return labels[i - 1];
          }
          i := i - 1;
        }
        label_ := "";
      case Index(i) =>
        if i >= |labels| {
          return "";
        }
        label_ := labels[|labels| - 1 - i];
    }

    method UseNameForLabel(x: Var) returns (y: Var)
      ensures y == UseLabel(labels, x)
    {
      var name := FindLabelByVar(x);
      y := Used(name, x);
    }

    method UseNameForTargets(xs: seq<Var>) returns (ys: seq<Var>)
      ensures ys == UseLabels(labels, xs)
    {
      ys := [];
      for i := 0 to |xs|
        invariant |ys| == i && forall k | 0 <= k < i :: ys[k] == UseLabel(labels, xs[k])
      {
        var y := UseNameForLabel(xs[i]);
        ys := ys + [y];
      }
    }

    method VisitNested(name: string, es: ExprList) returns (r: ExprList)
      modifies this
      ensures r == AppliedList(t, old(labels) + [name], es) && labels == old(labels)
      decreases es, 1
    {
      labels := labels + [name];
      r := VisitList(es);
      labels := labels[..|labels| - 1];
    }

    method VisitExpr(e: Expr) returns (r: Expr)
      modifies this
      ensures r == Applied(t, old(labels), e) && labels == old(labels)
      decreases e, 2
    {
      hide UseLabel, UseName;
      match e
      case LocalGet(x) => r := LocalGet(UseName(t.locals, x));
      case LocalSet(x) => r := LocalSet(UseName(t.locals, x));
      case LocalTee(x) => r := LocalTee(UseName(t.locals, x));
      case GlobalGet(x) => r := GlobalGet(UseName(t.globals, x));
      case GlobalSet(x) => r := GlobalSet(UseName(t.globals, x));
      case Call(x) => r := Call(UseName(t.funcs, x));
      case Br(x) =>
        var y := UseNameForLabel(x);
        r := Br(y);
      case BrIf(x) =>
        var y := UseNameForLabel(x);
        r := BrIf(y);
      case BrTable(xs, d) =>
        var ys := UseNameForTargets(xs);
        var y := UseNameForLabel(d);
        r := BrTable(ys, y);
      case Block(name, results, body) =>
        var b := VisitNested(name, body);
        r := Block(name, results, b);
      case Loop(name, results, body) =>
        var b := VisitNested(name, body);
        r := Loop(name, results, b);
      case If(name, results, then_, else_) => r := VisitIf(e);
      case _ => r := e;
    }

    /** Both branches of an `if` are visited under its label, pushed once. */
    method VisitIf(e: Expr) returns (r: Expr)
      requires e.If?
      modifies this
      ensures r == Applied(t, old(labels), e) && labels == old(labels)
      decreases e, 1
    {
      labels := labels + [e.name];
      var a := VisitList(e.then_);
      var b := VisitList(e.else_);
      labels := labels[..|labels| - 1];
      r := If(e.name, e.results, a, b);
    }

    method VisitList(es: ExprList) returns (r: ExprList)
      modifies this
      ensures r == AppliedList(t, old(labels), es) && labels == old(labels)
      decreases es, 0
    {
      match es
      case Nil => r := Nil;
      case Cons(e, rest) =>
        var e' := VisitExpr(e);
        var rest' := VisitList(rest);
        r := Cons(e', rest');
    }
  }

  // ----- what is kept -----

  /** No label of `labels` is empty, and none occurs twice. */
  predicate Proper(labels: seq<string>) { NoDuplicates(labels) && "" !in labels }

  /** Searching the label found at a depth, innermost first, finds that depth. */
  lemma {:induction false} DepthOfLabel(labels: seq<string>, d: nat)
    requires Proper(labels) && d < |labels|
    ensures DepthOfName([""] + labels, labels[|labels| - 1 - d]) == Some(d)
  {
    var all := [""] + labels;
    var n := labels[|labels| - 1 - d];
    assert all[|all| - 1 - d] == n;
    var r := DepthOfName(all, n);
    assert r.Some?;
    assert all[|all| - 1 - r.value] == n;
    assert forall j | 0 <= j < |all| && j != |all| - 1 - d :: all[j] != n;
  }

  /** A branch keeps its target, and is left an index only if that is the function label. */
  lemma BranchKept(labels: seq<string>, x: Var)
    requires Proper(labels) && InRange(|labels| + 1, x)
    ensures Depth([""] + labels, x) == Depth([""] + labels, UseLabel(labels, x))
    ensures NamedLabel(|labels| + 1, UseLabel(labels, x))
    ensures UseLabel(labels, x).Index? <==> x.index == |labels|
  {
    if x.index < |labels| { DepthOfLabel(labels, x.index); }
  }

  /** All entities have names, none twice. */
  predicate FullyNamed(t: Tables) {
    Proper(t.funcs) && Proper(t.globals) && Proper(t.locals)
  }

  lemma RefKept(ns: seq<string>, x: Var)
    requires Proper(ns) && Resolves(ns, x)
    ensures SameRef(ns, ns, x, UseName(ns, x)) && UseName(ns, x).Name?
  {
    if x.Index? { FirstIs(ns, x.index); }
  }

  function OuterScope(t: Tables, labels: seq<string>): Scope { Scope(t, [""] + labels) }

  lemma InsideOuter(t: Tables, labels: seq<string>, name: string)
    ensures OuterScope(t, labels).Inside(name) == OuterScope(t, labels + [name])
  {
    assert ([""] + labels) + [name] == [""] + (labels + [name]);
  }

  /** ApplyNames keeps what every reference denotes, and leaves an index only for the function label. */
  lemma {:induction false} NamesKeepRefs(t: Tables, labels: seq<string>, e: Expr)
    requires FullyNamed(t) && Proper(labels) && Indexed(t, |labels| + 1, e)
    requires DistinctLabels(e) && "" !in LabelsOf(e) && forall n | n in labels :: n !in LabelsOf(e)
    ensures SameExpr(OuterScope(t, labels), OuterScope(t, labels), e, Applied(t, labels, e))
    ensures NamedExpr(|labels| + 1, Applied(t, labels, e))
    decreases e
  {
    hide UseName, UseLabel, Resolves, Proper, Depth, Resolve;
    match e
    case Block(name, _, body) => NestedKeepRefs(t, labels, name, body);
    case Loop(name, _, body) => NestedKeepRefs(t, labels, name, body);
    case If(name, _, then_, else_) =>
      NestedKeepRefs(t, labels, name, then_);
      NestedKeepRefs(t, labels, name, else_);
    case _ => FlatKeepsNames(t, labels, e);
  }

  lemma FlatKeepsNames(t: Tables, labels: seq<string>, e: Expr)
    requires !e.Block? && !e.Loop? && !e.If?
    requires FullyNamed(t) && Proper(labels) && Indexed(t, |labels| + 1, e)
    ensures SameExpr(OuterScope(t, labels), OuterScope(t, labels), e, Applied(t, labels, e))
    ensures NamedExpr(|labels| + 1, Applied(t, labels, e))
  {
    hide UseName, UseLabel, Resolves, Proper, Depth, Resolve, InRange, NamedLabel;
    match e
    case LocalGet(x) => RefKept(t.locals, x);
    case LocalSet(x) => RefKept(t.locals, x);
    case LocalTee(x) => RefKept(t.locals, x);
    case GlobalGet(x) => RefKept(t.globals, x);
    case GlobalSet(x) => RefKept(t.globals, x);
    case Call(x) => RefKept(t.funcs, x);
    case Br(x) => BranchKept(labels, x);
    case BrIf(x) => BranchKept(labels, x);
    case BrTable(xs, d) =>
      BranchKept(labels, d);
      forall i | 0 <= i < |xs|
        ensures Depth([""] + labels, xs[i]) == Depth([""] + labels, UseLabel(labels, xs[i]))
        ensures NamedLabel(|labels| + 1, UseLabel(labels, xs[i]))
      {
        BranchKept(labels, xs[i]);
      }
    case _ =>
  }

  lemma NestedKeepRefs(t: Tables, labels: seq<string>, name: string, es: ExprList)
    requires FullyNamed(t) && Proper(labels) && IndexedList(t, |labels| + 2, es)
    requires DistinctLabelsList(es) && "" !in LabelsOfList(es) && forall n | n in labels :: n !in LabelsOfList(es)
    requires name != "" && name !in labels && name !in LabelsOfList(es)
    ensures var inner := OuterScope(t, labels).Inside(name);
            SameList(inner, inner, es, AppliedList(t, labels + [name], es))
    ensures NamedList(|labels| + 2, AppliedList(t, labels + [name], es))
    decreases es, 1
  {
    InsideOuter(t, labels, name);
    NamesKeepRefsList(t, labels + [name], es);
  }

  lemma {:induction false} NamesKeepRefsList(t: Tables, labels: seq<string>, es: ExprList)
    requires FullyNamed(t) && Proper(labels) && IndexedList(t, |labels| + 1, es)
    requires DistinctLabelsList(es) && "" !in LabelsOfList(es) && forall n | n in labels :: n !in LabelsOfList(es)
    ensures SameList(OuterScope(t, labels), OuterScope(t, labels), es, AppliedList(t, labels, es))
    ensures NamedList(|labels| + 1, AppliedList(t, labels, es))
    decreases es, 0
  {
    hide Proper;
    if es.Cons? {
      NamesKeepRefs(t, labels, es.head);
      NamesKeepRefsList(t, labels, es.tail);
    }
  }

  /** Labels stay. */
  lemma {:induction false} LabelsStay(t: Tables, labels: seq<string>, e: Expr)
    ensures LabelsOf(Applied(t, labels, e)) == LabelsOf(e)
    ensures DistinctLabels(Applied(t, labels, e)) <==> DistinctLabels(e)
    decreases e
  {
    match e
    case Block(name, _, body) => LabelsStayList(t, labels + [name], body);
    case Loop(name, _, body) => LabelsStayList(t, labels + [name], body);
    case If(name, _, then_, else_) =>
      LabelsStayList(t, labels + [name], then_);
      LabelsStayList(t, labels + [name], else_);
    case _ =>
  }

  lemma {:induction false} LabelsStayList(t: Tables, labels: seq<string>, es: ExprList)
    ensures LabelsOfList(AppliedList(t, labels, es)) == LabelsOfList(es)
    ensures DistinctLabelsList(AppliedList(t, labels, es)) <==> DistinctLabelsList(es)
    decreases es
  {
    if es.Cons? {
      LabelsStay(t, labels, es.head);
      LabelsStayList(t, labels, es.tail);
    }
  }

  /** Exactly when a branch by depth keeps its target: no label further inside has the same name. */
  lemma BranchKeptExactly(labels: seq<string>, d: nat)
    requires d < |labels|
    ensures var n := labels[|labels| - 1 - d];
            Depth([""] + labels, UseLabel(labels, Index(d))) == Some(d) <==> n == "" || n !in labels[|labels| - d..]
  {
    var all, n := [""] + labels, labels[|labels| - 1 - d];
    if n != "" {
      assert all[|all| - 1 - d] == n;
      var r := DepthOfName(all, n);
      assert r.Some?;
      if n in labels[|labels| - d..] {
        var j :| |labels| - d <= j < |labels| && labels[j] == n;
        assert all[j + 1] == n;
      } else {
        assert forall j | |all| - d <= j < |all| :: all[j] != n by {
          assert forall j | |all| - d <= j < |all| :: all[j] == labels[|labels| - d..][j - |all| + d];
        }
        assert all[|all| - 1 - r.value] == n;
      }
    }
  }

  /** No label further inside has the name of the target. */
  predicate TargetFree(labels: seq<string>, x: Var) {
    match x
    case Name(_) => true
    case Index(d) =>
      d >= |labels| || labels[|labels| - 1 - d] == "" || labels[|labels| - 1 - d] !in labels[|labels| - d..]
  }

  /** The same for all branches of an expression. */
  predicate Uncaptured(labels: seq<string>, e: Expr)
    decreases e
  {
    match e
    case Br(x) => TargetFree(labels, x)
    case BrIf(x) => TargetFree(labels, x)
    case BrTable(xs, d) => TargetFree(labels, d) && forall i | 0 <= i < |xs| :: TargetFree(labels, xs[i])
    case Block(name, _, body) => UncapturedList(labels + [name], body)
    case Loop(name, _, body) => UncapturedList(labels + [name], body)
    case If(name, _, then_, else_) => UncapturedList(labels + [name], then_) && UncapturedList(labels + [name], else_)
    case _ => true
  }

  predicate UncapturedList(labels: seq<string>, es: ExprList)
    decreases es
  {
    es.Cons? ==> Uncaptured(labels, es.head) && UncapturedList(labels, es.tail)
  }

  lemma TargetKept(labels: seq<string>, x: Var)
    requires InRange(|labels| + 1, x)
    ensures Depth([""] + labels, x) == Depth([""] + labels, UseLabel(labels, x)) <==> TargetFree(labels, x)
  {
    if x.index < |labels| { BranchKeptExactly(labels, x.index); }
  }

  lemma FlatKeptExactly(t: Tables, labels: seq<string>, e: Expr)
    requires FullyNamed(t) && Indexed(t, |labels| + 1, e) && !e.Block? && !e.Loop? && !e.If?
    ensures SameExpr(OuterScope(t, labels), OuterScope(t, labels), e, Applied(t, labels, e)) <==> Uncaptured(labels, e)
  {
    hide UseName, UseLabel, Resolves, Proper, Depth, Resolve, InRange, TargetFree;
    match e
    case LocalGet(x) => RefKept(t.locals, x);
    case LocalSet(x) => RefKept(t.locals, x);
    case LocalTee(x) => RefKept(t.locals, x);
    case GlobalGet(x) => RefKept(t.globals, x);
    case GlobalSet(x) => RefKept(t.globals, x);
    case Call(x) => RefKept(t.funcs, x);
    case Br(x) => TargetKept(labels, x);
    case BrIf(x) => TargetKept(labels, x);
    case BrTable(xs, d) =>
      TargetKept(labels, d);
      forall i | 0 <= i < |xs|
        ensures Depth([""] + labels, xs[i]) == Depth([""] + labels, UseLabel(labels, xs[i]))
                <==> TargetFree(labels, xs[i])
      {
        TargetKept(labels, xs[i]);
      }
    case _ =>
  }

  /** ApplyNames keeps what a body refers to if and only if no branch is captured. */
  lemma {:induction false} BodyKeptExactly(t: Tables, labels: seq<string>, e: Expr)
    requires FullyNamed(t) && Indexed(t, |labels| + 1, e)
    ensures SameExpr(OuterScope(t, labels), OuterScope(t, labels), e, Applied(t, labels, e)) <==> Uncaptured(labels, e)
    decreases e
  {
    hide Proper, TargetFree, UseName, UseLabel, Resolves, Depth, Resolve, InRange;
    match e
    case Block(name, _, body) =>
      InsideOuter(t, labels, name);
      BodyKeptExactlyList(t, labels + [name], body);
    case Loop(name, _, body) =>
      InsideOuter(t, labels, name);
      BodyKeptExactlyList(t, labels + [name], body);
    case If(name, _, then_, else_) =>
      InsideOuter(t, labels, name);
      BodyKeptExactlyList(t, labels + [name], then_);
      BodyKeptExactlyList(t, labels + [name], else_);
    case _ => FlatKeptExactly(t, labels, e);
  }

  lemma {:induction false} BodyKeptExactlyList(t: Tables, labels: seq<string>, es: ExprList)
    requires FullyNamed(t) && IndexedList(t, |labels| + 1, es)
    ensures SameList(OuterScope(t, labels), OuterScope(t, labels), es, AppliedList(t, labels, es))
            <==> UncapturedList(labels, es)
    decreases es
  {
    hide FullyNamed, Uncaptured;
    if es.Cons? {
      BodyKeptExactly(t, labels, es.head);
      BodyKeptExactlyList(t, labels, es.tail);
    }
  }

  /** A block around a block that only branches, with a trap behind it. */
  function NestedBody(outer: string, inner: string, x: Var): ExprList {
    Cons(Block(outer, [], Cons(Block(inner, [], Cons(Br(x), Nil)), Cons(Unreachable, Nil))), Nil)
  }

  lemma NamesCollide()
    ensures LabelOr("", 'B', 1) == "$B1"
  {
    assert Decimals.Decimal(1) == "1";
  }

  lemma AppliedCons(t: Tables, labels: seq<string>, e: Expr, rest: ExprList)
    ensures AppliedList(t, labels, Cons(e, rest)) == Cons(Applied(t, labels, e), AppliedList(t, labels, rest))
    ensures UncapturedList(labels, Cons(e, rest)) <==> Uncaptured(labels, e) && UncapturedList(labels, rest)
    ensures AppliedList(t, labels, Nil) == Nil
  {
    hide Applied, Uncaptured;
  }

  lemma AppliedBlock(t: Tables, labels: seq<string>, name: string, body: ExprList)
    ensures Applied(t, labels, Block(name, [], body)) == Block(name, [], AppliedList(t, labels + [name], body))
    ensures Uncaptured(labels, Block(name, [], body)) <==> UncapturedList(labels + [name], body)
  {}

  lemma WithLabelsCons(e: Expr, rest: ExprList, n: nat)
    ensures WithLabelsList(Cons(e, rest), n) == Cons(WithLabels(e, n), WithLabelsList(rest, n + LabelCount(e)))
    ensures forall k: nat :: WithLabelsList(Nil, k) == Nil
  {}

  lemma WithLabelsBlock(name: string, body: ExprList, n: nat)
    ensures WithLabels(Block(name, [], body), n) == Block(LabelOr(name, 'B', n), [], WithLabelsList(body, n + 1))
    ensures WithLabels(Br(Index(1)), n) == Br(Index(1)) && WithLabels(Unreachable, n) == Unreachable
  {}

  lemma GeneratedBody(n: string)
    requires n == LabelOr("", 'B', 1) && n != ""
    ensures WithLabelsList(NestedBody(n, "", Index(1)), 0) == NestedBody(n, n, Index(1))
  {
    hide WithLabels, WithLabelsList, LabelOr, LabelCount;
    var br, rest := Cons(Br(Index(1)), Nil), Cons(Unreachable, Nil);
    WithLabelsCons(Br(Index(1)), Nil, 2);
    WithLabelsCons(Unreachable, Nil, 1 + LabelCount(Block("", [], br)));
    WithLabelsBlock("", br, 1);
    WithLabelsBlock("", Nil, 2);
    WithLabelsBlock("", Nil, 1 + LabelCount(Block("", [], br)));
    WithLabelsBlock(n, Cons(Block("", [], br), rest), 0);
    WithLabelsCons(Block("", [], br), rest, 1);
    WithLabelsCons(Block(n, [], Cons(Block("", [], br), rest)), Nil, 0);
    Given(n);
  }

  lemma AppliedBody(t: Tables, n: string)
    requires n != ""
    ensures AppliedList(t, [], NestedBody(n, n, Index(1))) == NestedBody(n, n, Name(n))
    ensures !UncapturedList([], NestedBody(n, n, Index(1)))
  {
    hide AppliedList, UncapturedList;
    var one, two := [n], [n, n];
    assert two[1..] == one && [] + one == one && one + one == two;
    var br, inner, rest := Br(Index(1)), Cons(Br(Index(1)), Nil), Cons(Unreachable, Nil);
    AppliedCons(t, two, br, Nil);
    AppliedBlock(t, one, n, inner);
    AppliedCons(t, one, Unreachable, Nil);
    AppliedCons(t, one, Block(n, [], inner), rest);
    AppliedBlock(t, [], n, Cons(Block(n, [], inner), rest));
    AppliedCons(t, [], Block(n, [], Cons(Block(n, [], inner), rest)), Nil);
  }

  lemma Given(name: string)
    ensures name != "" ==> LabelOr(name, 'B', 0) == name
  {}

  lemma BlockRun(sem: Sem, m: Module, f: Func, labels: seq<LabelInfo>, name: string, body: ExprList, st: State)
    ensures ExecExpr(sem, m, f, labels, Block(name, [], body), st)
         == Leave(st, 0, ExecList(sem, m, f, labels + [LabelInfo(name, 0)], body, st))
  {}

  lemma ListRun(sem: Sem, m: Module, f: Func, labels: seq<LabelInfo>, e: Expr, rest: ExprList, st: State)
    ensures var r := ExecExpr(sem, m, f, labels, e, st);
            ExecList(sem, m, f, labels, Cons(e, rest), st) == if r.out.Normal?
              then ExecList(sem, m, f, labels, rest, r.st) else r
    ensures ExecList(sem, m, f, labels, Nil, st) == Result(Normal, st)
  {
    hide ExecExpr;
  }

  lemma LeafRun(sem: Sem, m: Module, f: Func, labels: seq<LabelInfo>, x: Var, st: State)
    ensures ExecExpr(sem, m, f, labels, Br(x), st) == BranchTo(labels, x, st)
    ensures ExecExpr(sem, m, f, labels, Unreachable, st).out == Trap
  {}

  lemma NestedRun(sem: Sem, m: Module, f: Func, st: State, outer: string, inner: string, x: Var, d: nat)
    requires st.stack == [] && d < 2 && Depth(["", outer, inner], x) == Some(d)
    ensures ExecList(sem, m, f, [LabelInfo("", 0)], NestedBody(outer, inner, x), st).out == if d == 0 then Trap
            else Normal
  {
    hide Depth, ExecList, ExecExpr;
    var l0, l1, l2 := [LabelInfo("", 0)], [LabelInfo("", 0), LabelInfo(outer, 0)],
      [LabelInfo("", 0), LabelInfo(outer, 0), LabelInfo(inner, 0)];
    assert l0 + [LabelInfo(outer, 0)] == l1 && l1 + [LabelInfo(inner, 0)] == l2 && LabelNames(l2) == ["", outer, inner];
    var br, rest := Cons(Br(x), Nil), Cons(Unreachable, Nil);
    LeafRun(sem, m, f, l2, x, st);
    ListRun(sem, m, f, l2, Br(x), Nil, st);
    assert st.stack + st.stack[|st.stack|..] == st.stack;
    BlockRun(sem, m, f, l1, inner, br, st);
    LeafRun(sem, m, f, l1, x, st);
    ListRun(sem, m, f, l1, Unreachable, Nil, st);
    ListRun(sem, m, f, l1, Block(inner, [], br), rest, st);
    BlockRun(sem, m, f, l0, outer, Cons(Block(inner, [], br), rest), st);
    var end := ExecExpr(sem, m, f, l0, Block(outer, [], Cons(Block(inner, [], br), rest)), st);
    ListRun(sem, m, f, l0, Block(outer, [], Cons(Block(inner, [], br), rest)), Nil, st);
    ListRun(sem, m, f, l0, Unreachable, Nil, end.st);
  }

  /** A label the program gave itself captures a branch.  In a block called "$B1" around a block
      without a label, the inner one gets the same name, and the branch out of both is written by
      that name: the body ended normally, and after both passes it traps. */
  lemma GivenLabelCaptures(t: Tables, sem: Sem, m: Module, f: Func, st: State)
    requires st.stack == []
    ensures var before, after := NestedBody("$B1", "", Index(1)), NestedBody("$B1", "$B1", Name("$B1"));
            && AppliedList(t, [], WithLabelsList(before, 0)) == after
            && !UncapturedList([], WithLabelsList(before, 0))
            && ExecList(sem, m, f, [LabelInfo("", 0)], before, st).out == Normal
            && ExecList(sem, m, f, [LabelInfo("", 0)], after, st).out == Trap
  {
    hide ExecList, AppliedList, WithLabelsList, UncapturedList, NestedBody;
    NamesCollide();
    GeneratedBody("$B1");
    AppliedBody(t, "$B1");
    NestedRun(sem, m, f, st, "$B1", "", Index(1), 1);
    var all := ["", "$B1", "$B1"];
    assert all[2] == "$B1";
    NestedRun(sem, m, f, st, "$B1", "$B1", Name("$B1"), 0);
  }
}

/** Giving identifiers to the symbols of emitted code does not change what it does, as long as no two
    symbols get the same identifier. */
module CRename {
  import opened Util
  import opened Wasm
  import opened CLang
  import opened CCompile

  /** The writer's three symbol maps: names of locals and labels, stack variables, global names. */
  datatype SymbolMaps = SymbolMaps(locals: map<string, string>, slots: map<(nat, ValType), string>,
    globals: map<string, string>)
  {
    predicate Has(v: Sym) {
      match v
      case Named(n) => n in locals
      case Slot(k, t) => (k, t) in slots
      case GlobalSym(n) => n in globals
    }

    function Get(v: Sym): string {
      match v
      case Named(n) => if n in locals then locals[n] else ""
      case Slot(k, t) => if (k, t) in slots then slots[(k, t)] else ""
      case GlobalSym(n) => if n in globals then globals[n] else ""
    }

    /** Has a variable or a label, which is not a name of the module. */
    predicate HasVar(v: Sym) { Has(v) && !v.GlobalSym? }

    /** No two symbols have the same identifier, but for global names of the same thing. */
    ghost predicate Injective() {
      forall u: Sym, v: Sym | Has(u) && Has(v) && Get(u) == Get(v) :: u == v || (u.GlobalSym? && v.GlobalSym?)
    }

    /** `that` has all symbols of this one, with the same identifiers. */
    ghost predicate ExtendedBy(that: SymbolMaps) {
      forall v: Sym | Has(v) :: that.Has(v) && that.Get(v) == Get(v)
    }
  }

  function RenameOption(r: SymbolMaps, v: Option<Sym>): Option<string> {
    match v case None => None case Some(x) => Some(r.Get(x))
  }

  function RenameAll(r: SymbolMaps, vs: seq<Sym>): (s: seq<string>)
    ensures |s| == |vs| && forall i | 0 <= i < |s| :: s[i] == r.Get(vs[i])
  {
    seq(|vs|, i requires 0 <= i < |vs| => r.Get(vs[i]))
  }

  function RenameExp(r: SymbolMaps, e: CExp<Sym>): CExp<string> {
    match e
    case EVar(v) => EVar(r.Get(v))
    case ELit(bits) => ELit(bits)
    case EOp1(op, v) => EOp1(op, r.Get(v))
    case EOp2(op, v, w) => EOp2(op, r.Get(v), r.Get(w))
    case ECond(c, a, b) => ECond(r.Get(c), r.Get(a), r.Get(b))
    case EGlobal(g) => EGlobal(r.Get(g))
    case ELoad(op, v) => ELoad(op, r.Get(v))
    case ESize => ESize
  }

  function RenameStmt(r: SymbolMaps, s: Stmt): CStmt<string>
    decreases s
  {
    match s
    case Assign(dst, rhs) => Assign(r.Get(dst), RenameExp(r, rhs))
    case AssignOp(dst, op, w) => AssignOp(r.Get(dst), op, r.Get(w))
    case SetGlobal(g, v) => SetGlobal(r.Get(g), r.Get(v))
    case CStore(op, addr, v) => CStore(op, r.Get(addr), r.Get(v))
    case CGrow(dst, v) => CGrow(r.Get(dst), r.Get(v))
    case CCall(res, f, args) => CCall(RenameOption(r, res), r.Get(f), RenameAll(r, args))
    case CCallIndirect(res, sig, elem, args) =>
      CCallIndirect(RenameOption(r, res), sig, r.Get(elem), RenameAll(r, args))
    case CLabel(l) => CLabel(r.Get(l))
    case CGoto(l) => CGoto(r.Get(l))
    case CIf(c, then_, else_) => CIf(r.Get(c), RenameCode(r, then_), RenameCode(r, else_))
    case CSwitch(v, arms) => CSwitch(r.Get(v), RenameArms(r, arms))
    case CTrap => CTrap
  }

  function RenameCode(r: SymbolMaps, code: seq<Stmt>): (s: seq<CStmt<string>>)
    ensures |s| == |code| && forall i | 0 <= i < |s| :: s[i] == RenameStmt(r, code[i])
    decreases code
  {
    seq(|code|, i requires 0 <= i < |code| => RenameStmt(r, code[i]))
  }

  function RenameArms(r: SymbolMaps, arms: seq<Arm<Sym>>): (s: seq<Arm<string>>)
    ensures |s| == |arms| && forall i | 0 <= i < |s| :: s[i] == Arm(RenameCode(r, arms[i].stmts))
    decreases arms
  {
    seq(|arms|, i requires 0 <= i < |arms| => Arm(RenameCode(r, arms[i].stmts)))
  }

  // ----- which symbols are used -----

  predicate HasAll(r: SymbolMaps, vs: seq<Sym>) { forall v | v in vs :: r.HasVar(v) }

  predicate HasOption(r: SymbolMaps, v: Option<Sym>) { v.Some? ==> r.HasVar(v.value) }

  predicate CoversExp(r: SymbolMaps, e: CExp<Sym>) {
    match e
    case EVar(v) => r.HasVar(v)
    case ELit(bits) => true
    case EOp1(op, v) => r.HasVar(v)
    case EOp2(op, v, w) => r.HasVar(v) && r.HasVar(w)
    case ECond(c, a, b) => r.HasVar(c) && r.HasVar(a) && r.HasVar(b)
    case EGlobal(g) => r.Has(g) && g.GlobalSym?
    case ELoad(op, v) => r.HasVar(v)
    case ESize => true
  }

  predicate CoversStmt(r: SymbolMaps, s: Stmt)
    decreases s
  {
    match s
    case Assign(dst, rhs) => r.HasVar(dst) && CoversExp(r, rhs)
    case AssignOp(dst, op, w) => r.HasVar(dst) && r.HasVar(w)
    case SetGlobal(g, v) => r.Has(g) && g.GlobalSym? && r.HasVar(v)
    case CStore(op, addr, v) => r.HasVar(addr) && r.HasVar(v)
    case CGrow(dst, v) => r.HasVar(dst) && r.HasVar(v)
    case CCall(res, f, args) => HasOption(r, res) && r.Has(f) && f.GlobalSym? && HasAll(r, args)
    case CCallIndirect(res, sig, elem, args) => HasOption(r, res) && r.HasVar(elem) && HasAll(r, args)
    case CLabel(l) => r.HasVar(l)
    case CGoto(l) => r.HasVar(l)
    case CIf(c, then_, else_) => r.HasVar(c) && Covers(r, then_) && Covers(r, else_)
    case CSwitch(v, arms) => r.HasVar(v) && forall i | 0 <= i < |arms| :: Covers(r, arms[i].stmts)
    case CTrap => true
  }

  /** Every symbol in the code has an identifier. */
  predicate Covers(r: SymbolMaps, code: seq<Stmt>)
    decreases code
  {
    forall i | 0 <= i < |code| :: CoversStmt(r, code[i])
  }

  // ----- runs -----

  /** The variables of `s` and `s'` correspond. */
  ghost predicate SameVars(r: SymbolMaps, s: map<Sym, nat>, s': map<string, nat>) {
    && (forall v | v in s :: r.HasVar(v))
    && (forall v: Sym | r.HasVar(v) :: (v in s <==> r.Get(v) in s') && (v in s ==> s[v] == s'[r.Get(v)]))
  }

  ghost predicate SameState(r: SymbolMaps, s: CState<Sym>, s': CState<string>) {
    SameVars(r, s.vars, s'.vars) && s.world == s'.world && s.fuel == s'.fuel
  }

  function RenameOut(r: SymbolMaps, o: COut<Sym>): COut<string> {
    match o
    case CNormal => CNormal
    case CJump(l) => CJump(r.Get(l))
    case CTrapped => CTrapped
    case CExhausted => CExhausted
    case CStuck => CStuck
  }

  ghost predicate SameResult(r: SymbolMaps, x: CResult<Sym>, y: CResult<string>) {
    && SameState(r, x.st, y.st)
    && y.out == RenameOut(r, x.out)
    && (x.out.CJump? ==> r.HasVar(x.out.l))
  }

  /** The host makes no difference between functions `i` and `j`. */
  ghost predicate SameHost(sem: Sem, i: nat, j: nat) {
    forall args: seq<nat>, world: World :: sem.host(i, args, world) == sem.host(j, args, world)
  }

  /** Functions `i` and `j` are the same one, or imports that the host makes no difference between. */
  ghost predicate SameCallee<V>(sem: Sem, p: CProg<V>, i: nat, j: nat) {
    i == j || (i < |p.funcs| && j < |p.funcs| && p.funcs[i].CImport? && p.funcs[j].CImport? && SameHost(sem, i, j))
  }

  /** The environments of two programs agree through `r`. */
  ghost predicate SameEnv(sem: Sem, r: SymbolMaps, p: CProg<Sym>, q: CProg<string>) {
    && (forall g | g in p.fenv :: g.GlobalSym?)
    && (forall g | g in p.genv :: g.GlobalSym?)
    && (forall g: Sym | r.Has(g) && g.GlobalSym? ::
          && (g in p.fenv <==> r.Get(g) in q.fenv)
          && (g in p.fenv ==> SameCallee(sem, p, p.fenv[g], q.fenv[r.Get(g)]))
          && (g in p.genv <==> r.Get(g) in q.genv)
          && (g in p.genv ==> sem.address(p.genv[g]) == sem.address(q.genv[r.Get(g)])))
  }

  /** Function `y` is function `x` with the identifiers of `r`. */
  ghost predicate RenamedFunc(r: SymbolMaps, x: CFunc<Sym>, y: CFunc<string>) {
    match x
    case CImport(sig) => y == CImport(sig)
    case CFunc(sig, params, locals, body, result) =>
      && y == CFunc(sig, RenameAll(r, params), RenameAll(r, locals), RenameCode(r, body), RenameOption(r, result))
      && r.Injective() && Covers(r, body) && HasAll(r, params + locals) && HasOption(r, result)
  }

  /** Program `q` is `p` with the identifiers of `rs[i]` in function number `i`. */
  ghost predicate RenamedProg(sem: Sem, rs: seq<SymbolMaps>, p: CProg<Sym>, q: CProg<string>) {
    && |rs| == |p.funcs| == |q.funcs|
    && forall i | 0 <= i < |rs| :: RenamedFunc(rs[i], p.funcs[i], q.funcs[i]) && SameEnv(sem, rs[i], p, q)
  }

  lemma SetVar(r: SymbolMaps, s: map<Sym, nat>, s': map<string, nat>, v: Sym, bits: nat)
    requires r.Injective() && SameVars(r, s, s') && r.HasVar(v)
    ensures SameVars(r, s[v := bits], s'[r.Get(v) := bits])
  {}

  lemma SameValues(r: SymbolMaps, vs: seq<Sym>, s: CState<Sym>, s': CState<string>)
    requires SameState(r, s, s') && HasAll(r, vs)
    ensures Values(vs, s) == Values(RenameAll(r, vs), s')
  {
    var ws := RenameAll(r, vs);
    if Values(vs, s).Some? {
      forall w | w in ws ensures w in s'.vars {}
      assert Values(vs, s).value == Values(ws, s').value;
    } else {
      var v :| v in vs && v !in s.vars;
      var i :| 0 <= i < |vs| && vs[i] == v;
      assert ws[i] in ws && ws[i] !in s'.vars;
    }
  }

  lemma SameEval(
    sem: Sem, p: CProg<Sym>, q: CProg<string>, r: SymbolMaps, e: CExp<Sym>, s: CState<Sym>, s': CState<string>)
    requires SameState(r, s, s') && CoversExp(r, e) && SameEnv(sem, r, p, q)
    ensures Eval(sem, p, e, s) == Eval(sem, q, RenameExp(r, e), s')
  {}

  lemma SameLabel(r: SymbolMaps, code: seq<Stmt>, l: Sym)
    requires r.Injective() && Covers(r, code) && r.HasVar(l)
    ensures FindLabel(code, l) == FindLabel(RenameCode(r, code), r.Get(l))
  {
    hide CoversStmt, RenameStmt, SymbolMaps.Injective, FindLabel;
    forall i | 0 <= i < |code| ensures code[i] == CLabel(l) <==> RenameCode(r, code)[i] == CLabel(r.Get(l)) {
      LabelStays(r, code[i], l);
    }
  }

  lemma LabelStays(r: SymbolMaps, c: Stmt, l: Sym)
    requires r.Injective() && CoversStmt(r, c) && r.HasVar(l)
    ensures c == CLabel(l) <==> RenameStmt(r, c) == CLabel(r.Get(l))
  {
    hide RenameExp, RenameCode, RenameArms, RenameAll;
  }

  // ----- the simulation -----

  ghost predicate Setting(
    sem: Sem, rs: seq<SymbolMaps>, p: CProg<Sym>, q: CProg<string>, r: SymbolMaps, s: CState<Sym>, s': CState<string>)
  {
    RenamedProg(sem, rs, p, q) && SameEnv(sem, r, p, q) && r.Injective() && SameState(r, s, s')
  }

  lemma RenamedFrom(
    sem: Sem, rs: seq<SymbolMaps>, p: CProg<Sym>, q: CProg<string>, r: SymbolMaps,
    code: seq<Stmt>, pc: nat, s: CState<Sym>, s': CState<string>)
    requires Setting(sem, rs, p, q, r, s, s') && Covers(r, code) && pc <= |code|
    ensures SameResult(r, ExecFrom(sem, p, code, pc, s), ExecFrom(sem, q, RenameCode(r, code), pc, s'))
    decreases s.fuel, 1, code, |code| - pc, 1
  {
    hide ExecStmt, RenamedProg, SameEnv, SymbolMaps.Injective, SameVars, CoversStmt, RenameStmt, Jump;
    if pc < |code| {
      RenamedStmt(sem, rs, p, q, r, code[pc], s, s');
      var x := ExecStmt(sem, p, code[pc], s);
      var y := ExecStmt(sem, q, RenameStmt(r, code[pc]), s');
      match x.out
      case CNormal => RenamedFrom(sem, rs, p, q, r, code, pc + 1, x.st, y.st);
      case CJump(l) => RenamedJump(sem, rs, p, q, r, code, pc, l, x.st, y.st);
      case _ =>
    }
  }

  lemma RenamedJump(
    sem: Sem, rs: seq<SymbolMaps>, p: CProg<Sym>, q: CProg<string>, r: SymbolMaps,
    code: seq<Stmt>, pc: nat, l: Sym, s: CState<Sym>, s': CState<string>)
    requires Setting(sem, rs, p, q, r, s, s') && Covers(r, code) && pc < |code| && r.HasVar(l)
    ensures SameResult(r, Jump(sem, p, code, pc, l, s), Jump(sem, q, RenameCode(r, code), pc, r.Get(l), s'))
    decreases s.fuel, 1, code, |code| - pc, 0
  {
    hide ExecStmt, RenamedProg, SameEnv, SameVars, CoversStmt, RenameStmt, ExecFrom;
    SameLabel(r, code, l);
    match FindLabel(code, l)
    case None =>
    case Some(j) =>
      if j > pc {
        RenamedFrom(sem, rs, p, q, r, code, j, s, s');
      } else if s.fuel > 0 {
        RenamedFrom(sem, rs, p, q, r, code, j, s.(fuel := s.fuel - 1), s'.(fuel := s.fuel - 1));
      }
  }

  lemma RenamedPut(r: SymbolMaps, dst: Sym, v: CValue, s: CState<Sym>, s': CState<string>)
    requires r.Injective() && SameState(r, s, s') && r.HasVar(dst)
    ensures SameResult(r, Put(dst, v, s), Put(r.Get(dst), v, s'))
  {
    if v.Got? { SetVar(r, s.vars, s'.vars, dst, v.bits); }
  }

  /** Statements that run nothing else. */
  lemma {:induction false} RenamedSimple(
    sem: Sem, rs: seq<SymbolMaps>, p: CProg<Sym>, q: CProg<string>, r: SymbolMaps, c: Stmt, s: CState<Sym>,
    s': CState<string>)
    requires !c.CIf? && !c.CSwitch? && !c.CCall? && !c.CCallIndirect?
    requires SameEnv(sem, r, p, q) && r.Injective() && SameState(r, s, s') && CoversStmt(r, c)
    ensures SameResult(r, ExecStmt(sem, p, c, s), ExecStmt(sem, q, RenameStmt(r, c), s'))
  {
    hide SymbolMaps.Injective, Eval;
    match c
    case Assign(dst, rhs) =>
      SameEval(sem, p, q, r, rhs, s, s');
      RenamedPut(r, dst, Eval(sem, p, rhs, s), s, s');
    case AssignOp(dst, op, w) =>
      SameEval(sem, p, q, r, EOp2(op, dst, w), s, s');
      RenamedPut(r, dst, Eval(sem, p, EOp2(op, dst, w), s), s, s');
    case CGrow(dst, v) =>
      if v in s.vars { SetVar(r, s.vars, s'.vars, dst, sem.grow(s.vars[v], s.world.mem).0); }
    case _ =>
  }

  lemma RenamedStmt(
    sem: Sem, rs: seq<SymbolMaps>, p: CProg<Sym>, q: CProg<string>, r: SymbolMaps, c: Stmt, s: CState<Sym>,
    s': CState<string>)
    requires Setting(sem, rs, p, q, r, s, s') && CoversStmt(r, c)
    ensures SameResult(r, ExecStmt(sem, p, c, s), ExecStmt(sem, q, RenameStmt(r, c), s'))
    decreases s.fuel, 1, c, 0
  {
    hide SymbolMaps.Injective, ExecFrom, ExecArms, CallC, RenamedProg, SameEnv;
    match c
    case CIf(v, then_, else_) =>
      if v in s.vars {
        RenamedFrom(sem, rs, p, q, r, if s.vars[v] != 0 then then_ else else_, 0, s, s');
      }
    case CSwitch(v, arms) =>
      if v in s.vars && arms != [] {
        var i := if s.vars[v] < |arms| then s.vars[v] else |arms| - 1;
        RenamedArms(sem, rs, p, q, r, arms, i, s, s');
      }
    case CCall(_, _, _) => RenamedCallStmt(sem, rs, p, q, r, c, s, s');
    case CCallIndirect(_, _, _, _) => RenamedCallStmt(sem, rs, p, q, r, c, s, s');
    case _ => RenamedSimple(sem, rs, p, q, r, c, s, s');
  }

  lemma {:induction false} RenamedCallStmt(
    sem: Sem, rs: seq<SymbolMaps>, p: CProg<Sym>, q: CProg<string>, r: SymbolMaps, c: Stmt, s: CState<Sym>,
    s': CState<string>)
    requires c.CCall? || c.CCallIndirect?
    requires Setting(sem, rs, p, q, r, s, s') && CoversStmt(r, c)
    ensures SameResult(r, ExecStmt(sem, p, c, s), ExecStmt(sem, q, RenameStmt(r, c), s'))
    decreases s.fuel, 0, 1
  {
    hide SymbolMaps.Injective, CallC, RenamedProg, HasAll;
    SameValues(r, c.args, s, s');
    SameCount(sem, rs, p, q);
    var vals := Values(c.args, s);
    if vals.Some? && c.CCall? && c.f in p.fenv && p.fenv[c.f] < |p.funcs| {
      RenamedCall(sem, rs, p, q, r, p.fenv[c.f], q.fenv[r.Get(c.f)], c.res, vals.value, s, s');
    }
    if vals.Some? && c.CCallIndirect? && c.elem in s.vars {
      var t := sem.table(s.vars[c.elem]);
      if t.Some? && t.value < |p.funcs| && p.funcs[t.value].sig == c.sig {
        RenamedCall(sem, rs, p, q, r, t.value, t.value, c.res, vals.value, s, s');
      }
    }
  }

  lemma SameCount(sem: Sem, rs: seq<SymbolMaps>, p: CProg<Sym>, q: CProg<string>)
    requires RenamedProg(sem, rs, p, q)
    ensures |rs| == |p.funcs| == |q.funcs|
    ensures forall i | 0 <= i < |p.funcs| :: p.funcs[i].sig == q.funcs[i].sig
  {
    forall i | 0 <= i < |p.funcs| ensures p.funcs[i].sig == q.funcs[i].sig {
      assert RenamedFunc(rs[i], p.funcs[i], q.funcs[i]);
    }
  }

  lemma RenamedArms(
    sem: Sem, rs: seq<SymbolMaps>, p: CProg<Sym>, q: CProg<string>, r: SymbolMaps,
    arms: seq<Arm<Sym>>, i: nat, s: CState<Sym>, s': CState<string>)
    requires Setting(sem, rs, p, q, r, s, s') && i <= |arms| && forall j | 0 <= j < |arms| :: Covers(r, arms[j].stmts)
    ensures SameResult(r, ExecArms(sem, p, arms, i, s), ExecArms(sem, q, RenameArms(r, arms), i, s'))
    decreases s.fuel, 1, arms, |arms| - i
  {
    hide ExecFrom, RenamedProg, SameEnv, SymbolMaps.Injective, SameVars;
    if i < |arms| {
      RenamedFrom(sem, rs, p, q, r, arms[i].stmts, 0, s, s');
      var x := ExecFrom(sem, p, arms[i].stmts, 0, s);
      var y := ExecFrom(sem, q, RenameCode(r, arms[i].stmts), 0, s');
      if x.out.CNormal? { RenamedArms(sem, rs, p, q, r, arms, i + 1, x.st, y.st); }
    }
  }

  lemma SetOption(
    r: SymbolMaps, res: Option<Sym>, bits: nat, s: CState<Sym>, s': CState<string>, world: World, fuel: nat)
    requires r.Injective() && SameState(r, s, s') && HasOption(r, res)
    ensures SameState(r,
              s.(world := world, fuel := fuel, vars := if res.Some? then s.vars[res.value := bits] else s.vars),
              s'.(world := world, fuel := fuel,
                  vars := if res.Some? then s'.vars[RenameOption(r, res).value := bits] else s'.vars))
  {
    if res.Some? { SetVar(r, s.vars, s'.vars, res.value, bits); }
  }

  lemma RenamedCall(
    sem: Sem, rs: seq<SymbolMaps>, p: CProg<Sym>, q: CProg<string>, r: SymbolMaps,
    i: nat, j: nat, res: Option<Sym>, args: seq<nat>, s: CState<Sym>, s': CState<string>)
    requires Setting(sem, rs, p, q, r, s, s') && HasOption(r, res)
    requires i < |p.funcs| == |q.funcs| && j < |q.funcs| && SameCallee(sem, p, i, j)
    ensures SameResult(r, CallC(sem, p, i, res, args, s), CallC(sem, q, j, RenameOption(r, res), args, s'))
    decreases s.fuel, 0, 0
  {
    hide RunC, SameEnv, SymbolMaps.Injective, SameVars;
    assert RenamedFunc(rs[i], p.funcs[i], q.funcs[i]) && RenamedFunc(rs[j], p.funcs[j], q.funcs[j]);
    match p.funcs[i]
    case CImport(_) =>
      var h := sem.host(i, args, s.world);
      assert h == sem.host(j, args, s.world);
      if h.HostDone? { SetOption(r, res, h.Value(0), s, s', h.world, s.fuel); }
    case CFunc(_, _, _, _, _) =>
      if s.fuel > 0 {
        RenamedRun(sem, rs, p, q, i, args, s.world, s.fuel - 1);
        var c := RunC(sem, p, i, args, s.world, s.fuel - 1);
        if c.out.Normal? && res.Some? && |c.results| == 1 {
          SetOption(r, res, c.results[0], s, s', c.world, c.fuel);
        }
      }
  }

  lemma SameBind(r: SymbolMaps, names: seq<Sym>, values: seq<nat>)
    requires r.Injective() && HasAll(r, names) && |names| == |values|
    ensures SameVars(r, Bind(names, values), Bind(RenameAll(r, names), values))
  {
    if names != [] {
      assert RenameAll(r, names)[1..] == RenameAll(r, names[1..]);
      SameBind(r, names[1..], values[1..]);
      forall v: Sym | r.HasVar(v)
        ensures v in Bind(names, values) <==> r.Get(v) in Bind(RenameAll(r, names), values)
        ensures v in Bind(names, values) ==> Bind(names, values)[v] == Bind(RenameAll(r, names), values)[r.Get(v)]
      {
        BindUnfolds(names, values, v);
        BindUnfolds(RenameAll(r, names), values, r.Get(v));
        assert r.HasVar(names[0]);
        assert v == names[0] <==> r.Get(v) == r.Get(names[0]);
      }
    }
  }

  /** The last binding of a repeated name counts. */
  lemma BindUnfolds<V>(names: seq<V>, values: seq<nat>, v: V)
    requires |names| == |values| && names != []
    ensures v in Bind(names, values) <==> (v == names[0] || v in Bind(names[1..], values[1..]))
    ensures v in Bind(names[1..], values[1..]) ==> Bind(names, values)[v] == Bind(names[1..], values[1..])[v]
    ensures v == names[0] && v !in Bind(names[1..], values[1..]) ==> Bind(names, values)[v] == values[0]
  {}

  /** The state a function starts in. */
  ghost function Entry<V>(f: CFunc<V>, args: seq<nat>, world: World, fuel: nat): CState<V>
    requires f.CFunc? && |args| == |f.params|
  {
    CState(Bind(f.params + f.locals, args + Zeros(|f.locals|)), world, fuel)
  }

  lemma RenameAllConcat(r: SymbolMaps, a: seq<Sym>, b: seq<Sym>)
    ensures RenameAll(r, a + b) == RenameAll(r, a) + RenameAll(r, b)
  {}

  lemma SameEntry(r: SymbolMaps, x: CFunc<Sym>, y: CFunc<string>, args: seq<nat>, world: World, fuel: nat)
    requires x.CFunc? && RenamedFunc(r, x, y) && |args| == |x.params|
    ensures SameState(r, Entry(x, args, world, fuel), Entry(y, args, world, fuel))
  {
    hide Covers, RenameCode, SymbolMaps.Injective, Bind, SameVars, RenameOption, HasAll, HasOption, Zeros;
    SameBind(r, x.params + x.locals, args + Zeros(|x.locals|));
    RenameAllConcat(r, x.params, x.locals);
  }

  lemma RunUnfolds<V>(sem: Sem, p: CProg<V>, i: nat, args: seq<nat>, world: World, fuel: nat)
    requires i < |p.funcs| && p.funcs[i].CFunc? && |args| == |p.funcs[i].params|
    ensures RunC(sem, p, i, args, world, fuel)
         == Finish(ExecFrom(sem, p, p.funcs[i].body, 0, Entry(p.funcs[i], args, world, fuel)), p.funcs[i].result)
  {
    hide ExecFrom, Finish, Bind;
  }

  /** Renaming all functions of a program preserves every run of every function. */
  lemma RenamedRun(
    sem: Sem, rs: seq<SymbolMaps>, p: CProg<Sym>, q: CProg<string>, i: nat, args: seq<nat>, world: World, fuel: nat)
    requires RenamedProg(sem, rs, p, q) && i < |p.funcs| == |q.funcs|
    ensures RunC(sem, p, i, args, world, fuel) == RunC(sem, q, i, args, world, fuel)
    decreases fuel, 2
  {
    hide ExecFrom, RunC, SameEnv, SymbolMaps.Injective, Covers, RenameCode, SameState, SameResult, Finish, Entry,
      HasAll;
    var r, x, y := rs[i], p.funcs[i], q.funcs[i];
    assert RenamedFunc(r, x, y) && SameEnv(sem, r, p, q);
    if x.CFunc? && |args| == |x.params| {
      SameEntry(r, x, y, args, world, fuel);
      var s, s' := Entry(x, args, world, fuel), Entry(y, args, world, fuel);
      assert s.fuel == fuel by { EntryFuel(x, args, world, fuel); }
      RenamedFrom(sem, rs, p, q, r, x.body, 0, s, s');
      RunUnfolds(sem, p, i, args, world, fuel);
      RunUnfolds(sem, q, i, args, world, fuel);
      SameFinish(r, ExecFrom(sem, p, x.body, 0, s), ExecFrom(sem, q, y.body, 0, s'), x.result);
    } else {
      NothingRuns(sem, p, i, args, world, fuel);
      NothingRuns(sem, q, i, args, world, fuel);
    }
  }

  lemma EntryFuel<V>(f: CFunc<V>, args: seq<nat>, world: World, fuel: nat)
    requires f.CFunc? && |args| == |f.params|
    ensures Entry(f, args, world, fuel).fuel == fuel
  {}

  lemma NothingRuns<V>(sem: Sem, p: CProg<V>, i: nat, args: seq<nat>, world: World, fuel: nat)
    requires i < |p.funcs| && (p.funcs[i].CFunc? ==> |args| != |p.funcs[i].params|)
    ensures RunC(sem, p, i, args, world, fuel) == CallResult(Wrong, [], world, fuel)
  {}

  lemma SameFinish(r: SymbolMaps, x: CResult<Sym>, y: CResult<string>, result: Option<Sym>)
    requires SameResult(r, x, y) && HasOption(r, result)
    ensures Finish(x, result) == Finish(y, RenameOption(r, result))
  {}

  // ----- the identifiers of a function -----

  /** All identifiers of variables and labels are among `ids`. */
  ghost predicate Among(r: SymbolMaps, ids: iset<string>) { forall v: Sym | r.HasVar(v) :: r.Get(v) in ids }

  lemma AllAmong(r: SymbolMaps, ids: iset<string>, vs: seq<Sym>)
    requires Among(r, ids) && HasAll(r, vs)
    ensures AllIn(ids, RenameAll(r, vs))
  {
    var ws := RenameAll(r, vs);
    forall w | w in ws ensures w in ids {
      var i :| 0 <= i < |ws| && ws[i] == w;
      assert vs[i] in vs && r.HasVar(vs[i]);
    }
  }

  lemma {:induction false} StmtAmong(r: SymbolMaps, ids: iset<string>, s: Stmt)
    requires Among(r, ids) && CoversStmt(r, s)
    ensures StmtIn(ids, RenameStmt(r, s))
    decreases s
  {
    hide Among, HasAll, AllIn;
    assert forall v: Sym | r.HasVar(v) :: r.Get(v) in ids by { AmongAll(r, ids); }
    match s
    case CCall(_, _, args) => AllAmong(r, ids, args);
    case CCallIndirect(_, _, _, args) => AllAmong(r, ids, args);
    case CIf(_, then_, else_) =>
      CodeAmong(r, ids, then_);
      CodeAmong(r, ids, else_);
    case CSwitch(_, arms) =>
      forall i | 0 <= i < |arms| ensures CodeIn(ids, RenameArms(r, arms)[i].stmts) {
        CodeAmong(r, ids, arms[i].stmts);
      }
    case _ =>
  }

  lemma AmongAll(r: SymbolMaps, ids: iset<string>)
    requires Among(r, ids)
    ensures forall v: Sym | r.HasVar(v) :: r.Get(v) in ids
  {}

  lemma {:induction false} CodeAmong(r: SymbolMaps, ids: iset<string>, code: seq<Stmt>)
    requires Among(r, ids) && Covers(r, code)
    ensures CodeIn(ids, RenameCode(r, code))
    decreases code
  {
    hide Among;
    forall i | 0 <= i < |code| ensures StmtIn(ids, RenameCode(r, code)[i]) {
      StmtAmong(r, ids, code[i]);
    }
  }

  /** A function under chosen identifiers uses no others. */
  lemma FuncAmong(r: SymbolMaps, ids: iset<string>, x: CFunc<Sym>, y: CFunc<string>)
    requires Among(r, ids) && RenamedFunc(r, x, y)
    ensures FuncIn(ids, y)
  {
    hide Among, CodeIn, Covers, HasAll, AllIn, SymbolMaps.Injective;
    assert forall v: Sym | r.HasVar(v) :: r.Get(v) in ids by { AmongAll(r, ids); }
    match x
    case CImport(_) =>
    case CFunc(_, params, locals, body, result) =>
      HasParts(r, params, locals);
      AllAmong(r, ids, params);
      AllAmong(r, ids, locals);
      CodeAmong(r, ids, body);
  }

  lemma HasParts(r: SymbolMaps, a: seq<Sym>, b: seq<Sym>)
    requires HasAll(r, a + b)
    ensures HasAll(r, a) && HasAll(r, b)
  {
    assert forall v | v in a || v in b :: v in a + b;
  }
}

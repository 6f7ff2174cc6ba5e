/** The fragment of C the writer emits, over an arbitrary type `V` of identifiers.

    A function body is a flat list of statements in which labels are statements of their own, just
    as in the emitted text; only `if` and `switch` open a nested list.  A `goto` continues at its
    label in the innermost enclosing list that has it.  As in module `Wasm`, running is made total
    by fuel: a `goto` back and a call cost one unit. */
module CLang {
  import opened Util
  import opened Wasm

  datatype CExp<V> =
    | EVar(v: V)
    | ELit(bits: nat)
    | EOp1(op1: Op1, v: V)
    | EOp2(op2: Op2, v: V, w: V)
    | ECond(c: V, a: V, b: V)
    | EGlobal(g: V)
    | ELoad(mem: MemOp, v: V)
    | ESize

  datatype CStmt<V> =
    | Assign(dst: V, rhs: CExp<V>)
    | AssignOp(dst: V, op: Op2, w: V)
    | SetGlobal(g: V, v: V)
    | CStore(mem: MemOp, addr: V, v: V)
    | CGrow(dst: V, v: V)
    | CCall(res: Option<V>, f: V, args: seq<V>)
    | CCallIndirect(res: Option<V>, sig: FuncSig, elem: V, args: seq<V>)
    | CLabel(l: V)
    | CGoto(l: V)
    | CIf(c: V, then_: seq<CStmt<V>>, else_: seq<CStmt<V>>)
    | CSwitch(v: V, arms: seq<Arm<V>>)
    | CTrap

  /** The statements of one case of a `switch`; the last arm is the default. */
  datatype Arm<V> = Arm(stmts: seq<CStmt<V>>)

  datatype CFunc<V> =
    | CImport(sig: FuncSig)
    | CFunc(sig: FuncSig, params: seq<V>, locals: seq<V>, body: seq<CStmt<V>>, result: Option<V>)

  /** A program: its functions, and which function or global object each identifier declares. */
  datatype CProg<V> = CProg(funcs: seq<CFunc<V>>, fenv: map<V, nat>, genv: map<V, nat>)

  datatype COut<V> = CNormal | CJump(l: V) | CTrapped | CExhausted | CStuck

  datatype CState<V> = CState(vars: map<V, nat>, world: World, fuel: nat)

  datatype CResult<V> = CResult(out: COut<V>, st: CState<V>)

  datatype CValue = Got(bits: nat) | Traps | Undefined

  function FromOption(v: Option<nat>): CValue {
    match v case None => Traps case Some(b) => Got(b)
  }

  function Eval<V(==)>(sem: Sem, p: CProg<V>, e: CExp<V>, s: CState<V>): CValue {
    match e
    case EVar(v) => if v in s.vars then Got(s.vars[v]) else Undefined
    case ELit(bits) => Got(bits)
    case EOp1(op, v) => if v in s.vars then FromOption(sem.apply1(op, s.vars[v])) else Undefined
    case EOp2(op, v, w) =>
      if v in s.vars && w in s.vars then FromOption(sem.apply2(op, s.vars[v], s.vars[w])) else Undefined
    case ECond(c, a, b) =>
      if c !in s.vars then Undefined
      else if s.vars[c] != 0 then (if a in s.vars then Got(s.vars[a]) else Undefined)
      else (if b in s.vars then Got(s.vars[b]) else Undefined)
    case EGlobal(g) => if g in p.genv then Got(s.world.Global(sem.address(p.genv[g]))) else Undefined
    case ELoad(op, v) => if v in s.vars then FromOption(sem.load(op, s.vars[v], s.world.mem)) else Undefined
    case ESize => Got(sem.size(s.world.mem))
  }

  function Put<V(==)>(dst: V, v: CValue, s: CState<V>): CResult<V> {
    match v
    case Got(bits) => CResult(CNormal, s.(vars := s.vars[dst := bits]))
    case Traps => CResult(CTrapped, s)
    case Undefined => CResult(CStuck, s)
  }

  /** The position of the first statement that declares label `l`. */
  function FindLabel<V(==)>(code: seq<CStmt<V>>, l: V): (r: Option<nat>)
    ensures r.Some? ==> r.value < |code| && code[r.value] == CLabel(l)
    ensures r.Some? ==> forall j | 0 <= j < r.value :: code[j] != CLabel(l)
    ensures r.None? ==> CLabel(l) !in code
  {
    if code == [] then None
    else if code[0] == CLabel(l) then Some(0)
    else
      match FindLabel(code[1..], l)
      case None => None
      case Some(j) => Some(j + 1)
  }

  function Values<V(==)>(vs: seq<V>, s: CState<V>): (r: Option<seq<nat>>)
    ensures r.Some? <==> forall v | v in vs :: v in s.vars
    ensures r.Some? ==> |r.value| == |vs| && forall i | 0 <= i < |vs| :: r.value[i] == s.vars[vs[i]]
  {
    if vs == [] then Some([])
    else
      match Values(vs[1..], s)
      case None => assert !(forall v | v in vs[1..] :: v in s.vars); None
      case Some(rest) => if vs[0] in s.vars then Some([s.vars[vs[0]]] + rest) else None
  }

  function ExecFrom<V(==)>(sem: Sem, p: CProg<V>, code: seq<CStmt<V>>, pc: nat, s: CState<V>): (r: CResult<V>)
    requires pc <= |code|
    ensures r.st.fuel <= s.fuel
    decreases s.fuel, 1, code, |code| - pc, 1
  {
    if pc == |code| then CResult(CNormal, s)
    else
      var r := ExecStmt(sem, p, code[pc], s);
      match r.out
      case CNormal => ExecFrom(sem, p, code, pc + 1, r.st)
      case CJump(l) => Jump(sem, p, code, pc, l, r.st)
      case _ => r
  }

  /** Continues a jump to `l` raised by the statement at `pc`. */
  function Jump<V(==)>(sem: Sem, p: CProg<V>, code: seq<CStmt<V>>, pc: nat, l: V, s: CState<V>): (r: CResult<V>)
    requires pc < |code|
    ensures r.st.fuel <= s.fuel
    decreases s.fuel, 1, code, |code| - pc, 0
  {
    match FindLabel(code, l)
    case None => CResult(CJump(l), s)
    case Some(j) =>
      if j > pc then ExecFrom(sem, p, code, j, s)
      else if s.fuel == 0 then CResult(CExhausted, s)
      else ExecFrom(sem, p, code, j, s.(fuel := s.fuel - 1))
  }

  function ExecStmt<V(==)>(sem: Sem, p: CProg<V>, c: CStmt<V>, s: CState<V>): (r: CResult<V>)
    ensures r.st.fuel <= s.fuel
    decreases s.fuel, 1, c
  {
    var stuck := CResult(CStuck, s);
    match c
    case Assign(dst, rhs) => Put(dst, Eval(sem, p, rhs, s), s)
    case AssignOp(dst, op, w) => Put(dst, Eval(sem, p, EOp2(op, dst, w), s), s)
    case SetGlobal(g, v) =>
      if g in p.genv && v in s.vars
        then CResult(CNormal, s.(world := s.world.SetGlobal(sem.address(p.genv[g]), s.vars[v]))) else stuck
    case CStore(op, addr, v) =>
      if addr !in s.vars || v !in s.vars then stuck else
      (match sem.store(op, s.vars[addr], s.vars[v], s.world.mem)
       case None => CResult(CTrapped, s)
       case Some(mem) => CResult(CNormal, s.(world := s.world.(mem := mem))))
    case CGrow(dst, v) =>
      if v !in s.vars then stuck else
      var (r, mem) := sem.grow(s.vars[v], s.world.mem);
      CResult(CNormal, s.(vars := s.vars[dst := r], world := s.world.(mem := mem)))
    case CCall(res, f, args) =>
      (match Values(args, s)
       case None => stuck
       case Some(vals) =>
         if f in p.fenv && p.fenv[f] < |p.funcs| then CallC(sem, p, p.fenv[f], res, vals, s) else stuck)
    case CCallIndirect(res, sig, elem, args) =>
      (match Values(args, s)
       case None => stuck
       case Some(vals) =>
         if elem !in s.vars then stuck else
         match sem.table(s.vars[elem])
         case None => CResult(CTrapped, s)
         case Some(i) =>
           if i < |p.funcs| && p.funcs[i].sig == sig then CallC(sem, p, i, res, vals, s) else CResult(CTrapped, s))
    case CLabel(_) => CResult(CNormal, s)
    case CGoto(l) => CResult(CJump(l), s)
    case CIf(c, then_, else_) =>
      if c !in s.vars then stuck
      else if s.vars[c] != 0 then ExecFrom(sem, p, then_, 0, s)
      else ExecFrom(sem, p, else_, 0, s)
    case CSwitch(v, arms) =>
      if v !in s.vars || arms == [] then stuck
      else ExecArms(sem, p, arms, if s.vars[v] < |arms| then s.vars[v] else |arms| - 1, s)
    case CTrap => CResult(CTrapped, s)
  }

  /** The arms of a `switch` from number `i` on; control falls through from one to the next. */
  function ExecArms<V(==)>(sem: Sem, p: CProg<V>, arms: seq<Arm<V>>, i: nat, s: CState<V>): (r: CResult<V>)
    requires i <= |arms|
    ensures r.st.fuel <= s.fuel
    decreases s.fuel, 1, arms, |arms| - i
  {
    if i == |arms| then CResult(CNormal, s)
    else
      var r := ExecFrom(sem, p, arms[i].stmts, 0, s);
      if r.out.CNormal? then ExecArms(sem, p, arms, i + 1, r.st) else r
  }

  function CallC<V(==)>(sem: Sem, p: CProg<V>, i: nat, res: Option<V>, args: seq<nat>, s: CState<V>): (r: CResult<V>)
    requires i < |p.funcs|
    ensures r.st.fuel <= s.fuel
    decreases s.fuel, 0
  {
    match p.funcs[i]
    case CImport(_) =>
      var h := sem.host(i, args, s.world);
      if h.HostTrap? then CResult(CTrapped, s.(world := h.world))
      else CResult(CNormal, s.(world := h.world, vars := if res.Some? then s.vars[res.value := h.Value(0)] else s.vars))
    case CFunc(_, _, _, _, _) =>
      if s.fuel == 0 then CResult(CExhausted, s)
      else
        var c := RunC(sem, p, i, args, s.world, s.fuel - 1);
        var s' := s.(world := c.world, fuel := c.fuel);
        match c.out
        case Normal =>
          if res.None? then CResult(CNormal, s')
          else if |c.results| == 1 then CResult(CNormal, s'.(vars := s'.vars[res.value := c.results[0]]))
          else CResult(CStuck, s')
        case Trap => CResult(CTrapped, s')
        case Exhausted => CResult(CExhausted, s')
        case _ => CResult(CStuck, s')
  }

  function Bind<V>(names: seq<V>, values: seq<nat>): (r: map<V, nat>)
    requires |names| == |values|
    ensures r.Keys == set v | v in names
  {
    if names == [] then map[] else map[names[0] := values[0]] + Bind(names[1..], values[1..])
  }

  function RunC<V(==)>(sem: Sem, p: CProg<V>, i: nat, args: seq<nat>, world: World, fuel: nat): (r: CallResult)
    requires i < |p.funcs|
    ensures r.fuel <= fuel
    decreases fuel, 2
  {
    match p.funcs[i]
    case CImport(_) => CallResult(Wrong, [], world, fuel)
    case CFunc(_, params, locals, body, result) =>
      if |args| != |params| then CallResult(Wrong, [], world, fuel)
      else
        var vars := Bind(params + locals, args + Zeros(|locals|));
        Finish(ExecFrom(sem, p, body, 0, CState(vars, world, fuel)), result)
  }

  /** What a function whose body ended with `r` returns. */
  function Finish<V(==)>(r: CResult<V>, result: Option<V>): (c: CallResult)
    ensures c.fuel == r.st.fuel
  {
    match r.out
    case CNormal =>
      if result.None? then CallResult(Normal, [], r.st.world, r.st.fuel)
      else if result.value in r.st.vars then CallResult(Normal, [r.st.vars[result.value]], r.st.world, r.st.fuel)
      else CallResult(Wrong, [], r.st.world, r.st.fuel)
    case CTrapped => CallResult(Trap, [], r.st.world, r.st.fuel)
    case CExhausted => CallResult(Exhausted, [], r.st.world, r.st.fuel)
    case _ => CallResult(Wrong, [], r.st.world, r.st.fuel)
  }

  // ----- which variables and labels are used -----

  predicate OptionIn<V>(ids: iset<V>, v: Option<V>) { v.Some? ==> v.value in ids }

  predicate AllIn<V>(ids: iset<V>, vs: seq<V>) { forall v | v in vs :: v in ids }

  predicate ExpIn<V>(ids: iset<V>, e: CExp<V>) {
    match e
    case EVar(v) => v in ids
    case ELit(_) => true
    case EOp1(_, v) => v in ids
    case EOp2(_, v, w) => v in ids && w in ids
    case ECond(c, a, b) => c in ids && a in ids && b in ids
    case EGlobal(_) => true
    case ELoad(_, v) => v in ids
    case ESize => true
  }

  predicate StmtIn<V>(ids: iset<V>, s: CStmt<V>)
    decreases s
  {
    match s
    case Assign(dst, rhs) => dst in ids && ExpIn(ids, rhs)
    case AssignOp(dst, _, w) => dst in ids && w in ids
    case SetGlobal(_, v) => v in ids
    case CStore(_, addr, v) => addr in ids && v in ids
    case CGrow(dst, v) => dst in ids && v in ids
    case CCall(res, _, args) => OptionIn(ids, res) && AllIn(ids, args)
    case CCallIndirect(res, _, elem, args) => OptionIn(ids, res) && elem in ids && AllIn(ids, args)
    case CLabel(l) => l in ids
    case CGoto(l) => l in ids
    case CIf(c, then_, else_) => c in ids && CodeIn(ids, then_) && CodeIn(ids, else_)
    case CSwitch(v, arms) => v in ids && forall i | 0 <= i < |arms| :: CodeIn(ids, arms[i].stmts)
    case CTrap => true
  }

  /** All variables and labels of the code are among `ids`. */
  predicate CodeIn<V>(ids: iset<V>, code: seq<CStmt<V>>)
    decreases code
  {
    forall i | 0 <= i < |code| :: StmtIn(ids, code[i])
  }

  predicate FuncIn<V>(ids: iset<V>, f: CFunc<V>) {
    match f
    case CImport(_) => true
    case CFunc(_, params, locals, body, result) =>
      AllIn(ids, params) && AllIn(ids, locals) && CodeIn(ids, body) && OptionIn(ids, result)
  }
}

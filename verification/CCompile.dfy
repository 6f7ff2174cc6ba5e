/** What the C writer emits for a body, as a function (src/c-writer.cc, Write(const ExprList&)).

    Identifiers are still symbolic here: `Slot(k, t)` is the C variable for operand stack slot `k`
    at type `t`, and `Named(n)` and `GlobalSym(n)` are the entries of the writer's local and global
    symbol maps for the name `n`.  Module `CWriter` gives them C identifiers. */
module CCompile {
  import opened Util
  import opened Wasm
  import opened Validation
  import opened CLang

  datatype Sym = Slot(index: nat, ty: ValType) | Named(name: string) | GlobalSym(gname: string)

  type Stmt = CStmt<Sym>

  const IMPLICIT_FUNC_LABEL := "$Bfunc"

  /** The statements emitted, the type stack afterwards, and which entries of the label stack some
      emitted `goto` refers to. */
  datatype Code = Code(stmts: seq<Stmt>, types: seq<ValType>, used: set<nat>)

  // ----- the type stack -----

  function DropTypes(ts: seq<ValType>, n: nat): seq<ValType> {
    if n <= |ts| then ts[..|ts| - n] else []
  }

  /** The variable for the operand `i` places below the top, at the type on the type stack.  The
      writer asserts that the place exists. */
  function StackVar(ts: seq<ValType>, i: int): Sym {
    var k := |ts| - 1 - i;
    if 0 <= k < |ts| then Slot(k, ts[k]) else Slot(0, I32)
  }

  /** The same place at a given type.  A call without parameters writes to place -1, the first free
      slot: in the source `num_params - 1` wraps around and back again. */
  function StackVarAt(ts: seq<ValType>, i: int, ty: ValType): Sym {
    var k := |ts| - 1 - i;
    Slot(if k < 0 then 0 else k, ty)
  }

  // ----- labels and jumps -----

  /** The entry of the label stack `FindLabel` returns: an index always means the function label,
      and so does a name that is not there. */
  function FindLabelIndex(labels: seq<Label>, x: Var): (r: nat)
    requires labels != []
    ensures r < |labels|
  {
    if x.Index? then 0
    else
      match DepthOfName(Names(labels), x.name)
      case None => 0
      case Some(d) => |labels| - 1 - d
  }

  function GotoSym(x: Var): Sym {
    if x.Index? then Named(IMPLICIT_FUNC_LABEL) else Named(x.name)
  }

  function HasValue(l: Label): bool { !l.kind.LoopLabel? && l.results != [] }

  /** Write(const GotoLabel&): move the carried value to the slot at the label's height, then jump. */
  function GotoStmts(labels: seq<Label>, ts: seq<ValType>, x: Var): seq<Stmt>
    requires labels != []
  {
    var l := labels[FindLabelIndex(labels, x)];
    var dst := |ts| - l.height - 1;
    (if HasValue(l) && dst != 0 then [Assign(StackVarAt(ts, dst, l.results[0]), EVar(StackVar(ts, 0)))] else [])
    + [CGoto(GotoSym(x))]
  }

  // ----- expressions -----

  function VarSym(x: Var): Sym { Named(if x.Name? then x.name else "") }

  function GlobalVar(x: Var): Sym { GlobalSym(if x.Name? then x.name else "") }

  function LocalTypeOf(f: Func, x: Var): ValType {
    if ValidLocal(f, x) then LocalType(f, x) else I32
  }

  function GlobalTypeOf(m: Module, x: Var): ValType {
    match Resolve(GlobalNames(m), x) case None => I32 case Some(i) => m.globals[i].ty
  }

  /** The stack variables of the arguments of a call, first argument first; `skip` operands lie
      above them. */
  function ArgVars(ts: seq<ValType>, n: nat, skip: nat): (r: seq<Sym>)
    ensures |r| == n && forall i | 0 <= i < n :: r[i] == StackVar(ts, n + skip - i - 1)
  {
    seq(n, i requires 0 <= i < n => StackVar(ts, n + skip - i - 1))
  }

  function ResultVar(ts: seq<ValType>, place: int, results: seq<ValType>): Option<Sym> {
    if results == [] then None else Some(StackVarAt(ts, place, results[0]))
  }

  /** Writes `a op= b` for the operators that are infix in C, `a = op(a, b)` for the others. */
  predicate WrittenAsAssignOp(op: Op2) {
    op.Binary? && op.bin in {Add, Sub, Mul, FDiv, And, Or, Xor, Shl, ShrU}
  }

  function CompileSimple(m: Module, f: Func, ts: seq<ValType>, e: Expr): Code {
    match e
    case Const(ty, bits) =>
      var ts' := ts + [ty];
      Code([Assign(StackVar(ts', 0), ELit(bits))], ts', {})
    case Op1Expr(op) =>
      Code([Assign(StackVarAt(ts, 0, op.Result()), EOp1(op, StackVar(ts, 0)))], DropTypes(ts, 1) + [op.Result()], {})
    case Op2Expr(op) =>
      var dst := StackVarAt(ts, 1, op.Result());
      Code([if WrittenAsAssignOp(op) then AssignOp(dst, op, StackVar(ts, 0))
            else Assign(dst, EOp2(op, StackVar(ts, 1), StackVar(ts, 0)))],
           DropTypes(ts, 2) + [op.Result()], {})
    case LocalGet(x) =>
      var ts' := ts + [LocalTypeOf(f, x)];
      Code([Assign(StackVar(ts', 0), EVar(VarSym(x)))], ts', {})
    case LocalSet(x) => Code([Assign(VarSym(x), EVar(StackVar(ts, 0)))], DropTypes(ts, 1), {})
    case LocalTee(x) => Code([Assign(VarSym(x), EVar(StackVar(ts, 0)))], ts, {})
    case GlobalGet(x) =>
      var ts' := ts + [GlobalTypeOf(m, x)];
      Code([Assign(StackVar(ts', 0), EGlobal(GlobalVar(x)))], ts', {})
    case GlobalSet(x) => Code([SetGlobal(GlobalVar(x), StackVar(ts, 0))], DropTypes(ts, 1), {})
    case Load(op) =>
      Code([Assign(StackVarAt(ts, 0, op.ty), ELoad(op, StackVar(ts, 0)))], DropTypes(ts, 1) + [op.ty], {})
    case Store(op) => Code([CStore(op, StackVar(ts, 1), StackVar(ts, 0))], DropTypes(ts, 2), {})
    case MemorySize =>
      var ts' := ts + [I32];
      Code([Assign(StackVar(ts', 0), ESize)], ts', {})
    case MemoryGrow => Code([CGrow(StackVar(ts, 0), StackVar(ts, 0))], ts, {})
    case Drop => Code([], DropTypes(ts, 1), {})
    case Select =>
      Code([Assign(StackVar(ts, 2), ECond(StackVar(ts, 0), StackVar(ts, 2), StackVar(ts, 1)))],
           DropTypes(ts, 3) + (if |ts| >= 2 then [ts[|ts| - 2]] else []), {})
    case Unreachable => Code([CTrap], ts, {})
    case _ => Code([], ts, {})
  }

  function SwitchArms(labels: seq<Label>, ts: seq<ValType>, targets: seq<Var>): (r: seq<Arm<Sym>>)
    requires labels != []
    ensures |r| == |targets| && forall i | 0 <= i < |r| :: r[i] == Arm(GotoStmts(labels, ts, targets[i]))
  {
    seq(|targets|, i requires 0 <= i < |targets| => Arm(GotoStmts(labels, ts, targets[i])))
  }

  /** The labels a branch table refers to. */
  function UsedBy(labels: seq<Label>, targets: seq<Var>): set<nat>
    requires labels != []
  {
    set x | x in targets :: FindLabelIndex(labels, x)
  }

  function LabelDecl(code: Code, i: nat, name: string): seq<Stmt> {
    if i in code.used then [CLabel(Named(name))] else []
  }

  function CompileExpr(m: Module, f: Func, labels: seq<Label>, ts: seq<ValType>, e: Expr): Code
    requires labels != []
    decreases e
  {
    match e
    case Call(x) =>
      var sig := match Resolve(FuncNames(m), x) case None => FuncSig([], []) case Some(i) => m.funcs[i].sig;
      var n := |sig.params|;
      Code([CCall(ResultVar(ts, n - 1, sig.results), GlobalVar(x), ArgVars(ts, n, 0))],
           DropTypes(ts, n) + sig.results, {})
    case CallIndirect(sig) =>
      var n := |sig.params|;
      Code([CCallIndirect(ResultVar(ts, n, sig.results), sig, StackVar(ts, 0), ArgVars(ts, n, 1))],
           DropTypes(ts, n + 1) + sig.results, {})
    case Return => Code(GotoStmts(labels, ts, Index(|labels| - 1)), ts, {0})
    case Br(x) => Code(GotoStmts(labels, ts, x), ts, {FindLabelIndex(labels, x)})
    case BrIf(x) =>
      var ts' := DropTypes(ts, 1);
      Code([CIf(StackVar(ts, 0), GotoStmts(labels, ts', x), [])], ts', {FindLabelIndex(labels, x)})
    case BrTable(targets, default_) =>
      var ts' := DropTypes(ts, 1);
      var all := targets + [default_];
      Code([CSwitch(StackVar(ts, 0), SwitchArms(labels, ts', all))], ts', UsedBy(labels, all))
    case Block(name, results, body) =>
      var c := CompileList(m, f, labels + [Label(BlockLabel, name, results, |ts|)], ts, body);
      Code(c.stmts + LabelDecl(c, |labels|, name), ts + results, c.used - {|labels|})
    case Loop(name, results, body) =>
      if body.Nil? then Code([], ts, {})
      else
        var c := CompileList(m, f, labels + [Label(LoopLabel, name, results, |ts|)], ts, body);
        Code([CLabel(Named(name))] + c.stmts, ts + results, c.used - {|labels|})
    case If(name, results, then_, else_) =>
      var ts' := DropTypes(ts, 1);
      var inner := labels + [Label(IfLabel, name, results, |ts'|)];
      var c := CompileList(m, f, inner, ts', then_);
      var d := if else_.Nil? then Code([], ts', {}) else CompileList(m, f, inner, ts', else_);
      var both := Code(c.stmts, ts', c.used + d.used);
      Code([CIf(StackVar(ts, 0), c.stmts, d.stmts)] + LabelDecl(both, |labels|, name),
           ts' + results, both.used - {|labels|})
    case _ => CompileSimple(m, f, ts, e)
  }

  /** After these the writer stops: the rest of the list is unreachable. */
  predicate Stops(e: Expr) {
    e.Br? || e.BrTable? || e.Return? || e.Unreachable?
  }

  function CompileList(m: Module, f: Func, labels: seq<Label>, ts: seq<ValType>, es: ExprList): Code
    requires labels != []
    decreases es
  {
    match es
    case Nil => Code([], ts, {})
    case Cons(e, rest) =>
      var c := CompileExpr(m, f, labels, ts, e);
      if Stops(e) then c
      else
        var d := CompileList(m, f, labels, c.types, rest);
        Code(c.stmts + d.stmts, d.types, c.used + d.used)
  }

  function LocalSyms(names: seq<string>): (r: seq<Sym>)
    ensures |r| == |names| && forall i | 0 <= i < |r| :: r[i] == Named(names[i])
  {
    seq(|names|, i requires 0 <= i < |names| => Named(names[i]))
  }

  function BodyCode(m: Module, f: Func): Code {
    CompileList(m, f, [FuncLabelOf(f)], [], f.body)
  }

  /** Write(const Func&). */
  function CompileFunc(m: Module, f: Func): CFunc<Sym> {
    if f.imported || |f.localNames| < |f.sig.params| then CImport(f.sig)
    else
      var c := BodyCode(m, f);
      var n := |f.sig.params|;
      CFunc(f.sig, LocalSyms(f.localNames[..n]), LocalSyms(f.localNames[n..]),
            c.stmts + LabelDecl(c, 0, IMPLICIT_FUNC_LABEL),
            ResultVar(f.sig.results, 0, f.sig.results))
  }

  function Env(names: seq<string>): (r: map<Sym, nat>)
    ensures forall n :: GlobalSym(n) in r <==> n in names
    ensures forall n | n in names :: r[GlobalSym(n)] == IndexOf(names, n).value
  {
    map n | n in names :: GlobalSym(n) := IndexOf(names, n).value
  }

  function CompileModule(m: Module): CProg<Sym> {
    CProg(seq(|m.funcs|, i requires 0 <= i < |m.funcs| => CompileFunc(m, m.funcs[i])),
          Env(FuncNames(m)), Env(GlobalNames(m)))
  }

  // ----- what the writer relies on: the form ApplyNames leaves behind -----

  predicate NamedLabel(depth: nat, x: Var) {
    match x
    case Index(d) => d + 1 == depth
    case Name(n) => n != ""
  }

  /** All references are names, except branches to the function label. */
  predicate NamedExpr(depth: nat, e: Expr)
    decreases e
  {
    match e
    case LocalGet(x) => x.Name?
    case LocalSet(x) => x.Name?
    case LocalTee(x) => x.Name?
    case GlobalGet(x) => x.Name?
    case GlobalSet(x) => x.Name?
    case Call(x) => x.Name?
    case Br(x) => NamedLabel(depth, x)
    case BrIf(x) => NamedLabel(depth, x)
    case BrTable(targets, default_) =>
      (forall i | 0 <= i < |targets| :: NamedLabel(depth, targets[i])) && NamedLabel(depth, default_)
    case Block(name, _, body) => NamedList(depth + 1, body)
    case Loop(name, _, body) => NamedList(depth + 1, body)
    case If(name, _, then_, else_) => NamedList(depth + 1, then_) && NamedList(depth + 1, else_)
    case _ => true
  }

  predicate NamedList(depth: nat, es: ExprList)
    decreases es
  {
    es.Cons? ==> NamedExpr(depth, es.head) && NamedList(depth, es.tail)
  }

  /** The names of all labels declared in an expression. */
  function LabelsOf(e: Expr): set<string>
    decreases e
  {
    match e
    case Block(name, _, body) => {name} + LabelsOfList(body)
    case Loop(name, _, body) => {name} + LabelsOfList(body)
    case If(name, _, then_, else_) => {name} + LabelsOfList(then_) + LabelsOfList(else_)
    case _ => {}
  }

  function LabelsOfList(es: ExprList): set<string>
    decreases es
  {
    match es
    case Nil => {}
    case Cons(e, rest) => LabelsOf(e) + LabelsOfList(rest)
  }

  /** No label name is declared twice: C labels have function scope. */
  predicate DistinctLabels(e: Expr)
    decreases e
  {
    match e
    case Block(name, _, body) => name !in LabelsOfList(body) && DistinctLabelsList(body)
    case Loop(name, _, body) => name !in LabelsOfList(body) && DistinctLabelsList(body)
    case If(name, _, then_, else_) =>
      && name !in LabelsOfList(then_) + LabelsOfList(else_)
      && LabelsOfList(then_) !! LabelsOfList(else_)
      && DistinctLabelsList(then_) && DistinctLabelsList(else_)
    case _ => true
  }

  predicate DistinctLabelsList(es: ExprList)
    decreases es
  {
    match es
    case Nil => true
    case Cons(e, rest) =>
      && DistinctLabels(e) && DistinctLabelsList(rest)
      && LabelsOf(e) !! LabelsOfList(rest)
  }

  predicate NoDuplicates(names: seq<string>) {
    forall i, j | 0 <= i < j < |names| :: names[i] != names[j]
  }

  /** A function the writer can translate: names everywhere, no clash among locals and labels. */
  predicate Writable(f: Func) {
    !f.imported ==>
      && NamedList(1, f.body)
      && DistinctLabelsList(f.body)
      && "" !in LabelsOfList(f.body)
      && IMPLICIT_FUNC_LABEL !in LabelsOfList(f.body)
      && NoDuplicates(f.localNames)
  }

  predicate WritableModule(m: Module) {
    forall i | 0 <= i < |m.funcs| :: Writable(m.funcs[i])
  }
}

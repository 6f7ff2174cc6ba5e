/** The optional value used by all modules of this project. */
module Util {
  datatype Option<+T> = None | Some(value: T)

  /** The initial values of `n` locals. */
  function Zeros(n: nat): (r: seq<nat>)
    ensures |r| == n && forall i | 0 <= i < n :: r[i] == 0
  {
    seq(n, _ => 0)
  }

  function Last<T>(s: seq<T>): T
    requires s != []
  {
    s[|s| - 1]
  }
}

/** The WebAssembly intermediate representation the tool works on (src/ir.h), restricted to the
    instructions the C writer supports, together with an execution semantics.

    A function body is a tree of expression lists.  Operators on numbers, memory accesses, host
    functions and the table are parameters (`Sem`): everything proved here holds for any of them.
    Operand values are bit patterns (`nat`); their types are known statically.

    Fuel makes execution total.  It is threaded through a run, and is spent by exactly the steps
    that can make a run infinite: a branch back to a loop, and a call. */
module Wasm {
  import opened Util

  datatype ValType = I32 | I64 | F32 | F64

  /** A reference to a label, local, global or function: by index or by name. */
  datatype Var = Index(index: nat) | Name(name: string)

  datatype UnaryOp =
    | Clz | Ctz | Popcnt | Neg | Abs | Sqrt | Ceil | Floor | FTrunc | Nearest
  datatype ConvertOp =
    | Eqz | ExtendS | ExtendU | Wrap | TruncS | TruncU | ConvertS | ConvertU | Demote | Promote | Reinterpret
  datatype BinaryOp =
    | Add | Sub | Mul | DivS | DivU | FDiv | RemS | RemU | And | Or | Xor
    | Shl | ShrS | ShrU | Rotl | Rotr | Min | Max | Copysign
  datatype CompareOp =
    | Eq | Ne | LtS | LtU | FLt | LeS | LeU | FLe | GtS | GtU | FGt | GeS | GeU | FGe

  /** Opcodes with one and with two operands, with the types they are used at. */
  datatype Op1 = Unary(un: UnaryOp, ty: ValType) | Convert(cv: ConvertOp, from: ValType, to: ValType)
  {
    function Param(): ValType { if Unary? then ty else from }
    function Result(): ValType { if Unary? then ty else to }
  }
  datatype Op2 = Binary(bin: BinaryOp, ty: ValType) | Compare(cmp: CompareOp, cty: ValType)
  {
    function Param(): ValType { if Binary? then ty else cty }
    function Result(): ValType { if Binary? then ty else I32 }
  }

  datatype MemOp = MemOp(ty: ValType, width: nat, signed: bool, offset: nat)

  datatype FuncSig = FuncSig(params: seq<ValType>, results: seq<ValType>)

  datatype Expr =
    | Const(ty: ValType, bits: nat)
    | Op1Expr(op1: Op1)
    | Op2Expr(op2: Op2)
    | LocalGet(x: Var)
    | LocalSet(x: Var)
    | LocalTee(x: Var)
    | GlobalGet(x: Var)
    | GlobalSet(x: Var)
    | Load(mem: MemOp)
    | Store(mem: MemOp)
    | MemorySize
    | MemoryGrow
    | Nop
    | Drop
    | Select
    | Call(x: Var)
    | CallIndirect(sig: FuncSig)
    | Unreachable
    | Return
    | Br(x: Var)
    | BrIf(x: Var)
    | BrTable(targets: seq<Var>, default_: Var)
    | Block(name: string, results: seq<ValType>, body: ExprList)
    | Loop(name: string, results: seq<ValType>, body: ExprList)
    | If(name: string, results: seq<ValType>, then_: ExprList, else_: ExprList)

  datatype ExprList = Nil | Cons(head: Expr, tail: ExprList)

  /** A function.  `localNames[i]` is the name bound to parameter or local number `i`, or "". */
  datatype Func = Func(
    name: string, imported: bool, sig: FuncSig, locals: seq<ValType>, localNames: seq<string>, body: ExprList)
  {
    function LocalTypes(): seq<ValType> { sig.params + locals }
  }

  datatype Global = Global(name: string, ty: ValType)

  datatype Module = Module(funcs: seq<Func>, globals: seq<Global>)

  // ----- references -----

  /** The position of the first occurrence of a name. */
  function IndexOf(names: seq<string>, name: string): (r: Option<nat>)
    ensures r.Some? ==> r.value < |names| && names[r.value] == name && name !in names[..r.value]
    ensures r.None? ==> name !in names
  {
    if names == [] then None
    else if names[0] == name then Some(0)
    else
      match IndexOf(names[1..], name)
      case None => None
      case Some(i) => assert names[..i + 1] == [names[0]] + names[1..][..i]; Some(i + 1)
  }

  function Resolve(names: seq<string>, x: Var): (r: Option<nat>)
    ensures r.Some? ==> r.value < |names|
  {
    match x
    case Index(i) => if i < |names| then Some(i) else None
    case Name(n) => IndexOf(names, n)
  }

  function FuncNames(m: Module): (r: seq<string>)
    ensures |r| == |m.funcs| && forall i | 0 <= i < |r| :: r[i] == m.funcs[i].name
  {
    seq(|m.funcs|, i requires 0 <= i < |m.funcs| => m.funcs[i].name)
  }

  function GlobalNames(m: Module): (r: seq<string>)
    ensures |r| == |m.globals| && forall i | 0 <= i < |r| :: r[i] == m.globals[i].name
  {
    seq(|m.globals|, i requires 0 <= i < |m.globals| => m.globals[i].name)
  }

  /** The position, counted from the innermost label, a branch target denotes.  `labels` lists the
      names of the enclosing labels, innermost last; the implicit function label is the first. */
  function Depth(labels: seq<string>, x: Var): (r: Option<nat>)
    ensures r.Some? ==> r.value < |labels|
  {
    match x
    case Index(d) => if d < |labels| then Some(d) else None
    case Name(n) => DepthOfName(labels, n)
  }

  function DepthOfName(labels: seq<string>, n: string): (r: Option<nat>)
    ensures r.Some? ==> r.value < |labels| && labels[|labels| - 1 - r.value] == n
    ensures r.Some? ==> forall j | |labels| - r.value <= j < |labels| :: labels[j] != n
    ensures r.None? ==> n !in labels
  {
    if labels == [] then None
    else if Last(labels) == n then Some(0)
    else
      match DepthOfName(labels[..|labels| - 1], n)
      case None => None
      case Some(d) => Some(d + 1)
  }

  // ----- execution -----

  type Memory = seq<nat>

  datatype World = World(globals: map<nat, nat>, mem: Memory)
  {
    function Global(i: nat): nat { if i in globals then globals[i] else 0 }
    function SetGlobal(i: nat, v: nat): World { this.(globals := globals[i := v]) }
  }

  /** A host function that returns leaves as many values as its type has results; places beyond
      `values` count as zero. */
  datatype HostResult = HostTrap(world: World) | HostDone(values: seq<nat>, world: World)
  {
    function Value(i: nat): nat
      requires HostDone?
    {
      if i < |values| then values[i] else 0
    }

    function Results(n: nat): (r: seq<nat>)
      requires HostDone?
      ensures |r| == n && forall i | 0 <= i < n :: r[i] == Value(i)
    {
      seq(n, i requires 0 <= i < n => Value(i))
    }
  }

  /** What is left open: the meaning of operators, memory accesses, host calls and the table, and the
      address of each global, since imported globals may be shared.  `None` is a trap. */
  datatype Sem = Sem(
    apply1: (Op1, nat) -> Option<nat>,
    apply2: (Op2, nat, nat) -> Option<nat>,
    load: (MemOp, nat, Memory) -> Option<nat>,
    store: (MemOp, nat, nat, Memory) -> Option<Memory>,
    size: Memory -> nat,
    grow: (nat, Memory) -> (nat, Memory),
    host: (nat, seq<nat>, World) -> HostResult,
    table: nat -> Option<nat>,
    address: nat -> nat)

  /** How a run of an expression ends.  `Wrong` means the body was not valid. */
  datatype Outcome = Normal | Branch(depth: nat) | Trap | Exhausted | Wrong

  datatype State = State(stack: seq<nat>, locals: seq<nat>, world: World, fuel: nat)

  datatype Result = Result(out: Outcome, st: State)

  datatype CallResult = CallResult(out: Outcome, results: seq<nat>, world: World, fuel: nat)

  datatype LabelInfo = LabelInfo(name: string, arity: nat)

  function LabelNames(labels: seq<LabelInfo>): (r: seq<string>)
    ensures |r| == |labels| && forall i | 0 <= i < |r| :: r[i] == labels[i].name
  {
    seq(|labels|, i requires 0 <= i < |labels| => labels[i].name)
  }

  function Push(st: State, v: nat): State { st.(stack := st.stack + [v]) }

  /** The state with the top `n` operands removed. */
  function DropN(st: State, n: nat): State
    requires n <= |st.stack|
  {
    st.(stack := st.stack[..|st.stack| - n])
  }

  /** Operand `i`, counted from the top. */
  function Top(st: State, i: nat): nat
    requires i < |st.stack|
  {
    st.stack[|st.stack| - 1 - i]
  }

  function PushOrTrap(st: State, v: Option<nat>): Result {
    match v
    case None => Result(Trap, st)
    case Some(b) => Result(Normal, Push(st, b))
  }

  /** Instructions without nested expressions, branches or calls. */
  function Step(sem: Sem, m: Module, f: Func, e: Expr, st: State): (r: Result)
    ensures r.st.fuel == st.fuel
    ensures !r.out.Branch?
  {
    var wrong := Result(Wrong, st);
    match e
    case Const(_, bits) => Result(Normal, Push(st, bits))
    case Op1Expr(op) =>
      if |st.stack| < 1 then wrong else PushOrTrap(DropN(st, 1), sem.apply1(op, Top(st, 0)))
    case Op2Expr(op) =>
      if |st.stack| < 2 then wrong else PushOrTrap(DropN(st, 2), sem.apply2(op, Top(st, 1), Top(st, 0)))
    case LocalGet(x) =>
      (match Resolve(f.localNames, x)
       case None => wrong
       case Some(i) => if i < |st.locals| then Result(Normal, Push(st, st.locals[i])) else wrong)
    case LocalSet(x) =>
      (match Resolve(f.localNames, x)
       case None => wrong
       case Some(i) =>
         if i < |st.locals| && |st.stack| >= 1
         then Result(Normal, DropN(st, 1).(locals := st.locals[i := Top(st, 0)])) else wrong)
    case LocalTee(x) =>
      (match Resolve(f.localNames, x)
       case None => wrong
       case Some(i) =>
         if i < |st.locals| && |st.stack| >= 1
         then Result(Normal, st.(locals := st.locals[i := Top(st, 0)])) else wrong)
    case GlobalGet(x) =>
      (match Resolve(GlobalNames(m), x)
       case None => wrong
       case Some(i) => Result(Normal, Push(st, st.world.Global(sem.address(i)))))
    case GlobalSet(x) =>
      (match Resolve(GlobalNames(m), x)
       case None => wrong
       case Some(i) =>
         if |st.stack| >= 1
         then Result(Normal, DropN(st, 1).(world := st.world.SetGlobal(sem.address(i), Top(st, 0)))) else wrong)
    case Load(op) =>
      if |st.stack| < 1 then wrong else PushOrTrap(DropN(st, 1), sem.load(op, Top(st, 0), st.world.mem))
    case Store(op) =>
      if |st.stack| < 2 then wrong else
      (match sem.store(op, Top(st, 1), Top(st, 0), st.world.mem)
       case None => Result(Trap, DropN(st, 2))
       case Some(mem) => Result(Normal, DropN(st, 2).(world := st.world.(mem := mem))))
    case MemorySize => Result(Normal, Push(st, sem.size(st.world.mem)))
    case MemoryGrow =>
      if |st.stack| < 1 then wrong else
      var (r, mem) := sem.grow(Top(st, 0), st.world.mem);
      Result(Normal, Push(DropN(st, 1), r).(world := st.world.(mem := mem)))
    case Nop => Result(Normal, st)
    case Drop => if |st.stack| < 1 then wrong else Result(Normal, DropN(st, 1))
    case Select =>
      if |st.stack| < 3 then wrong else
      Result(Normal, Push(DropN(st, 3), if Top(st, 0) != 0 then Top(st, 2) else Top(st, 1)))
    case Unreachable => Result(Trap, st)
    case _ => wrong
  }

  predicate IsSimple(e: Expr) {
    match e
    case Call(_) => false
    case CallIndirect(_) => false
    case Return => false
    case Br(_) => false
    case BrIf(_) => false
    case BrTable(_, _) => false
    case Block(_, _, _) => false
    case Loop(_, _, _) => false
    case If(_, _, _, _) => false
    case _ => true
  }

  function BranchTo(labels: seq<LabelInfo>, x: Var, st: State): (r: Result)
    ensures r.st == st
  {
    match Depth(LabelNames(labels), x)
    case None => Result(Wrong, st)
    case Some(d) => Result(Branch(d), st)
  }

  /** Leaving a label: a branch to it keeps the top `arity` operands above the operands the
      construct started with; a branch further out is passed on. */
  function Leave(entry: State, arity: nat, r: Result): Result {
    match r.out
    case Branch(d) =>
      if d > 0 then r.(out := Branch(d - 1))
      else if |r.st.stack| < arity then r.(out := Wrong)
      else Result(Normal, r.st.(stack := entry.stack + r.st.stack[|r.st.stack| - arity..]))
    case _ => r
  }

  function ExecList(sem: Sem, m: Module, f: Func, labels: seq<LabelInfo>, es: ExprList, st: State): (r: Result)
    ensures r.st.fuel <= st.fuel
    decreases st.fuel, 1, es
  {
    match es
    case Nil => Result(Normal, st)
    case Cons(e, rest) =>
      var r := ExecExpr(sem, m, f, labels, e, st);
      if r.out.Normal? then ExecList(sem, m, f, labels, rest, r.st) else r
  }

  function ExecExpr(sem: Sem, m: Module, f: Func, labels: seq<LabelInfo>, e: Expr, st: State): (r: Result)
    ensures r.st.fuel <= st.fuel
    decreases st.fuel, 1, e
  {
    var wrong := Result(Wrong, st);
    match e
    case Call(x) =>
      (match Resolve(FuncNames(m), x)
       case None => wrong
       case Some(i) => DoCall(sem, m, i, st))
    case CallIndirect(sig) =>
      if |st.stack| < 1 then wrong else
      (match sem.table(Top(st, 0))
       case None => Result(Trap, DropN(st, 1))
       case Some(i) =>
         if i < |m.funcs| && m.funcs[i].sig == sig then DoCall(sem, m, i, DropN(st, 1))
         else Result(Trap, DropN(st, 1)))
    case Return => if labels == [] then wrong else Result(Branch(|labels| - 1), st)
    case Br(x) => BranchTo(labels, x, st)
    case BrIf(x) =>
      if |st.stack| < 1 then wrong
      else if Top(st, 0) != 0 then BranchTo(labels, x, DropN(st, 1))
      else Result(Normal, DropN(st, 1))
    case BrTable(targets, default_) =>
      if |st.stack| < 1 then wrong
      else if Top(st, 0) < |targets| then BranchTo(labels, targets[Top(st, 0)], DropN(st, 1))
      else BranchTo(labels, default_, DropN(st, 1))
    case Block(name, results, body) =>
      Leave(st, |results|, ExecList(sem, m, f, labels + [LabelInfo(name, |results|)], body, st))
    case Loop(name, results, body) =>
      var r := ExecList(sem, m, f, labels + [LabelInfo(name, 0)], body, st);
      if r.out == Branch(0) then
        if r.st.fuel == 0 then r.(out := Exhausted)
        else ExecExpr(sem, m, f, labels, e, r.st.(stack := st.stack, fuel := r.st.fuel - 1))
      else Leave(st, 0, r)
    case If(name, results, then_, else_) =>
      if |st.stack| < 1 then wrong else
      var s := DropN(st, 1);
      var inner := labels + [LabelInfo(name, |results|)];
      Leave(s, |results|,
        if Top(st, 0) != 0 then ExecList(sem, m, f, inner, then_, s) else ExecList(sem, m, f, inner, else_, s))
    case _ => Step(sem, m, f, e, st)
  }

  /** Calls function number `i` with the operands on top of the stack. */
  function DoCall(sem: Sem, m: Module, i: nat, st: State): (r: Result)
    requires i < |m.funcs|
    ensures r.st.fuel <= st.fuel
    decreases st.fuel, 0
  {
    var sig := m.funcs[i].sig;
    if |st.stack| < |sig.params| then Result(Wrong, st)
    else
      var args := st.stack[|st.stack| - |sig.params|..];
      var s := DropN(st, |sig.params|);
      if m.funcs[i].imported then
        var h := sem.host(i, args, s.world);
        if h.HostTrap? then Result(Trap, s.(world := h.world))
        else Result(Normal, s.(world := h.world, stack := s.stack + h.Results(|sig.results|)))
      else if s.fuel == 0 then Result(Exhausted, s)
      else
        var c := RunFunc(sem, m, i, args, s.world, s.fuel - 1);
        Result(c.out, s.(world := c.world, fuel := c.fuel, stack := s.stack + c.results))
  }

  /** A whole run of function number `i`: locals start at zero, and the function label is the
      outermost one. */
  function RunFunc(sem: Sem, m: Module, i: nat, args: seq<nat>, world: World, fuel: nat): (r: CallResult)
    requires i < |m.funcs|
    ensures r.fuel <= fuel
    ensures !r.out.Branch?
    decreases fuel, 2
  {
    var f := m.funcs[i];
    var st := State([], args + Zeros(|f.locals|), world, fuel);
    var arity := |f.sig.results|;
    var r := Leave(st, arity, ExecList(sem, m, f, [LabelInfo("", arity)], f.body, st));
    if r.out.Normal? && |r.st.stack| == arity then CallResult(Normal, r.st.stack, r.st.world, r.st.fuel)
    else CallResult(if r.out.Normal? || r.out.Branch? then Wrong else r.out, [], r.st.world, r.st.fuel)
  }
}

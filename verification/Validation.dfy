/** Validation of function bodies: the typing rules of section 3.3 of the WebAssembly Core
    Specification for the instructions of module `Wasm`, as the algorithm that keeps a stack of
    operand types.

    `base` is the height of the operand stack where the innermost block started; instructions may
    not reach below it.  After an unconditional branch the rest of a list is dead code, about
    which nothing is demanded. */
module Validation {
  import opened Util
  import opened Wasm

  datatype LabelKind = FuncLabel | BlockLabel | LoopLabel | IfLabel

  /** What is known of an enclosing label: the height of the operand stack where its construct
      started, and the types of its results. */
  datatype Label = Label(kind: LabelKind, name: string, results: seq<ValType>, height: nat)
  {
    /** The types of the operands a branch to this label carries. */
    function BranchTypes(): seq<ValType> { if kind.LoopLabel? then [] else results }
  }

  datatype Typing = Typed(types: seq<ValType>) | Dead | Invalid

  function Names(labels: seq<Label>): (r: seq<string>)
    ensures |r| == |labels| && forall i | 0 <= i < |r| :: r[i] == labels[i].name
  {
    seq(|labels|, i requires 0 <= i < |labels| => labels[i].name)
  }

  predicate EndsWith(base: nat, ts: seq<ValType>, want: seq<ValType>) {
    base + |want| <= |ts| && ts[|ts| - |want|..] == want
  }

  function Apply(base: nat, ts: seq<ValType>, params: seq<ValType>, results: seq<ValType>): Typing {
    if EndsWith(base, ts, params) then Typed(ts[..|ts| - |params|] + results) else Invalid
  }

  /** The label a branch target denotes, as an index into `labels`. */
  function Target(labels: seq<Label>, x: Var): (r: Option<nat>)
    ensures r.Some? ==> r.value < |labels|
  {
    match Depth(Names(labels), x)
    case None => None
    case Some(d) => Some(|labels| - 1 - d)
  }

  predicate ValidBranch(labels: seq<Label>, base: nat, ts: seq<ValType>, x: Var) {
    var i := Target(labels, x);
    i.Some? && EndsWith(base, ts, labels[i.value].BranchTypes())
  }

  predicate ValidLocal(f: Func, x: Var) {
    var i := Resolve(f.localNames, x);
    i.Some? && i.value < |f.LocalTypes()|
  }

  function LocalType(f: Func, x: Var): ValType
    requires ValidLocal(f, x)
  {
    f.LocalTypes()[Resolve(f.localNames, x).value]
  }

  function CheckSimple(m: Module, f: Func, base: nat, ts: seq<ValType>, e: Expr): Typing {
    match e
    case Const(ty, _) => Typed(ts + [ty])
    case Op1Expr(op) => Apply(base, ts, [op.Param()], [op.Result()])
    case Op2Expr(op) => Apply(base, ts, [op.Param(), op.Param()], [op.Result()])
    case LocalGet(x) => if ValidLocal(f, x) then Typed(ts + [LocalType(f, x)]) else Invalid
    case LocalSet(x) => if ValidLocal(f, x) then Apply(base, ts, [LocalType(f, x)], []) else Invalid
    case LocalTee(x) => if ValidLocal(f, x) then Apply(base, ts, [LocalType(f, x)], [LocalType(f, x)]) else Invalid
    case GlobalGet(x) =>
      (match Resolve(GlobalNames(m), x)
       case None => Invalid
       case Some(i) => Typed(ts + [m.globals[i].ty]))
    case GlobalSet(x) =>
      (match Resolve(GlobalNames(m), x)
       case None => Invalid
       case Some(i) => Apply(base, ts, [m.globals[i].ty], []))
    case Load(op) => Apply(base, ts, [I32], [op.ty])
    case Store(op) => Apply(base, ts, [I32, op.ty], [])
    case MemorySize => Typed(ts + [I32])
    case MemoryGrow => Apply(base, ts, [I32], [I32])
    case Nop => Typed(ts)
    case Drop => if base + 1 <= |ts| then Typed(ts[..|ts| - 1]) else Invalid
    case Select =>
      if base + 3 <= |ts| && ts[|ts| - 1] == I32 && ts[|ts| - 2] == ts[|ts| - 3] then Typed(ts[..|ts| - 2]) else Invalid
    case Unreachable => Dead
    case _ => Invalid
  }

  predicate ValidSig(sig: FuncSig) { |sig.results| <= 1 }

  function CheckExpr(m: Module, f: Func, labels: seq<Label>, base: nat, ts: seq<ValType>, e: Expr): Typing
    decreases e
  {
    match e
    case Call(x) =>
      (match Resolve(FuncNames(m), x)
       case None => Invalid
       case Some(i) => Apply(base, ts, m.funcs[i].sig.params, m.funcs[i].sig.results))
    case CallIndirect(sig) => if ValidSig(sig) then Apply(base, ts, sig.params + [I32], sig.results) else Invalid
    case Return => if labels != [] && EndsWith(base, ts, labels[0].BranchTypes()) then Dead else Invalid
    case Br(x) => if ValidBranch(labels, base, ts, x) then Dead else Invalid
    case BrIf(x) =>
      if EndsWith(base, ts, [I32]) && ValidBranch(labels, base, ts[..|ts| - 1], x) then Typed(ts[..|ts| - 1])
        else Invalid
    case BrTable(targets, default_) =>
      if && EndsWith(base, ts, [I32])
         && (forall i | 0 <= i < |targets| :: ValidBranch(labels, base, ts[..|ts| - 1], targets[i]))
         && ValidBranch(labels, base, ts[..|ts| - 1], default_)
      then Dead else Invalid
    case Block(name, results, body) =>
      CheckBody(m, f, labels + [Label(BlockLabel, name, results, |ts|)], ts, results, body)
    case Loop(name, results, body) =>
      CheckBody(m, f, labels + [Label(LoopLabel, name, results, |ts|)], ts, results, body)
    case If(name, results, then_, else_) =>
      if !EndsWith(base, ts, [I32]) then Invalid else
      var rest := ts[..|ts| - 1];
      var inner := labels + [Label(IfLabel, name, results, |rest|)];
      if CheckBody(m, f, inner, rest, results, then_).Invalid? then Invalid
      else CheckBody(m, f, inner, rest, results, else_)
    case _ => CheckSimple(m, f, base, ts, e)
  }

  /** A nested list must produce exactly the declared results, or never reach its end. */
  function CheckBody(
    m: Module, f: Func, labels: seq<Label>, ts: seq<ValType>, results: seq<ValType>, body: ExprList): (r: Typing)
    ensures r == Typed(ts + results) || r.Invalid?
    decreases body, 1
  {
    var r := CheckList(m, f, labels, |ts|, ts, body);
    if |results| <= 1 && (r.Dead? || r == Typed(ts + results)) then Typed(ts + results) else Invalid
  }

  function CheckList(m: Module, f: Func, labels: seq<Label>, base: nat, ts: seq<ValType>, es: ExprList): Typing
    decreases es, 0
  {
    match es
    case Nil => Typed(ts)
    case Cons(e, rest) =>
      match CheckExpr(m, f, labels, base, ts, e)
      case Typed(ts') => CheckList(m, f, labels, base, ts', rest)
      case r => r
  }

  function FuncLabelOf(f: Func): Label { Label(FuncLabel, "", f.sig.results, 0) }

  predicate ValidFunc(m: Module, f: Func) {
    && ValidSig(f.sig)
    && (!f.imported ==>
        && |f.localNames| == |f.LocalTypes()|
        && CheckBody(m, f, [FuncLabelOf(f)], [], f.sig.results, f.body).Typed?)
  }

  predicate ValidModule(m: Module) {
    forall i | 0 <= i < |m.funcs| :: ValidFunc(m, m.funcs[i])
  }
}

/** The binary form of expressions: the writer prints a tree recursively (src/binary-writer.cc,
    WriteExpr), the reader rebuilds it from a flat list of opcodes with a stack of labels
    (src/binary-reader.cc, ReadFunctionBody; src/binary-reader-ir.cc). */
module BinaryCodec {
  import opened Util
  import Wasm
  import opened Powers
  import opened Leb128
  import opened BinaryFormat

  datatype ImmKind = KU32 | KS32 | KS64 | KBits32 | KBits64 | KAlign | KReserved

  function KindOf(i: Imm): ImmKind {
    match i
    case U32(_) => KU32
    case S32(_) => KS32
    case S64(_) => KS64
    case Bits32(_) => KBits32
    case Bits64(_) => KBits64
    case Align(_) => KAlign
    case Reserved => KReserved
  }

  function Kinds(imms: seq<Imm>): (r: seq<ImmKind>)
    ensures |r| == |imms| && forall i | 0 <= i < |r| :: r[i] == KindOf(imms[i])
  {
    seq(|imms|, i requires 0 <= i < |imms| => KindOf(imms[i]))
  }

  const BLOCK: Byte := 0x02
  const LOOP: Byte := 0x03
  const IF: Byte := 0x04
  const ELSE: Byte := 0x05
  const TRY: Byte := 0x06
  const CATCH: Byte := 0x07
  const END: Byte := 0x0b
  const BR_TABLE: Byte := 0x0e
  const SELECT_T: Byte := 0x1c

  predicate IsPrefixByte(b: Byte) { b == 0xfc || b == 0xfd || b == 0xfe }

  /** The immediates of an opcode; `None` for opcodes with a form of their own and unknown ones. */
  function ShapeOf(op: Opcode): Option<seq<ImmKind>> {
    match op
    case Op(c) =>
      if c in {0x00, 0x01, 0x09, 0x0f, 0x1a, 0x1b, 0xd0, 0xd1} || 0x45 <= c <= 0xc4 then Some([])
      else if c in {0x08, 0x0c, 0x0d, 0x10, 0x12, 0xd2} || 0x20 <= c <= 0x26 then Some([KU32])
      else if c in {0x0a, 0x11, 0x13} then Some([KU32, KU32])
      else if 0x28 <= c <= 0x3e then Some([KAlign, KU32])
      else if c == 0x3f || c == 0x40 then Some([KReserved])
      else if c == 0x41 then Some([KS32])
      else if c == 0x42 then Some([KS64])
      else if c == 0x43 then Some([KBits32])
      else if c == 0x44 then Some([KBits64])
      else None
    case Prefixed(p, c) =>
      if p != 0xfc then None
      else if c <= 7 then Some([])
      else if c == 8 then Some([KU32, KReserved])
      else if c in {9, 13, 15, 16, 17} then Some([KU32])
      else if c == 10 then Some([KReserved, KReserved])
      else if c == 11 then Some([KReserved])
      else if c in {12, 14} then Some([KU32, KU32])
      else None
  }

  /** The instructions that need a DataCount section: memory.init and data.drop. */
  predicate UsesDataSegment(op: Opcode) { op == Prefixed(0xfc, 8) || op == Prefixed(0xfc, 9) }

  // ----- writing -----

  /** The bytes of a 32-bit word, least significant first. */
  function Little(v: nat, n: nat): (p: seq<Byte>)
    ensures |p| == n
  {
    if n == 0 then [] else [v % 256] + Little(v / 256, n - 1)
  }

  /** log2_u32. */
  function Log2(x: nat): nat { if x > 1 then 1 + Log2(x / 2) else 0 }

  function AsSigned(bits: nat, W: nat): int
    requires W > 0
  {
    if bits < Pow2(W - 1) then bits else bits - Pow2(W)
  }

  function EncodeImm(i: Imm): seq<Byte> {
    match i
    case U32(v) => EncodeU(v)
    case S32(bits) => EncodeS(AsSigned(bits, 32))
    case S64(bits) => EncodeS(AsSigned(bits, 64))
    case Bits32(v) => Little(v, 4)
    case Bits64(v) => Little(v, 8)
    case Align(bytes) => [Log2(bytes) % 256]
    case Reserved => [0]
  }

  function EncodeImms(imms: seq<Imm>): seq<Byte> {
    if imms == [] then [] else EncodeImm(imms[0]) + EncodeImms(imms[1..])
  }

  function EncodeOpcode(op: Opcode): seq<Byte> {
    match op
    case Op(c) => [c]
    case Prefixed(p, c) => [p] + EncodeU(c)
  }

  function EncodeTargets(xs: seq<nat>): seq<Byte> {
    if xs == [] then [] else EncodeU(xs[0]) + EncodeTargets(xs[1..])
  }

  function TypeCode(t: ValType): int {
    match t case I32 => -1 case I64 => -2 case F32 => -3 case F64 => -4
  }

  const VOID := -64

  /** GetFuncTypeIndex: the first type with this signature. */
  function TypeIndex(types: seq<FuncSig>, sig: FuncSig): (r: Option<nat>)
    ensures r.Some? ==> r.value < |types| && types[r.value] == sig
  {
    if types == [] then None
    else if types[0] == sig then Some(0)
    else match TypeIndex(types[1..], sig) case None => None case Some(i) => Some(i + 1)
  }

  /** The number WriteBlockDecl writes: a type code, or the index of a function type. */
  function SigCode(types: seq<FuncSig>, sig: FuncSig): int {
    if sig.params == [] && |sig.results| <= 1 then (if sig.results == [] then VOID else TypeCode(sig.results[0]))
    else match TypeIndex(types, sig) case None => 0xffff_ffff case Some(i) => i
  }

  function EncodeExpr(types: seq<FuncSig>, e: Expr): (p: seq<Byte>)
    ensures p != []
    decreases e
  {
    match e
    case Instr(op, imms) => EncodeOpcode(op) + EncodeImms(imms)
    case BrTable(targets, default_) => [BR_TABLE] + EncodeU(|targets|) + EncodeTargets(targets) + EncodeU(default_)
    case TypedSelect(ty) => [SELECT_T] + EncodeU(1) + EncodeS(TypeCode(ty))
    case Block(sig, body) => [BLOCK] + EncodeS(SigCode(types, sig)) + EncodeList(types, body) + [END]
    case Loop(sig, body) => [LOOP] + EncodeS(SigCode(types, sig)) + EncodeList(types, body) + [END]
    case If(sig, then_, else_) =>
      [IF] + EncodeS(SigCode(types, sig)) + EncodeList(types, then_)
      + (if else_ == [] then [] else [ELSE] + EncodeList(types, else_)) + [END]
    case Try(sig, body, catch_) =>
      [TRY] + EncodeS(SigCode(types, sig)) + EncodeList(types, body) + [CATCH] + EncodeList(types, catch_) + [END]
  }

  function EncodeList(types: seq<FuncSig>, es: seq<Expr>): seq<Byte>
    decreases es
  {
    if es == [] then [] else EncodeExpr(types, es[0]) + EncodeList(types, es[1..])
  }

  // ----- what can be written -----

  predicate ValidImm(i: Imm) {
    match i
    case U32(v) => v < Pow2(32)
    case S32(bits) => bits < Pow2(32)
    case S64(bits) => bits < Pow2(64)
    case Bits32(v) => v < Pow2(32)
    case Bits64(v) => v < Pow2(64)
    case Align(bytes) => exists k: nat :: k < 32 && bytes == Pow2(k)
    case Reserved => true
  }

  predicate ValidSig(types: seq<FuncSig>, sig: FuncSig) {
    (sig.params == [] && |sig.results| <= 1) || (sig in types && |types| <= 0x7fff_ffff)
  }

  /** Immediates in range and alignments that are powers of two. */
  predicate ValidExpr(types: seq<FuncSig>, e: Expr)
    decreases e
  {
    match e
    case Instr(op, imms) =>
      && ShapeOf(op) == Some(Kinds(imms)) && (op.Prefixed? ==> op.code < Pow2(32))
      && forall i | 0 <= i < |imms| :: ValidImm(imms[i])
    case BrTable(targets, default_) =>
      && |targets| < Pow2(32) && default_ < Pow2(32) && forall i | 0 <= i < |targets| :: targets[i] < Pow2(32)
    case TypedSelect(ty) => true
    case Block(sig, body) => ValidSig(types, sig) && ValidList(types, body)
    case Loop(sig, body) => ValidSig(types, sig) && ValidList(types, body)
    case If(sig, then_, else_) => ValidSig(types, sig) && ValidList(types, then_) && ValidList(types, else_)
    case Try(sig, body, catch_) => ValidSig(types, sig) && ValidList(types, body) && ValidList(types, catch_)
  }

  predicate ValidList(types: seq<FuncSig>, es: seq<Expr>)
    decreases es
  {
    forall i | 0 <= i < |es| :: ValidExpr(types, es[i])
  }

  // ----- reading: the label stack -----

  datatype LabelType = FuncLabel | BlockLabel | LoopLabel | IfLabel | ElseLabel | TryLabel | CatchLabel

  /** An open list.  The expression it belongs to is the last one of the list below it on the stack;
      that expression's copy of the list is brought up to date when the label is popped. */
  datatype Label = Label(kind: LabelType, exprs: seq<Expr>)

  function Append(stack: seq<Label>, e: Expr): (r: seq<Label>)
    requires stack != []
    ensures |r| == |stack| && r[..|r| - 1] == stack[..|stack| - 1]
  {
    var top := stack[|stack| - 1];
    stack[..|stack| - 1] + [top.(exprs := top.exprs + [e])]
  }

  /** The expression with one of its lists filled in. */
  function Fill(e: Expr, kind: LabelType, es: seq<Expr>): Option<Expr> {
    match kind
    case BlockLabel => if e.Block? then Some(Block(e.sig, es)) else None
    case LoopLabel => if e.Loop? then Some(Loop(e.sig, es)) else None
    case IfLabel => if e.If? then Some(If(e.sig, es, e.else_)) else None
    case ElseLabel => if e.If? then Some(If(e.sig, e.then_, es)) else None
    case TryLabel => if e.Try? then Some(Try(e.sig, es, e.catch_)) else None
    case CatchLabel => if e.Try? then Some(Try(e.sig, e.body, es)) else None
    case FuncLabel => None
  }

  /** The stack below the top, with the list on top in its place. */
  function Pop(stack: seq<Label>): (r: Option<seq<Label>>)
    ensures r.Some? ==> |r.value| == |stack| - 1 > 0
  {
    if |stack| < 2 || stack[|stack| - 2].exprs == [] then None
    else
      var top, parent := stack[|stack| - 1], stack[|stack| - 2];
      match Fill(Last(parent.exprs), top.kind, top.exprs)
      case None => None
      case Some(e) => Some(stack[..|stack| - 2] + [parent.(exprs := parent.exprs[..|parent.exprs| - 1] + [e])])
  }

  /** OnElseExpr and OnCatchExpr: the top label goes on with the other list of the same expression. */
  function Switch(stack: seq<Label>, from: LabelType, to: LabelType): Option<seq<Label>> {
    if |stack| < 2 || stack[|stack| - 1].kind != from then None
    else match Pop(stack) case None => None case Some(s) => Some(s + [Label(to, [])])
  }

  // ----- reading: immediates -----

  /** The bytes left after some were read. */
  predicate IsRest(rest: seq<Byte>, p: seq<Byte>) { |rest| <= |p| && rest == p[|p| - |rest|..] }

  /** A value and the bytes after it. */
  datatype Got<T> = Got(value: T, rest: seq<Byte>) | Bad

  function GetU32(p: seq<Byte>): (r: Got<nat>)
    ensures r.Got? ==> |r.rest| < |p| && IsRest(r.rest, p)
  {
    ReadU32Exact(p);
    DecodeULength(32, p);
    match ReadU32(p) case None => Bad case Some(r) => Got(r.value, p[r.length..])
  }

  lemma {:induction false} DecodeULength(N: nat, p: seq<Byte>)
    ensures var r := DecodeU(N, p); r.Some? ==> 0 < r.value.length <= |p|
    decreases |p|
  {
    if p != [] && p[0] >= 128 && N > 7 { DecodeULength(N - 7, p[1..]); }
  }

  lemma {:induction false} DecodeSLength(N: nat, p: seq<Byte>)
    requires N > 0
    ensures var r := DecodeS(N, p); r.Some? ==> 0 < r.value.length <= |p|
    decreases |p|
  {
    if p != [] && p[0] >= 128 && N > 7 { DecodeSLength(N - 7, p[1..]); }
  }

  /** A signed number as the word that holds it. */
  function GetS32(p: seq<Byte>): (r: Got<int>)
    ensures r.Got? ==> |r.rest| < |p| && IsRest(r.rest, p)
  {
    ReadS32Exact(p);
    DecodeSLength(32, p);
    match ReadS32(p) case None => Bad case Some(r) => Got(r.value, p[r.length..])
  }

  function GetS64(p: seq<Byte>): (r: Got<int>)
    ensures r.Got? ==> |r.rest| < |p| && IsRest(r.rest, p)
  {
    ReadS64Exact(p);
    DecodeSLength(64, p);
    match ReadS64(p) case None => Bad case Some(r) => Got(r.value, p[r.length..])
  }

  function FromLittle(p: seq<Byte>): nat {
    if p == [] then 0 else p[0] + 256 * FromLittle(p[1..])
  }

  function GetLittle(p: seq<Byte>, n: nat): (r: Got<nat>)
    requires n > 0
    ensures r.Got? ==> |r.rest| < |p| && IsRest(r.rest, p)
  {
    if |p| < n then Bad else Got(FromLittle(p[..n]), p[n..])
  }

  function GetImm(k: ImmKind, p: seq<Byte>): (r: Got<Imm>)
    ensures r.Got? ==> |r.rest| < |p| && IsRest(r.rest, p)
  {
    match k
    case KU32 => (match GetU32(p) case Bad => Bad case Got(v, rest) => Got(U32(v), rest))
    case KS32 => (match GetS32(p) case Bad => Bad case Got(v, rest) => if v < 0 then Bad else Got(S32(v), rest))
    case KS64 => (match GetS64(p) case Bad => Bad case Got(v, rest) => if v < 0 then Bad else Got(S64(v), rest))
    case KBits32 => (match GetLittle(p, 4) case Bad => Bad case Got(v, rest) => Got(Bits32(v), rest))
    case KBits64 => (match GetLittle(p, 8) case Bad => Bad case Got(v, rest) => Got(Bits64(v), rest))
    case KAlign => (match GetU32(p) case Bad => Bad case Got(v, rest) => Got(Align(Pow2(v)), rest))
    case KReserved => if p == [] || p[0] != 0 then Bad else Got(Reserved, p[1..])
  }

  function GetImms(ks: seq<ImmKind>, p: seq<Byte>): (r: Got<seq<Imm>>)
    ensures r.Got? ==> IsRest(r.rest, p)
    decreases |ks|
  {
    if ks == [] then Got([], p)
    else
      match GetImm(ks[0], p)
      case Bad => Bad
      case Got(i, rest) =>
        match GetImms(ks[1..], rest)
        case Bad => Bad
        case Got(is_, rest') => Got([i] + is_, rest')
  }

  function GetTargets(n: nat, p: seq<Byte>): (r: Got<seq<nat>>)
    ensures r.Got? ==> IsRest(r.rest, p)
    decreases n
  {
    if n == 0 then Got([], p)
    else
      match GetU32(p)
      case Bad => Bad
      case Got(x, rest) =>
        match GetTargets(n - 1, rest)
        case Bad => Bad
        case Got(xs, rest') => Got([x] + xs, rest')
  }

  /** A type code in the low word of a signed number. */
  function TypeOf(v: int): Option<ValType> {
    if v == 0xffff_ffff then Some(Wasm.I32)
    else if v == 0xffff_fffe then Some(Wasm.I64)
    else if v == 0xffff_fffd then Some(Wasm.F32)
    else if v == 0xffff_fffc then Some(Wasm.F64)
    else None
  }

  /** ReadType, IsBlockType and SetBlockDeclaration. */
  function GetSig(types: seq<FuncSig>, p: seq<Byte>): (r: Got<FuncSig>)
    ensures r.Got? ==> |r.rest| < |p| && IsRest(r.rest, p)
  {
    match GetS32(p)
    case Bad => Bad
    case Got(v, rest) =>
      if v == 0xffff_ffc0 then Got(Wasm.FuncSig([], []), rest)
      else if TypeOf(v).Some? then Got(Wasm.FuncSig([], [TypeOf(v).value]), rest)
      else if 0 <= v < |types| && v < 0x8000_0000 then Got(types[v], rest)
      else Bad
  }

  function GetOpcode(p: seq<Byte>): (r: Got<Opcode>)
    ensures r.Got? ==> |r.rest| < |p| && IsRest(r.rest, p)
  {
    if p == [] then Bad
    else if IsPrefixByte(p[0]) then
      (match GetU32(p[1..]) case Bad => Bad case Got(c, rest) => Got(Prefixed(p[0], c), rest))
    else Got(Op(p[0]), p[1..])
  }

  // ----- reading: bodies -----

  /** What a callback leaves: the new stack and the rest of the bytes. */
  datatype Step = Next(stack: seq<Label>, rest: seq<Byte>) | Done(stack: seq<Label>) | Failed

  function OpenList(stack: seq<Label>, e: Expr, kind: LabelType): seq<Label>
    requires stack != []
  {
    Append(stack, e) + [Label(kind, [])]
  }

  function OnSwitch(s: Option<seq<Label>>, rest: seq<Byte>): Step {
    match s case None => Failed case Some(stack) => Next(stack, rest)
  }

  predicate StepOk(r: Step, p: seq<Byte>) { r.Next? ==> |r.rest| <= |p| && r.stack != [] && IsRest(r.rest, p) }

  /** OnBlockExpr, OnLoopExpr, OnIfExpr and OnTryExpr. */
  function ReadOpen(types: seq<FuncSig>, op: Byte, p: seq<Byte>, stack: seq<Label>): (r: Step)
    requires stack != []
    ensures StepOk(r, p)
  {
    match GetSig(types, p)
    case Bad => Failed
    case Got(sig, rest) =>
      if op == BLOCK then Next(OpenList(stack, Block(sig, []), BlockLabel), rest)
      else if op == LOOP then Next(OpenList(stack, Loop(sig, []), LoopLabel), rest)
      else if op == IF then Next(OpenList(stack, If(sig, [], []), IfLabel), rest)
      else Next(OpenList(stack, Try(sig, [], []), TryLabel), rest)
  }

  function ReadBrTable(p: seq<Byte>, stack: seq<Label>): (r: Step)
    requires stack != []
    ensures StepOk(r, p)
  {
    match GetU32(p)
    case Bad => Failed
    case Got(n, rest1) =>
      match GetTargets(n, rest1)
      case Bad => Failed
      case Got(xs, rest2) =>
        match GetU32(rest2)
        case Bad => Failed
        case Got(d, rest3) => Next(Append(stack, BrTable(xs, d)), rest3)
  }

  function ReadTypedSelect(p: seq<Byte>, stack: seq<Label>): (r: Step)
    requires stack != []
    ensures StepOk(r, p)
  {
    match GetU32(p)
    case Bad => Failed
    case Got(n, rest1) =>
      if n != 1 then Failed else
      match GetS32(rest1)
      case Bad => Failed
      case Got(v, rest2) =>
        match TypeOf(v) case None => Failed case Some(t) => Next(Append(stack, TypedSelect(t)), rest2)
  }

  function ReadInstr(op: Opcode, p: seq<Byte>, stack: seq<Label>): (r: Step)
    requires stack != []
    ensures StepOk(r, p)
  {
    match ShapeOf(op)
    case None => Failed
    case Some(ks) =>
      match GetImms(ks, p)
      case Bad => Failed
      case Got(imms, rest) => Next(Append(stack, Instr(op, imms)), rest)
  }

  /** The callback of an opcode that was just read. */
  function ReadOp(types: seq<FuncSig>, op: Opcode, rest: seq<Byte>, stack: seq<Label>): (r: Step)
    requires stack != []
    ensures StepOk(r, rest)
  {
    hide ReadInstr, ReadOpen, ReadBrTable, ReadTypedSelect;
    if op.Prefixed? then ReadInstr(op, rest, stack)
    else if op.byte in {BLOCK, LOOP, IF, TRY} then ReadOpen(types, op.byte, rest, stack)
    else if op.byte == ELSE then OnSwitch(Switch(stack, IfLabel, ElseLabel), rest)
    else if op.byte == CATCH then OnSwitch(Switch(stack, TryLabel, CatchLabel), rest)
    else if op.byte == END then (if rest == [] then Done(stack) else OnSwitch(Pop(stack), rest))
    else if op.byte == BR_TABLE then ReadBrTable(rest, stack)
    else if op.byte == SELECT_T then ReadTypedSelect(rest, stack)
    else ReadInstr(op, rest, stack)
  }

  /** One round of the loop of ReadFunctionBody. */
  function ReadOne(types: seq<FuncSig>, p: seq<Byte>, stack: seq<Label>): (r: Step)
    requires stack != []
    ensures r.Next? ==> |r.rest| < |p| && r.stack != [] && IsRest(r.rest, p)
  {
    hide ReadOp, GetOpcode;
    match GetOpcode(p)
    case Bad => Failed
    case Got(op, rest) => ReadOp(types, op, rest, stack)
  }

  /** ReadFunctionBody: the list of the function, or nothing when it is malformed. */
  function ReadBody(types: seq<FuncSig>, p: seq<Byte>, stack: seq<Label>): Option<seq<Label>>
    requires stack != []
    decreases |p|
  {
    match ReadOne(types, p, stack)
    case Failed => None
    case Done(s) => Some(s)
    case Next(s, rest) => ReadBody(types, rest, s)
  }

  /** The lists that are still open become those of their expressions. */
  function CloseAll(stack: seq<Label>): Option<seq<Expr>>
    requires stack != []
    decreases |stack|
  {
    if |stack| == 1 then Some(stack[0].exprs)
    else match Pop(stack) case None => None case Some(s) => CloseAll(s)
  }

  /** The tree of a function body.  The last `end` ends the function, whatever is open. */
  function ReadTree(types: seq<FuncSig>, p: seq<Byte>): Option<seq<Expr>> {
    match ReadBody(types, p, [Label(FuncLabel, [])])
    case None => None
    case Some(stack) => if stack == [] then None else CloseAll(stack)
  }

  /** The loop itself.  `offset` is the reader's position in the body. */
  method ReadFunctionBody(types: seq<FuncSig>, body: seq<Byte>) returns (es: Option<seq<Expr>>)
    ensures es == ReadTree(types, body)
  {
    hide ReadOne;
    var labelStack := [Label(FuncLabel, [])];
    var offset := 0;
    while offset < |body|
      invariant 0 <= offset <= |body| && labelStack != []
      invariant ReadBody(types, body, [Label(FuncLabel, [])]) == ReadBody(types, body[offset..], labelStack)
      decreases |body| - offset
    {
      var step := ReadOne(types, body[offset..], labelStack);
      if step.Failed? {
        return None;
      }
      if step.Done? {
        if step.stack == [] {
          return None;
        }
        return CloseAll(step.stack);
      }
      labelStack := step.stack;
      assert step.rest == body[|body| - |step.rest|..];
      offset := |body| - |step.rest|;
    }
    assert body[offset..] == [];
    NothingLeft(types, labelStack);
    es := None;
  }

  lemma NothingLeft(types: seq<FuncSig>, stack: seq<Label>)
    requires stack != []
    ensures ReadBody(types, [], stack) == None
  {}

  // ----- numbers, read wherever they stand -----

  lemma {:induction false} DecodeUMore(N: nat, p: seq<Byte>, rest: seq<Byte>)
    requires DecodeU(N, p).Some?
    ensures DecodeU(N, p + rest) == DecodeU(N, p)
    decreases |p|
  {
    if p[0] >= 128 {
      assert (p + rest)[1..] == p[1..] + rest;
      DecodeUMore(N - 7, p[1..], rest);
    }
  }

  lemma {:induction false} DecodeSMore(N: nat, p: seq<Byte>, rest: seq<Byte>)
    requires N > 0 && DecodeS(N, p).Some?
    ensures DecodeS(N, p + rest) == DecodeS(N, p)
    decreases |p|
  {
    if p[0] >= 128 {
      assert (p + rest)[1..] == p[1..] + rest;
      DecodeSMore(N - 7, p[1..], rest);
    }
  }

  lemma U32In(a: seq<Byte>, v: nat, rest: seq<Byte>)
    requires Unsigned(a, v)
    ensures GetU32(a + rest) == Got(v, rest)
  {
    hide DecodeU;
    DecodeUMore(32, a, rest);
    ReadU32Exact(a + rest);
  }

  lemma S32In(a: seq<Byte>, v: int, rest: seq<Byte>)
    requires SignedOf(32, a, v)
    ensures GetS32(a + rest) == Got(if v < 0 then v + 0x1_0000_0000 else v, rest)
  {
    hide DecodeS;
    DecodeSMore(32, a, rest);
    ReadS32Exact(a + rest);
    Word32();
  }

  lemma S64In(a: seq<Byte>, v: int, rest: seq<Byte>)
    requires SignedOf(64, a, v)
    ensures GetS64(a + rest) == Got(if v < 0 then v + 0x1_0000_0000_0000_0000 else v, rest)
  {
    hide DecodeS;
    DecodeSMore(64, a, rest);
    ReadS64Exact(a + rest);
    Word64();
  }

  lemma Word64()
    ensures Pow2(64) == 0x1_0000_0000_0000_0000
  {
    Word32();
    Pow2Add(32, 32);
  }

  lemma {:induction false} DecodeSBounds(N: nat, p: seq<Byte>)
    requires N > 0
    ensures var r := DecodeS(N, p); r.Some? ==> -(Pow2(N - 1) as int) <= r.value.value < Pow2(N - 1)
    decreases |p|
  {
    hide Pow2;
    if p != [] && p[0] >= 128 && N > 7 {
      DecodeSBounds(N - 7, p[1..]);
      Pow2Add(7, N - 8);
      Seven();
    }
  }

  lemma CodeByteIs(b: Byte, p: seq<Byte>)
    requires 64 <= b < 128
    ensures CodeByte(b, p) <==> SignedOf(32, p, b as int - 128)
  {
    hide Pow2;
    Word31();
    if |p| == 1 {
      assert p == [p[0]] && DecodeS(25, p[1..]) == None;
    }
  }

  lemma HalfWord(k: nat)
    requires k > 0
    ensures Pow2(k) == 2 * Pow2(k - 1)
  {}

  lemma Word31()
    ensures Pow2(31) == 0x8000_0000 && Pow2(32) == 0x1_0000_0000
  {
    Word32();
    HalfWord(32);
  }

  // ----- immediates, read wherever they stand -----

  lemma LittleIs4(p: seq<Byte>)
    requires |p| == 4
    ensures Word4(p, FromLittle(p))
  {
    assert p[1..][1..] == p[2..] && p[2..][1..] == p[3..] && p[3..][1..] == [];
    assert FromLittle(p[3..]) == Number(p[3]);
    assert FromLittle(p[2..]) == Number(p[2]) + 256 * Number(p[3]);
    assert FromLittle(p[1..]) == Number(p[1]) + 256 * FromLittle(p[2..]);
  }

  lemma LittleIs8(p: seq<Byte>)
    requires |p| == 8
    ensures Word8(p, FromLittle(p))
  {
    hide FromLittle;
    LittleIs4(p[..4]);
    LittleIs4(p[4..]);
    FromLittleSplit(p);
  }

  lemma FromLittleSplit(p: seq<Byte>)
    requires |p| == 8
    ensures FromLittle(p) == FromLittle(p[..4]) + 0x1_0000_0000 * FromLittle(p[4..])
  {
    LittleStep(p, 4);
    LittleStep(p[1..], 3);
    LittleStep(p[2..], 2);
    LittleStep(p[3..], 1);
    assert p[1..][1..] == p[2..] && p[2..][1..] == p[3..] && p[3..][1..] == p[4..];
    assert p[1..][..3][1..] == p[2..][..2] && p[2..][..2][1..] == p[3..][..1] && p[3..][..1][1..] == [];
    assert p[..4][1..] == p[1..][..3];
  }

  lemma LittleStep(p: seq<Byte>, n: nat)
    requires 0 < n <= |p|
    ensures FromLittle(p) == Number(p[0]) + 256 * FromLittle(p[1..])
    ensures FromLittle(p[..n]) == Number(p[0]) + 256 * FromLittle(p[..n][1..])
  {}

  lemma Word8Unique(p: seq<Byte>, v: nat, w: nat)
    requires Word8(p, v) && Word8(p, w)
    ensures v == w
  {}

  /** The kind of an immediate decides how it is read. */
  lemma ImmIn(i: Imm, a: seq<Byte>, rest: seq<Byte>)
    requires ImmBytes(i, a)
    ensures GetImm(KindOf(i), a + rest) == Got(i, rest)
  {
    hide GetU32, GetS32, GetS64, FromLittle, Word4, Word8, Unsigned, SignedOf, Pow2;
    match i
    case U32(v) => U32In(a, v, rest);
    case S32(bits) =>
      var n :| SignedOf(32, a, n) && bits == if n < 0 then n + 0x1_0000_0000 else n;
      S32In(a, n, rest);
    case S64(bits) =>
      var n :| SignedOf(64, a, n) && bits == if n < 0 then n + 0x1_0000_0000_0000_0000 else n;
      S64In(a, n, rest);
    case Bits32(v) =>
      Word4Length(a, v);
      LittleIs4(a);
      assert (a + rest)[..4] == a && (a + rest)[4..] == rest;
    case Bits64(v) =>
      Word8Length(a, v);
      LittleIs8(a);
      Word8Unique(a, v, FromLittle(a));
      assert (a + rest)[..8] == a && (a + rest)[8..] == rest;
    case Align(bytes) =>
      var k: nat :| Unsigned(a, k) && bytes == Pow2(k);
      U32In(a, k, rest);
    case Reserved => assert ([0] + rest)[1..] == rest;
  }

  lemma Word4Length(p: seq<Byte>, v: nat)
    requires Word4(p, v)
    ensures |p| == 4 && forall w: nat :: Word4(p, w) ==> w == v
  {}

  lemma Word8Length(p: seq<Byte>, v: nat)
    requires Word8(p, v)
    ensures |p| == 8
  {}

  lemma KindsSplit(imms: seq<Imm>)
    requires imms != []
    ensures Kinds(imms)[0] == KindOf(imms[0]) && Kinds(imms)[1..] == Kinds(imms[1..])
  {
    hide KindOf;
  }

  lemma {:induction false} ImmsIn(imms: seq<Imm>, p: seq<Byte>, rest: seq<Byte>)
    requires Immediates(imms, p)
    ensures GetImms(Kinds(imms), p + rest) == Got(imms, rest)
    decreases |imms|
  {
    hide GetImm, ImmBytes, KindOf, Kinds, IsRest;
    if imms == [] {
      assert p + rest == rest;
    } else {
      var a, b :| p == a + b && ImmBytes(imms[0], a) && Immediates(imms[1..], b);
      assert p + rest == a + (b + rest);
      ImmIn(imms[0], a, b + rest);
      KindsSplit(imms);
      ImmsIn(imms[1..], b, rest);
      assert [imms[0]] + imms[1..] == imms;
    }
  }

  lemma {:induction false} TargetsIn(xs: seq<nat>, p: seq<Byte>, rest: seq<Byte>)
    requires Targets(xs, p)
    ensures GetTargets(|xs|, p + rest) == Got(xs, rest)
    decreases |xs|
  {
    hide GetU32, Unsigned, IsRest;
    if xs == [] {
      assert p + rest == rest;
    } else {
      var a, b := FirstTarget(xs, p);
      assert p + rest == a + (b + rest);
      U32In(a, xs[0], b + rest);
      TargetsIn(xs[1..], b, rest);
      assert [xs[0]] + xs[1..] == xs;
    }
  }

  lemma FirstTarget(xs: seq<nat>, p: seq<Byte>) returns (a: seq<Byte>, b: seq<Byte>)
    requires xs != [] && Targets(xs, p)
    ensures p == a + b && Unsigned(a, xs[0]) && Targets(xs[1..], b)
  {
    hide Unsigned;
    a, b :| p == a + b && Unsigned(a, xs[0]) && Targets(xs[1..], b);
  }

  lemma TypeIn(t: ValType, a: seq<Byte>, rest: seq<Byte>)
    requires ValueType(t, a)
    ensures var g := GetS32(a + rest); g.Got? && TypeOf(g.value) == Some(t) && g.rest == rest
  {
    hide GetS32, SignedOf;
    var b: Byte := match t case I32 => 0x7f case I64 => 0x7e case F32 => 0x7d case F64 => 0x7c;
    CodeByteIs(b, a);
    S32In(a, b as int - 128, rest);
  }

  lemma SigIn(types: seq<FuncSig>, sig: FuncSig, a: seq<Byte>, rest: seq<Byte>)
    requires BlockType(types, sig, a)
    ensures GetSig(types, a + rest) == Got(sig, rest)
  {
    hide GetS32, SignedOf, ValueType, CodeByte;
    if sig.params == [] && sig.results == [] && CodeByte(0x40, a) {
      CodeByteIs(0x40, a);
      S32In(a, -64, rest);
    } else if sig.params == [] && |sig.results| == 1 && ValueType(sig.results[0], a) {
      TypeIn(sig.results[0], a, rest);
      assert sig.results == [sig.results[0]];
      NotVoid();
    } else {
      var i :| 0 <= i < |types| && types[i] == sig && SignedOf(32, a, i);
      IndexBelow(a, i);
      S32In(a, i, rest);
    }
  }

  lemma NotVoid()
    ensures TypeOf(0xffff_ffc0) == None
  {}

  lemma IndexBelow(a: seq<Byte>, i: nat)
    requires SignedOf(32, a, i)
    ensures i < 0x8000_0000
  {
    DecodeSBounds(32, a);
    Word31();
  }

  /** The two tables of forms agree. */
  lemma FormsAgree(op: Opcode, imms: seq<Imm>)
    ensures ShapeOf(op) == Some(Kinds(imms))
       <==> match op case Op(c) => OneByteForm(c, imms) case Prefixed(f, c) => f == 0xfc && PrefixedForm(c, imms)
  {
    var ks := Kinds(imms);
    if |imms| == 1 { assert ks == [KindOf(imms[0])]; }
    if |imms| == 2 { assert ks == [KindOf(imms[0]), KindOf(imms[1])]; }
    ReservedIs(imms);
  }

  lemma ReservedIs(imms: seq<Imm>)
    ensures imms == [Reserved] <==> |imms| == 1 && KindOf(imms[0]) == KReserved
    ensures imms == [Reserved, Reserved]
       <==> |imms| == 2 && KindOf(imms[0]) == KReserved && KindOf(imms[1]) == KReserved
  {}

  // ----- trees, read wherever they stand -----

  /** The list that is open on top of the stack with more expressions. */
  function AppendAll(stack: seq<Label>, es: seq<Expr>): (r: seq<Label>)
    requires stack != []
    ensures |r| == |stack|
  {
    var top := stack[|stack| - 1];
    stack[..|stack| - 1] + [top.(exprs := top.exprs + es)]
  }

  lemma AppendTwice(stack: seq<Label>, es: seq<Expr>, e: Expr)
    requires stack != []
    ensures Append(AppendAll(stack, es), e) == AppendAll(stack, es + [e])
  {
    var top := stack[|stack| - 1];
    assert (top.exprs + es) + [e] == top.exprs + (es + [e]);
  }

  lemma AppendNone(stack: seq<Label>)
    requires stack != []
    ensures AppendAll(stack, []) == stack
  {
    assert stack[|stack| - 1].exprs + [] == stack[|stack| - 1].exprs;
    assert stack[..|stack| - 1] + [stack[|stack| - 1]] == stack;
  }

  lemma OneStep(types: seq<FuncSig>, p: seq<Byte>, stack: seq<Label>, stack': seq<Label>, rest: seq<Byte>)
    requires stack != [] && ReadOne(types, p, stack) == Next(stack', rest)
    ensures ReadBody(types, p, stack) == ReadBody(types, rest, stack')
  {
    hide ReadOne;
  }

  /** A list that was filled in below a label. */
  lemma PopFilled(stack: seq<Label>, e: Expr, kind: LabelType, es: seq<Expr>, filled: Expr)
    requires stack != [] && Fill(e, kind, es) == Some(filled)
    ensures Pop(AppendAll(OpenList(stack, e, kind), es)) == Some(Append(stack, filled))
    ensures |AppendAll(OpenList(stack, e, kind), es)| >= 2
    ensures Last(AppendAll(OpenList(stack, e, kind), es)).kind == kind
  {
    hide Fill;
    var s := AppendAll(OpenList(stack, e, kind), es);
    var top := stack[|stack| - 1];
    assert s == stack[..|stack| - 1] + [top.(exprs := top.exprs + [e]), Label(kind, [] + es)];
    assert [] + es == es;
    assert (top.exprs + [e])[..|top.exprs|] == top.exprs;
  }

  function OpeningOf(op: Byte): LabelType {
    if op == 0x02 then BlockLabel else if op == 0x03 then LoopLabel else if op == 0x04 then IfLabel else TryLabel
  }

  function EmptyOf(op: Byte, sig: FuncSig): Expr {
    if op == 0x02 then Block(sig, []) else if op == 0x03 then Loop(sig, []) else if op == 0x04 then If(sig, [], [])
    else Try(sig, [], [])
  }

  /** 0x02, 0x03, 0x04 and 0x06 open a list. */
  lemma OpenIn(types: seq<FuncSig>, op: Byte, sig: FuncSig, a: seq<Byte>, rest: seq<Byte>, stack: seq<Label>)
    requires stack != [] && BlockType(types, sig, a) && op in {0x02, 0x03, 0x04, 0x06}
    ensures ReadOne(types, [op] + a + rest, stack) == Next(OpenList(stack, EmptyOf(op, sig), OpeningOf(op)), rest)
  {
    hide GetSig, BlockType, GetU32;
    assert ([op] + a + rest)[1..] == a + rest;
    SigIn(types, sig, a, rest);
  }

  /** The end of a nested list. */
  lemma EndBack(
    types: seq<FuncSig>, rest: seq<Byte>, stack: seq<Label>, e: Expr, kind: LabelType, es: seq<Expr>, filled: Expr)
    requires stack != [] && rest != [] && Fill(e, kind, es) == Some(filled)
    ensures ReadOne(types, [0x0b] + rest, AppendAll(OpenList(stack, e, kind), es)) == Next(Append(stack, filled), rest)
  {
    hide Fill, Pop;
    PopFilled(stack, e, kind, es, filled);
    assert ([0x0b] + rest)[1..] == rest;
  }

  /** `else` and `catch`: the first list is complete, the other one is open. */
  lemma SwitchBack(
    types: seq<FuncSig>, rest: seq<Byte>, stack: seq<Label>, e: Expr, es: seq<Expr>, filled: Expr, isElse: bool)
    requires stack != [] && Fill(e, if isElse then IfLabel else TryLabel, es) == Some(filled)
    ensures ReadOne(types, [if isElse then 0x05 else 0x07] + rest,
                    AppendAll(OpenList(stack, e, if isElse then IfLabel else TryLabel), es))
         == Next(OpenList(stack, filled, if isElse then ElseLabel else CatchLabel), rest)
  {
    hide Fill, Pop;
    var kind := if isElse then IfLabel else TryLabel;
    PopFilled(stack, e, kind, es, filled);
    assert ([if isElse then 0x05 else 0x07] + rest)[1..] == rest;
  }

  lemma NotSpecial(op: Opcode)
    requires ShapeOf(op).Some?
    ensures op.Prefixed? || op.byte !in {BLOCK, LOOP, IF, ELSE, TRY, CATCH, END, BR_TABLE, SELECT_T}
    ensures op.Op? ==> !IsPrefixByte(op.byte)
  {}

  lemma InstrIn(types: seq<FuncSig>, op: Opcode, imms: seq<Imm>, p: seq<Byte>, rest: seq<Byte>, stack: seq<Label>)
    requires InstrBytes(op, imms, p) && stack != []
    ensures ReadOne(types, p + rest, stack) == Next(Append(stack, Instr(op, imms)), rest)
  {
    hide GetImms, GetSig, GetTargets, GetU32, GetS32, ShapeOf, Append, ReadOpen, ReadBrTable, ReadTypedSelect, Switch,
      Pop, Unsigned, Immediates, OneByteForm, PrefixedForm, Kinds;
    FormsAgree(op, imms);
    NotSpecial(op);
    match op
    case Op(c) =>
      var a :| p == [c] + a && Immediates(imms, a);
      assert p + rest == [c] + (a + rest) && ([c] + (a + rest))[1..] == a + rest;
      ImmsIn(imms, a, rest);
    case Prefixed(f, c) =>
      var a, b :| p == [0xfc] + a + b && Unsigned(a, c) && Immediates(imms, b);
      assert p + rest == [0xfc] + (a + (b + rest)) && ([0xfc] + (a + (b + rest)))[1..] == a + (b + rest);
      U32In(a, c, b + rest);
      ImmsIn(imms, b, rest);
  }

  lemma BrTableIn(types: seq<FuncSig>, xs: seq<nat>, d: nat, p: seq<Byte>, rest: seq<Byte>, stack: seq<Label>)
    requires ExprBytes(types, BrTable(xs, d), p) && stack != []
    ensures ReadOne(types, p + rest, stack) == Next(Append(stack, BrTable(xs, d)), rest)
  {
    hide GetTargets, GetU32, Unsigned, Targets, ReadInstr, ReadOpen, ReadTypedSelect;
    var a, b, c :| p == [0x0e] + a + b + c && Unsigned(a, |xs|) && Targets(xs, b) && Unsigned(c, d);
    assert p + rest == [0x0e] + (a + (b + (c + rest)));
    assert (p + rest)[1..] == a + (b + (c + rest));
    U32In(a, |xs|, b + (c + rest));
    TargetsIn(xs, b, c + rest);
    U32In(c, d, rest);
  }

  lemma SelectIn(types: seq<FuncSig>, t: ValType, p: seq<Byte>, rest: seq<Byte>, stack: seq<Label>)
    requires ExprBytes(types, TypedSelect(t), p) && stack != []
    ensures ReadOne(types, p + rest, stack) == Next(Append(stack, TypedSelect(t)), rest)
  {
    hide GetU32, GetS32, Unsigned, ValueType, ReadInstr, ReadOpen, ReadBrTable, TypeOf;
    var a, b :| p == [0x1c] + a + b && Unsigned(a, 1) && ValueType(t, b);
    assert p + rest == [0x1c] + (a + (b + rest));
    assert (p + rest)[1..] == a + (b + rest);
    U32In(a, 1, b + rest);
    TypeIn(t, b, rest);
  }

  lemma LeafIn(types: seq<FuncSig>, e: Expr, p: seq<Byte>, rest: seq<Byte>, stack: seq<Label>)
    requires (e.Instr? || e.BrTable? || e.TypedSelect?) && ExprBytes(types, e, p) && stack != []
    ensures ReadOne(types, p + rest, stack) == Next(Append(stack, e), rest)
  {
    hide ReadOne, InstrBytes;
    match e
    case Instr(op, imms) => InstrIn(types, op, imms, p, rest, stack);
    case BrTable(xs, d) => BrTableIn(types, xs, d, p, rest, stack);
    case TypedSelect(t) => SelectIn(types, t, p, rest, stack);
  }

  /** The bytes of an expression, whatever follows, append it to the open list. */
  lemma {:induction false} ExprIn(types: seq<FuncSig>, e: Expr, p: seq<Byte>, rest: seq<Byte>, stack: seq<Label>)
    requires ExprBytes(types, e, p) && stack != [] && rest != []
    ensures ReadBody(types, p + rest, stack) == ReadBody(types, rest, Append(stack, e))
    decreases e, 1
  {
    hide ReadBody, ReadOne, Append, ListBytes, BlockType;
    match e
    case Block(sig, body) =>
      var a, b :| p == [0x02] + a + b + [0x0b] && BlockType(types, sig, a) && ListBytes(types, body, b);
      Regroup(0x02, a, b, rest);
      OneListIn(types, e, EmptyOf(0x02, sig), 0x02, sig, body, a, b, rest, stack);
    case Loop(sig, body) =>
      var a, b :| p == [0x03] + a + b + [0x0b] && BlockType(types, sig, a) && ListBytes(types, body, b);
      Regroup(0x03, a, b, rest);
      OneListIn(types, e, EmptyOf(0x03, sig), 0x03, sig, body, a, b, rest, stack);
    case If(_, _, _) => BranchedIn(types, e, p, rest, stack);
    case Try(_, _, _) => BranchedIn(types, e, p, rest, stack);
    case _ =>
      LeafIn(types, e, p, rest, stack);
      OneStep(types, p + rest, stack, Append(stack, e), rest);
  }

  lemma Regroup(op: Byte, a: seq<Byte>, b: seq<Byte>, rest: seq<Byte>)
    ensures ([op] + a + b + [0x0b]) + rest == [op] + a + (b + ([0x0b] + rest))
  {}

  lemma RegroupTwo(op: Byte, a: seq<Byte>, b: seq<Byte>, mid: Byte, c: seq<Byte>, rest: seq<Byte>)
    ensures ([op] + a + b + [mid] + c + [0x0b]) + rest == [op] + a + (b + ([mid] + (c + ([0x0b] + rest))))
  {
    var x := [op] + a + b;
    assert (x + [mid] + c + [0x0b]) + rest == x + ([mid] + (c + ([0x0b] + rest)));
  }

  /** The parts of an `if` or a `try`: with one list, or with both. */
  lemma ExprParts(types: seq<FuncSig>, e: Expr, p: seq<Byte>)
    returns (two: bool, a: seq<Byte>, b: seq<Byte>, c: seq<Byte>)
    requires (e.If? || e.Try?) && ExprBytes(types, e, p)
    ensures var op: Byte, mid: Byte := if e.If? then 0x04 else 0x06, if e.If? then 0x05 else 0x07;
            p == if two then [op] + a + b + [mid] + c + [0x0b] else [op] + a + b + [0x0b]
    ensures BlockType(types, e.sig, a) && ListBytes(types, if e.If? then e.then_ else e.body, b)
    ensures if two then ListBytes(types, if e.If? then e.else_ else e.catch_, c)
            else (if e.If? then e.else_ else e.catch_) == []
  {
    hide BlockType, ListBytes;
    if e.If? {
      if x, y :| e.else_ == [] && p == [0x04] + x + y + [0x0b] && BlockType(types, e.sig, x)
                 && ListBytes(types, e.then_, y) {
        two, a, b, c := false, x, y, [];
      } else {
        two := true;
        a, b, c :| p == [0x04] + a + b + [0x05] + c + [0x0b] && BlockType(types, e.sig, a)
                   && ListBytes(types, e.then_, b) && ListBytes(types, e.else_, c);
      }
    } else {
      if x, y :| e.catch_ == [] && p == [0x06] + x + y + [0x0b] && BlockType(types, e.sig, x)
                 && ListBytes(types, e.body, y) {
        two, a, b, c := false, x, y, [];
      } else {
        two := true;
        a, b, c :| p == [0x06] + a + b + [0x07] + c + [0x0b] && BlockType(types, e.sig, a)
                   && ListBytes(types, e.body, b) && ListBytes(types, e.catch_, c);
      }
    }
  }

  lemma BranchedIn(types: seq<FuncSig>, e: Expr, p: seq<Byte>, rest: seq<Byte>, stack: seq<Label>)
    requires (e.If? || e.Try?) && ExprBytes(types, e, p) && stack != [] && rest != []
    ensures ReadBody(types, p + rest, stack) == ReadBody(types, rest, Append(stack, e))
    decreases e, 0, 1
  {
    hide ReadBody, Append, ListBytes, BlockType, ExprBytes;
    var two, a, b, c := ExprParts(types, e, p);
    var op: Byte, mid: Byte := if e.If? then 0x04 else 0x06, if e.If? then 0x05 else 0x07;
    var es, fs := if e.If? then e.then_ else e.body, if e.If? then e.else_ else e.catch_;
    if two {
      RegroupTwo(op, a, b, mid, c, rest);
      TwoListsIn(types, e, if e.If? then If(e.sig, es, []) else Try(e.sig, es, []), e.sig, es, fs, e.If?, a, b, c, op,
        mid, rest, stack);
    } else {
      Regroup(op, a, b, rest);
      OneListIn(types, e, EmptyOf(op, e.sig), op, e.sig, es, a, b, rest, stack);
    }
  }

  lemma OpenNotEmpty(stack: seq<Label>, e: Expr, kind: LabelType)
    requires stack != []
    ensures OpenList(stack, e, kind) != []
  {}

  lemma OneListIn(
    types: seq<FuncSig>, e: Expr, empty: Expr, op: Byte, sig: FuncSig, es: seq<Expr>, a: seq<Byte>, b: seq<Byte>,
    rest: seq<Byte>, stack: seq<Label>)
    requires op in {0x02, 0x03, 0x04, 0x06} && BlockType(types, sig, a) && ListBytes(types, es, b)
    requires empty == EmptyOf(op, sig) && Fill(empty, OpeningOf(op), es) == Some(e) && stack != [] && rest != []
    ensures ReadBody(types, [op] + a + (b + ([0x0b] + rest)), stack) == ReadBody(types, rest, Append(stack, e))
    decreases es, 1
  {
    hide ReadBody, ReadOne, Append, OpenList, AppendAll, Fill, ListBytes, BlockType, EmptyOf;
    var after := [0x0b] + rest;
    var open_ := OpenList(stack, empty, OpeningOf(op));
    OpenIn(types, op, sig, a, b + after, stack);
    OneStep(types, [op] + a + (b + after), stack, open_, b + after);
    OpenNotEmpty(stack, empty, OpeningOf(op));
    ListIn(types, es, b, after, open_);
    EndBack(types, rest, stack, empty, OpeningOf(op), es, e);
    OneStep(types, after, AppendAll(open_, es), Append(stack, e), rest);
  }

  lemma TwoListsIn(
    types: seq<FuncSig>, e: Expr, half: Expr, sig: FuncSig, es: seq<Expr>, fs: seq<Expr>, isElse: bool, a: seq<Byte>,
    b: seq<Byte>, c: seq<Byte>, op: Byte, mid: Byte, rest: seq<Byte>, stack: seq<Label>)
    requires op == (if isElse then 0x04 else 0x06) && mid == if isElse then 0x05 else 0x07
    requires BlockType(types, sig, a) && ListBytes(types, es, b) && ListBytes(types, fs, c) && stack != [] && rest != []
    requires half == (if isElse then If(sig, es, []) else Try(sig, es, []))
    requires e == if isElse then If(sig, es, fs) else Try(sig, es, fs)
    ensures ReadBody(types, [op] + a + (b + ([mid] + (c + ([0x0b] + rest)))), stack)
         == ReadBody(types, rest, Append(stack, e))
    decreases e, 0, 0
  {
    hide ReadBody, ReadOne, Append, OpenList, AppendAll, ListBytes, BlockType;
    var end := [0x0b] + rest;
    var after := [mid] + (c + end);
    var empty, kind := EmptyOf(op, sig), OpeningOf(op);
    var kind2 := if isElse then ElseLabel else CatchLabel;
    var open_, open2 := OpenList(stack, empty, kind), OpenList(stack, half, kind2);
    OpenIn(types, op, sig, a, b + after, stack);
    OneStep(types, [op] + a + (b + after), stack, open_, b + after);
    OpenNotEmpty(stack, empty, kind);
    ListIn(types, es, b, after, open_);
    SwitchBack(types, c + end, stack, empty, es, half, isElse);
    OneStep(types, after, AppendAll(open_, es), open2, c + end);
    OpenNotEmpty(stack, half, kind2);
    ListIn(types, fs, c, end, open2);
    EndBack(types, rest, stack, half, kind2, fs, e);
    OneStep(types, end, AppendAll(open2, fs), Append(stack, e), rest);
  }

  lemma {:induction false} ListIn(
    types: seq<FuncSig>, es: seq<Expr>, p: seq<Byte>, rest: seq<Byte>, stack: seq<Label>)
    requires ListBytes(types, es, p) && stack != [] && rest != []
    ensures ReadBody(types, p + rest, stack) == ReadBody(types, rest, AppendAll(stack, es))
    decreases es, 0
  {
    hide ReadBody, ExprBytes, Append, AppendAll;
    if es == [] {
      assert p + rest == rest;
      AppendNone(stack);
    } else {
      var n := |es| - 1;
      var a, b :| p == a + b && ListBytes(types, es[..n], a) && ExprBytes(types, es[n], b);
      assert p + rest == a + (b + rest);
      ListIn(types, es[..n], a, b + rest, stack);
      assert AppendAll(stack, es[..n]) != [];
      ExprIn(types, es[n], b, rest, AppendAll(stack, es[..n]));
      AppendTwice(stack, es[..n], es[n]);
      assert es[..n] + [es[n]] == es;
    }
  }

  lemma LastEnd(types: seq<FuncSig>, stack: seq<Label>)
    requires stack != []
    ensures ReadBody(types, [0x0b], stack) == Some(stack)
  {
    assert [END][1..] == [];
  }

  // ----- what is written is in the format -----

  lemma UnsignedForm(v: nat)
    requires v < Pow2(32)
    ensures Unsigned(EncodeU(v), v)
  {
    URoundTrip(32, v, []);
    assert EncodeU(v) + [] == EncodeU(v);
  }

  lemma SignedForm(N: nat, v: int)
    requires N > 0 && -(Pow2(N - 1) as int) <= v < Pow2(N - 1)
    ensures SignedOf(N, EncodeS(v), v)
  {
    SRoundTrip(N, v, []);
    assert EncodeS(v) + [] == EncodeS(v);
  }

  lemma U32Back(v: nat, rest: seq<Byte>)
    requires v < Pow2(32)
    ensures GetU32(EncodeU(v) + rest) == Got(v, rest)
  {
    UnsignedForm(v);
    U32In(EncodeU(v), v, rest);
  }

  lemma {:induction false} LittleBack(v: nat, n: nat)
    requires v < Pow2(8 * n)
    ensures FromLittle(Little(v, n)) == v
    decreases n
  {
    hide Pow2;
    if n > 0 {
      Pow2Add(8, 8 * (n - 1));
      Eight();
      DivBelow(v, 256, Pow2(8 * (n - 1)));
      LittleBack(v / 256, n - 1);
    } else {
      One();
    }
  }

  lemma Eight()
    ensures Pow2(8) == 256
  {}

  lemma LogOfPower(k: nat)
    ensures Log2(Pow2(k)) == k
  {}

  lemma {:induction false} ImmForm(i: Imm)
    requires ValidImm(i)
    ensures ImmBytes(i, EncodeImm(i))
  {
    hide Pow2, Unsigned, SignedOf, EncodeU, EncodeS, Little, FromLittle, Word4, Word8;
    Word31();
    match i
    case U32(v) => UnsignedForm(v);
    case S32(bits) =>
      HalfWord(32);
      SignedForm(32, AsSigned(bits, 32));
      assert SignedOf(32, EncodeImm(i), AsSigned(bits, 32));
    case S64(bits) =>
      HalfWord(64);
      Word64();
      SignedForm(64, AsSigned(bits, 64));
      assert SignedOf(64, EncodeImm(i), AsSigned(bits, 64));
    case Bits32(v) =>
      LittleBack(v, 4);
      LittleIs4(Little(v, 4));
    case Bits64(v) =>
      LittleBack(v, 8);
      LittleIs8(Little(v, 8));
    case Align(bytes) =>
      var k: nat :| k < 32 && bytes == Pow2(k);
      LogOfPower(k);
      Small(32);
      UnsignedForm(k);
      assert EncodeU(k) == [k] by { OneByte(k); }
      assert Unsigned(EncodeImm(i), k);
    case Reserved =>
  }

  lemma OneByte(k: nat)
    requires k < 128
    ensures EncodeU(k) == [k]
  {}

  /** Every immediate reads back. */
  lemma ImmBack(i: Imm, rest: seq<Byte>)
    requires ValidImm(i)
    ensures GetImm(KindOf(i), EncodeImm(i) + rest) == Got(i, rest)
  {
    hide ImmBytes, EncodeImm, GetImm;
    ImmForm(i);
    ImmIn(i, EncodeImm(i), rest);
  }

  /** An alignment is kept exactly if it is a power of two. */
  lemma AlignExactly(bytes: nat, rest: seq<Byte>)
    requires 0 < bytes < Pow2(32)
    ensures GetImm(KAlign, EncodeImm(Align(bytes)) + rest) == Got(Align(bytes), rest) <==> ValidImm(Align(bytes))
  {
    hide Pow2, GetU32;
    var k := Log2(bytes);
    LogBelow(bytes, 32);
    assert EncodeU(k) == [k];
    Small(32);
    U32Back(k, rest);
    if ValidImm(Align(bytes)) { ImmBack(Align(bytes), rest); }
  }

  lemma {:induction false} LogBelow(n: nat, k: nat)
    requires 0 < n < Pow2(k)
    ensures Log2(n) < k
    decreases n
  {
    if k == 0 {
      One();
    } else if n > 1 {
      LogBelow(n / 2, k - 1);
    }
  }

  lemma {:induction false} ImmsForm(imms: seq<Imm>)
    requires forall i | 0 <= i < |imms| :: ValidImm(imms[i])
    ensures Immediates(imms, EncodeImms(imms))
    decreases |imms|
  {
    hide ImmBytes, EncodeImm, ValidImm;
    if imms != [] {
      ImmForm(imms[0]);
      ImmsForm(imms[1..]);
    }
  }

  lemma {:induction false} TargetsForm(xs: seq<nat>)
    requires forall i | 0 <= i < |xs| :: xs[i] < Pow2(32)
    ensures Targets(xs, EncodeTargets(xs))
    decreases |xs|
  {
    hide Unsigned, EncodeU, Pow2;
    if xs != [] {
      UnsignedForm(xs[0]);
      TargetsForm(xs[1..]);
    }
  }

  lemma TypeIndexFound(types: seq<FuncSig>, sig: FuncSig)
    requires sig in types
    ensures TypeIndex(types, sig).Some?
  {
    if types[0] != sig { TypeIndexFound(types[1..], sig); }
  }

  lemma TypeForm(t: ValType)
    ensures ValueType(t, EncodeS(TypeCode(t)))
  {
    hide CodeByte, EncodeS;
    Word31();
    SignedForm(32, TypeCode(t));
    CodeByteIs(match t case I32 => 0x7f case I64 => 0x7e case F32 => 0x7d case F64 => 0x7c, EncodeS(TypeCode(t)));
  }

  lemma SigForm(types: seq<FuncSig>, sig: FuncSig)
    requires ValidSig(types, sig)
    ensures BlockType(types, sig, EncodeS(SigCode(types, sig)))
  {
    hide CodeByte, EncodeS, SignedOf, ValueType;
    Word31();
    if sig.params == [] && sig.results == [] {
      SignedForm(32, -64);
      CodeByteIs(0x40, EncodeS(-64));
    } else if sig.params == [] && |sig.results| == 1 {
      TypeForm(sig.results[0]);
    } else {
      TypeIndexFound(types, sig);
      SignedForm(32, TypeIndex(types, sig).value);
    }
  }

  /** A block's signature reads back. */
  lemma SigBack(types: seq<FuncSig>, sig: FuncSig, rest: seq<Byte>)
    requires ValidSig(types, sig)
    ensures GetSig(types, EncodeS(SigCode(types, sig)) + rest) == Got(sig, rest)
  {
    hide GetSig, BlockType, EncodeS, SigCode;
    SigForm(types, sig);
    SigIn(types, sig, EncodeS(SigCode(types, sig)), rest);
  }

  /** An open list of a block: the opcode and the signature have been read. */
  lemma OpenBack(types: seq<FuncSig>, op: Byte, sig: FuncSig, rest: seq<Byte>, stack: seq<Label>)
    requires stack != [] && ValidSig(types, sig) && op in {0x02, 0x03, 0x04, 0x06}
    ensures ReadOne(types, [op] + EncodeS(SigCode(types, sig)) + rest, stack)
         == Next(OpenList(stack, EmptyOf(op, sig), OpeningOf(op)), rest)
  {
    hide ReadOne, BlockType, EncodeS, SigCode;
    SigForm(types, sig);
    OpenIn(types, op, sig, EncodeS(SigCode(types, sig)), rest, stack);
  }

  lemma InstrForm(op: Opcode, imms: seq<Imm>)
    requires ShapeOf(op) == Some(Kinds(imms)) && (op.Prefixed? ==> op.code < Pow2(32))
    requires forall i | 0 <= i < |imms| :: ValidImm(imms[i])
    ensures InstrBytes(op, imms, EncodeOpcode(op) + EncodeImms(imms))
  {
    hide ValidImm, Immediates, EncodeImms, EncodeU, Unsigned, OneByteForm, PrefixedForm, ShapeOf, Kinds, Pow2;
    FormsAgree(op, imms);
    ImmsForm(imms);
    if op.Prefixed? { UnsignedForm(op.code); }
  }

  /** What the writer writes for an expression is an encoding of it. */
  lemma {:induction false} ExprForm(types: seq<FuncSig>, e: Expr)
    requires ValidExpr(types, e)
    ensures ExprBytes(types, e, EncodeExpr(types, e))
    decreases e, 1
  {
    hide BlockType, ListBytes, EncodeList, SigCode, EncodeS, EncodeU, Unsigned, Targets, EncodeTargets, InstrBytes,
      ValueType, ValidSig, ShapeOf, Pow2, ValidImm, EncodeOpcode, EncodeImms, Kinds, ValidList;
    match e
    case Instr(op, imms) => InstrForm(op, imms);
    case BrTable(xs, d) =>
      UnsignedForm(|xs|);
      UnsignedForm(d);
      TargetsForm(xs);
    case TypedSelect(t) =>
      Word31();
      UnsignedForm(1);
      TypeForm(t);
    case Block(sig, body) =>
      SigForm(types, sig);
      ListForm(types, body);
    case Loop(sig, body) =>
      SigForm(types, sig);
      ListForm(types, body);
    case If(sig, then_, else_) =>
      SigForm(types, sig);
      ListForm(types, then_);
      ListForm(types, else_);
      TwoForm(0x04, EncodeS(SigCode(types, sig)), EncodeList(types, then_), 0x05, EncodeList(types, else_));
    case Try(sig, body, catch_) =>
      SigForm(types, sig);
      ListForm(types, body);
      ListForm(types, catch_);
      TwoForm(0x06, EncodeS(SigCode(types, sig)), EncodeList(types, body), 0x07, EncodeList(types, catch_));
  }

  lemma TwoForm(op: Byte, a: seq<Byte>, b: seq<Byte>, mid: Byte, c: seq<Byte>)
    ensures [op] + a + b + ([mid] + c) + [0x0b] == [op] + a + b + [mid] + c + [0x0b]
    ensures [op] + a + b + [] + [0x0b] == [op] + a + b + [0x0b]
  {}

  lemma {:induction false} EncodeSnoc(types: seq<FuncSig>, es: seq<Expr>)
    requires es != []
    ensures EncodeList(types, es) == EncodeList(types, es[..|es| - 1]) + EncodeExpr(types, es[|es| - 1])
    decreases |es|
  {
    hide EncodeExpr;
    var n := |es| - 1;
    if n == 0 {
      assert es[1..] == [] && es[..0] == [];
      assert EncodeExpr(types, es[0]) + [] == [] + EncodeExpr(types, es[0]);
    } else {
      EncodeSnoc(types, es[1..]);
      assert es[1..][..n - 1] == es[..n][1..] && es[1..][n - 1] == es[n];
      assert EncodeExpr(types, es[0]) + (EncodeList(types, es[..n][1..]) + EncodeExpr(types, es[n]))
          == EncodeExpr(types, es[0]) + EncodeList(types, es[..n][1..]) + EncodeExpr(types, es[n]);
    }
  }

  lemma {:induction false} ListForm(types: seq<FuncSig>, es: seq<Expr>)
    requires ValidList(types, es)
    ensures ListBytes(types, es, EncodeList(types, es))
    decreases es, 0
  {
    hide EncodeExpr, EncodeList, ExprBytes, ValidExpr;
    if es == [] {
      NothingEncoded(types);
    } else {
      var n := |es| - 1;
      ListForm(types, es[..n]);
      ExprForm(types, es[n]);
      EncodeSnoc(types, es);
    }
  }

  lemma NothingEncoded(types: seq<FuncSig>)
    ensures EncodeList(types, []) == []
  {}

  /** What is written for an expression is read as that expression, appended to the open list. */
  lemma ExprBack(types: seq<FuncSig>, e: Expr, rest: seq<Byte>, stack: seq<Label>)
    requires ValidExpr(types, e) && stack != [] && rest != []
    ensures ReadBody(types, EncodeExpr(types, e) + rest, stack) == ReadBody(types, rest, Append(stack, e))
  {
    hide ReadBody, EncodeExpr, ExprBytes, ValidExpr, Append;
    ExprForm(types, e);
    ExprIn(types, e, EncodeExpr(types, e), rest, stack);
  }

  lemma ListBack(types: seq<FuncSig>, es: seq<Expr>, rest: seq<Byte>, stack: seq<Label>)
    requires ValidList(types, es) && stack != [] && rest != []
    ensures ReadBody(types, EncodeList(types, es) + rest, stack) == ReadBody(types, rest, AppendAll(stack, es))
  {
    hide ReadBody, EncodeList, ListBytes, ValidList, AppendAll;
    ListForm(types, es);
    ListIn(types, es, EncodeList(types, es), rest, stack);
  }

  /** What is written for a function's body is in the format. */
  lemma WrittenForm(types: seq<FuncSig>, es: seq<Expr>)
    requires ValidList(types, es)
    ensures IsBody(types, es, EncodeList(types, es) + [END])
  {
    hide ListBytes, EncodeList, ValidList;
    ListForm(types, es);
    assert (EncodeList(types, es) + [END])[..|EncodeList(types, es)|] == EncodeList(types, es);
  }

  /** Reading what was written for a function body rebuilds its tree and leaves the label stack with
      the function label only. */
  lemma BodyRoundTrip(types: seq<FuncSig>, es: seq<Expr>)
    requires ValidList(types, es)
    ensures ReadBody(types, EncodeList(types, es) + [END], [Label(FuncLabel, [])]) == Some([Label(FuncLabel, es)])
    ensures ReadTree(types, EncodeList(types, es) + [END]) == Some(es)
  {
    hide ReadBody, EncodeList, ReadOne;
    var stack := [Label(FuncLabel, [])];
    ListBack(types, es, [END], stack);
    var full := AppendAll(stack, es);
    assert full == [Label(FuncLabel, [] + es)] && [] + es == es;
    LastEnd(types, full);
  }
}

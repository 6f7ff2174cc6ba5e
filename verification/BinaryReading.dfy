/** The reader of function bodies accepts exactly the binary format: what it takes from the bytes is
    always an encoding of what it has built (src/binary-reader.cc, ReadFunctionBody). */
module BinaryReading {
  import opened Util
  import Wasm
  import opened Powers
  import opened Leb128
  import opened BinaryFormat
  import opened BinaryCodec

  // ----- what is read -----

  /** The bytes before the rest. */
  function Taken(p: seq<Byte>, rest: seq<Byte>): (a: seq<Byte>)
    requires IsRest(rest, p)
    ensures p == a + rest
  {
    p[..|p| - |rest|]
  }

  lemma RestOfRest(p: seq<Byte>, r: seq<Byte>, s: seq<Byte>)
    requires IsRest(r, p) && IsRest(s, r)
    ensures IsRest(s, p) && Taken(p, s) == Taken(p, r) + Taken(r, s)
  {}

  lemma {:induction false} DecodeUTaken(N: nat, p: seq<Byte>)
    ensures var r := DecodeU(N, p); r.Some? ==> r.value.length <= |p| && DecodeU(N, p[..r.value.length]) == r
    decreases |p|
  {
    DecodeULength(N, p);
    var r := DecodeU(N, p);
    if r.Some? && p[0] >= 128 {
      DecodeUTaken(N - 7, p[1..]);
      DecodeULength(N - 7, p[1..]);
      assert p[..r.value.length][1..] == p[1..][..r.value.length - 1];
    }
  }

  lemma {:induction false} DecodeSTaken(N: nat, p: seq<Byte>)
    requires N > 0
    ensures var r := DecodeS(N, p); r.Some? ==> r.value.length <= |p| && DecodeS(N, p[..r.value.length]) == r
    decreases |p|
  {
    DecodeSLength(N, p);
    var r := DecodeS(N, p);
    if r.Some? && p[0] >= 128 {
      DecodeSTaken(N - 7, p[1..]);
      DecodeSLength(N - 7, p[1..]);
      assert p[..r.value.length][1..] == p[1..][..r.value.length - 1];
    }
  }

  lemma U32Out(p: seq<Byte>)
    ensures var g := GetU32(p); g.Got? ==> Unsigned(Taken(p, g.rest), g.value)
  {
    hide DecodeU;
    ReadU32Exact(p);
    DecodeUTaken(32, p);
  }

  lemma S32Out(p: seq<Byte>) returns (n: int)
    ensures var g := GetS32(p);
            g.Got? ==> SignedOf(32, Taken(p, g.rest), n) && g.value == if n < 0 then n + 0x1_0000_0000 else n
    ensures GetS32(p).Got? ==> -0x8000_0000 <= n < 0x8000_0000
  {
    hide DecodeS;
    ReadS32Exact(p);
    DecodeSTaken(32, p);
    DecodeSBounds(32, p);
    Word31();
    n := match DecodeS(32, p) case None => 0 case Some(r) => r.value;
  }

  lemma S64Out(p: seq<Byte>) returns (n: int)
    ensures var g := GetS64(p);
            g.Got? ==> SignedOf(64, Taken(p, g.rest), n)
                       && g.value == if n < 0 then n + 0x1_0000_0000_0000_0000 else n
    ensures GetS64(p).Got? ==> -0x8000_0000_0000_0000 <= n < 0x8000_0000_0000_0000
  {
    hide DecodeS;
    ReadS64Exact(p);
    DecodeSTaken(64, p);
    DecodeSBounds(64, p);
    Word64();
    HalfWord(64);
    n := match DecodeS(64, p) case None => 0 case Some(r) => r.value;
  }

  lemma ImmOut(k: ImmKind, p: seq<Byte>)
    ensures var g := GetImm(k, p); g.Got? ==> KindOf(g.value) == k && ImmBytes(g.value, Taken(p, g.rest))
  {
    hide GetU32, GetS32, GetS64, FromLittle, Word4, Word8, Unsigned, SignedOf, Pow2;
    match k
    case KU32 => U32Out(p);
    case KS32 => var n := S32Out(p);
    case KS64 => var n := S64Out(p);
    case KBits32 => if |p| >= 4 { LittleIs4(p[..4]); }
    case KBits64 => if |p| >= 8 { LittleIs8(p[..8]); }
    case KAlign => U32Out(p);
    case KReserved =>
  }

  lemma MoreImms(i: Imm, imms: seq<Imm>, a: seq<Byte>, b: seq<Byte>)
    requires ImmBytes(i, a) && Immediates(imms, b)
    ensures Immediates([i] + imms, a + b) && Kinds([i] + imms) == [KindOf(i)] + Kinds(imms)
  {
    hide ImmBytes, KindOf;
    assert ([i] + imms)[1..] == imms;
  }

  lemma {:induction false} ImmsOut(ks: seq<ImmKind>, p: seq<Byte>)
    ensures var g := GetImms(ks, p); g.Got? ==> Kinds(g.value) == ks && Immediates(g.value, Taken(p, g.rest))
    decreases |ks|
  {
    hide GetImm, ImmBytes, KindOf, Kinds, Immediates, IsRest;
    var g := GetImms(ks, p);
    if ks == [] {
      NoImms();
    } else if g.Got? {
      var h := GetImm(ks[0], p);
      var tail := GetImms(ks[1..], h.rest);
      ImmOut(ks[0], p);
      ImmsOut(ks[1..], h.rest);
      RestOfRest(p, h.rest, g.rest);
      MoreImms(h.value, tail.value, Taken(p, h.rest), Taken(h.rest, g.rest));
      assert ks == [ks[0]] + ks[1..];
    }
  }

  lemma NoImms()
    ensures Kinds([]) == [] && Immediates([], [])
  {}

  lemma {:induction false} TargetsOut(n: nat, p: seq<Byte>)
    ensures var g := GetTargets(n, p); g.Got? ==> |g.value| == n && Targets(g.value, Taken(p, g.rest))
    decreases n
  {
    hide GetU32, Unsigned;
    var g := GetTargets(n, p);
    if n > 0 && g.Got? {
      var h := GetU32(p);
      U32Out(p);
      TargetsOut(n - 1, h.rest);
      RestOfRest(p, h.rest, g.rest);
      assert g.value[1..] == GetTargets(n - 1, h.rest).value;
    }
  }

  lemma TypeOut(p: seq<Byte>)
    ensures var g := GetS32(p);
            g.Got? && TypeOf(g.value).Some? ==> ValueType(TypeOf(g.value).value, Taken(p, g.rest))
  {
    hide GetS32, SignedOf;
    var g := GetS32(p);
    if g.Got? && TypeOf(g.value).Some? {
      var n := S32Out(p);
      var b: Byte := match TypeOf(g.value).value case I32 => 0x7f case I64 => 0x7e case F32 => 0x7d case F64 => 0x7c;
      CodeByteIs(b, Taken(p, g.rest));
    }
  }

  lemma SigOut(types: seq<FuncSig>, p: seq<Byte>)
    ensures var g := GetSig(types, p); g.Got? ==> BlockType(types, g.value, Taken(p, g.rest))
  {
    hide GetS32, SignedOf, ValueType, CodeByte;
    var g, h := GetSig(types, p), GetS32(p);
    if g.Got? {
      var n := S32Out(p);
      TypeOut(p);
      if h.value == 0xffff_ffc0 { CodeByteIs(0x40, Taken(p, h.rest)); }
    }
  }

  // ----- one instruction without a list -----

  lemma InstrOut(op: Opcode, p: seq<Byte>, stack: seq<Label>)
    requires stack != []
    ensures var r := ReadInstr(op, p, stack);
            r.Next? ==> exists imms :: r.stack == Append(stack, Instr(op, imms)) && Immediates(imms, Taken(p, r.rest))
                          && ShapeOf(op) == Some(Kinds(imms))
  {
    hide GetImms, Append, ShapeOf, Immediates, Kinds;
    if ShapeOf(op).Some? { ImmsOut(ShapeOf(op).value, p); }
  }

  /** The new stack is the old one with an expression more. */
  ghost predicate Added(types: seq<FuncSig>, stack: seq<Label>, stack': seq<Label>, a: seq<Byte>)
    requires stack != []
  {
    exists e :: stack' == Append(stack, e) && ExprBytes(types, e, a)
  }

  lemma OpInstrOut(types: seq<FuncSig>, op: Opcode, head: seq<Byte>, p: seq<Byte>, stack: seq<Label>)
    requires stack != [] && match op case Op(c) => head == [c]
                                     case Prefixed(f, c) => |head| > 0 && head[0] == f && Unsigned(head[1..], c)
    ensures var r := ReadInstr(op, p, stack); r.Next? ==> Added(types, stack, r.stack, head + Taken(p, r.rest))
  {
    hide ReadInstr, Append, Immediates, ShapeOf, Unsigned, OneByteForm, PrefixedForm, Kinds;
    InstrOut(op, p, stack);
    var r := ReadInstr(op, p, stack);
    if r.Next? {
      var imms :| r.stack == Append(stack, Instr(op, imms)) && Immediates(imms, Taken(p, r.rest))
                  && ShapeOf(op) == Some(Kinds(imms));
      FormsAgree(op, imms);
      if op.Prefixed? { assert head == [op.prefix] + head[1..]; }
      assert ExprBytes(types, Instr(op, imms), head + Taken(p, r.rest));
    }
  }

  lemma BrTableOut(types: seq<FuncSig>, p: seq<Byte>, stack: seq<Label>)
    requires stack != []
    ensures var r := ReadBrTable(p, stack); r.Next? ==> Added(types, stack, r.stack, [0x0e] + Taken(p, r.rest))
  {
    hide GetU32, GetTargets, Append, Unsigned, Targets;
    var r := ReadBrTable(p, stack);
    if r.Next? {
      var n := GetU32(p);
      var xs := GetTargets(n.value, n.rest);
      var d := GetU32(xs.rest);
      U32Out(p);
      TargetsOut(n.value, n.rest);
      U32Out(xs.rest);
      RestOfRest(p, n.rest, xs.rest);
      RestOfRest(p, xs.rest, d.rest);
      var a, b, c := Taken(p, n.rest), Taken(n.rest, xs.rest), Taken(xs.rest, d.rest);
      assert [0x0e] + Taken(p, r.rest) == [0x0e] + a + b + c;
      assert ExprBytes(types, BrTable(xs.value, d.value), [0x0e] + a + b + c);
    }
  }

  lemma SelectOut(types: seq<FuncSig>, p: seq<Byte>, stack: seq<Label>)
    requires stack != []
    ensures var r := ReadTypedSelect(p, stack); r.Next? ==> Added(types, stack, r.stack, [0x1c] + Taken(p, r.rest))
  {
    hide GetU32, GetS32, Append, Unsigned, ValueType, TypeOf;
    var r := ReadTypedSelect(p, stack);
    if r.Next? {
      var n := GetU32(p);
      var v := GetS32(n.rest);
      U32Out(p);
      TypeOut(n.rest);
      RestOfRest(p, n.rest, v.rest);
      var a, b := Taken(p, n.rest), Taken(n.rest, v.rest);
      assert [0x1c] + Taken(p, r.rest) == [0x1c] + a + b;
      assert ExprBytes(types, TypedSelect(TypeOf(v.value).value), [0x1c] + a + b);
    }
  }

  // ----- what has been read so far -----

  /** The bytes that open the list of kind `kind` of `e`, which is empty as yet. */
  ghost predicate Header(types: seq<FuncSig>, e: Expr, kind: LabelType, h: seq<Byte>) {
    match kind
    case FuncLabel => false
    case BlockLabel => e.Block? && e.body == [] && exists a :: h == [0x02] + a && BlockType(types, e.sig, a)
    case LoopLabel => e.Loop? && e.body == [] && exists a :: h == [0x03] + a && BlockType(types, e.sig, a)
    case IfLabel =>
      e.If? && e.then_ == [] && e.else_ == [] && exists a :: h == [0x04] + a && BlockType(types, e.sig, a)
    case ElseLabel =>
      e.If? && e.else_ == []
      && exists a, b :: h == [0x04] + a + b + [0x05] && BlockType(types, e.sig, a) && ListBytes(types, e.then_, b)
    case TryLabel =>
      e.Try? && e.body == [] && e.catch_ == [] && exists a :: h == [0x06] + a && BlockType(types, e.sig, a)
    case CatchLabel =>
      e.Try? && e.catch_ == []
      && exists a, b :: h == [0x06] + a + b + [0x07] && BlockType(types, e.sig, a) && ListBytes(types, e.body, b)
  }

  /** The stack without its top label and the expression that this belongs to. */
  function Below(stack: seq<Label>): (s: seq<Label>)
    requires |stack| >= 2 && stack[|stack| - 2].exprs != []
    ensures |s| == |stack| - 1
  {
    var parent := stack[|stack| - 2];
    stack[..|stack| - 2] + [parent.(exprs := parent.exprs[..|parent.exprs| - 1])]
  }

  function Owner(stack: seq<Label>): Expr
    requires |stack| >= 2 && stack[|stack| - 2].exprs != []
  {
    Last(stack[|stack| - 2].exprs)
  }

  /** `q` are bytes that lead to `stack`. */
  ghost predicate Partial(types: seq<FuncSig>, stack: seq<Label>, q: seq<Byte>)
    requires stack != []
    decreases |stack|
  {
    var top := stack[|stack| - 1];
    if |stack| == 1 then top.kind == FuncLabel && ListBytes(types, top.exprs, q)
    else
      && stack[|stack| - 2].exprs != []
      && exists a, h, b ::
           && q == a + h + b && Partial(types, Below(stack), a)
           && Header(types, Owner(stack), top.kind, h) && ListBytes(types, top.exprs, b)
  }

  lemma ListMore(types: seq<FuncSig>, es: seq<Expr>, e: Expr, a: seq<Byte>, b: seq<Byte>)
    requires ListBytes(types, es, a) && ExprBytes(types, e, b)
    ensures ListBytes(types, es + [e], a + b)
  {
    hide ExprBytes;
    assert (es + [e])[..|es|] == es;
  }

  /** The parts of what has been read, at an open list. */
  lemma Opened(types: seq<FuncSig>, stack: seq<Label>, q: seq<Byte>)
    returns (a: seq<Byte>, h: seq<Byte>, b: seq<Byte>)
    requires |stack| >= 2 && Partial(types, stack, q)
    ensures stack[|stack| - 2].exprs != [] && q == a + h + b && Partial(types, Below(stack), a)
    ensures Header(types, Owner(stack), Last(stack).kind, h) && ListBytes(types, Last(stack).exprs, b)
  {
    hide Header, ListBytes;
    a, h, b :| q == a + h + b && Partial(types, Below(stack), a)
               && Header(types, Owner(stack), Last(stack).kind, h) && ListBytes(types, Last(stack).exprs, b);
  }

  lemma IsOpen(
    types: seq<FuncSig>, stack: seq<Label>, e: Expr, kind: LabelType, es: seq<Expr>, a: seq<Byte>, h: seq<Byte>,
    b: seq<Byte>)
    requires stack != [] && Partial(types, stack, a) && Header(types, e, kind, h) && ListBytes(types, es, b)
    ensures Partial(types, Append(stack, e) + [Label(kind, es)], a + h + b)
  {
    hide Header, ListBytes;
    var s := Append(stack, e) + [Label(kind, es)];
    var top := stack[|stack| - 1];
    assert s[|s| - 2] == top.(exprs := top.exprs + [e]);
    assert (top.exprs + [e])[..|top.exprs|] == top.exprs;
    assert Below(s) == stack;
    assert Owner(s) == e;
  }

  lemma PartialAppend(types: seq<FuncSig>, stack: seq<Label>, q: seq<Byte>, e: Expr, r: seq<Byte>)
    requires stack != [] && Partial(types, stack, q) && ExprBytes(types, e, r)
    ensures Partial(types, Append(stack, e), q + r)
  {
    hide Header, ExprBytes, ListBytes;
    var top := stack[|stack| - 1];
    if |stack| == 1 {
      ListMore(types, top.exprs, e, q, r);
    } else {
      var a, h, b := Opened(types, stack, q);
      ListMore(types, top.exprs, e, b, r);
      assert Below(Append(stack, e)) == Below(stack) && Owner(Append(stack, e)) == Owner(stack);
      assert a + h + b + r == a + h + (b + r);
    }
  }

  /** A completed list completes its expression. */
  lemma Completed(types: seq<FuncSig>, e: Expr, kind: LabelType, h: seq<Byte>, es: seq<Expr>, b: seq<Byte>)
    requires Header(types, e, kind, h) && ListBytes(types, es, b)
    ensures Fill(e, kind, es).Some? && ExprBytes(types, Fill(e, kind, es).value, h + b + [0x0b])
  {
    hide ListBytes, BlockType;
    match kind
    case ElseLabel =>
      var x, y :| h == [0x04] + x + y + [0x05] && BlockType(types, e.sig, x) && ListBytes(types, e.then_, y);
    case CatchLabel =>
      var x, y :| h == [0x06] + x + y + [0x07] && BlockType(types, e.sig, x) && ListBytes(types, e.body, y);
    case _ =>
  }

  /** The first list of two. */
  lemma Switched(types: seq<FuncSig>, e: Expr, kind: LabelType, h: seq<Byte>, es: seq<Expr>, b: seq<Byte>)
    requires (kind == IfLabel || kind == TryLabel) && Header(types, e, kind, h) && ListBytes(types, es, b)
    ensures Fill(e, kind, es).Some?
    ensures Header(types, Fill(e, kind, es).value, if kind == IfLabel then ElseLabel else CatchLabel,
                   h + b + [if kind == IfLabel then 0x05 else 0x07])
  {
    hide ListBytes, BlockType;
    var x :| h == [if kind == IfLabel then 0x04 else 0x06] + x && BlockType(types, e.sig, x);
    assert h + b + [if kind == IfLabel then 0x05 else 0x07]
        == [if kind == IfLabel then 0x04 else 0x06] + x + b + [if kind == IfLabel then 0x05 else 0x07];
  }

  lemma PopIs(stack: seq<Label>, e: Expr)
    requires |stack| >= 2 && stack[|stack| - 2].exprs != []
    requires Fill(Owner(stack), Last(stack).kind, Last(stack).exprs) == Some(e)
    ensures Pop(stack) == Some(Append(Below(stack), e))
  {
    hide Fill;
  }

  /** `end` of a nested list. */
  lemma PartialEnd(types: seq<FuncSig>, stack: seq<Label>, q: seq<Byte>)
    requires |stack| >= 2 && Partial(types, stack, q)
    ensures Pop(stack).Some? && Partial(types, Pop(stack).value, q + [0x0b])
  {
    hide Header, ListBytes, ExprBytes, Fill, Partial, Pop, Append;
    var a, h, b := Opened(types, stack, q);
    Completed(types, Owner(stack), Last(stack).kind, h, Last(stack).exprs, b);
    var e := Fill(Owner(stack), Last(stack).kind, Last(stack).exprs).value;
    PopIs(stack, e);
    PartialAppend(types, Below(stack), a, e, h + b + [0x0b]);
    assert q + [0x0b] == a + (h + b + [0x0b]);
  }

  lemma PartialSwitch(types: seq<FuncSig>, stack: seq<Label>, q: seq<Byte>, isElse: bool)
    requires |stack| >= 2 && Partial(types, stack, q) && Last(stack).kind == if isElse then IfLabel else TryLabel
    ensures var r := Switch(stack, if isElse then IfLabel else TryLabel, if isElse then ElseLabel else CatchLabel);
            r.Some? && r.value != [] && Partial(types, r.value, q + [if isElse then 0x05 else 0x07])
  {
    hide Header, ListBytes, ExprBytes, Fill, Partial, Pop, Append;
    var a, h, b := Opened(types, stack, q);
    var mid: Byte := if isElse then 0x05 else 0x07;
    Switched(types, Owner(stack), Last(stack).kind, h, Last(stack).exprs, b);
    var e := Fill(Owner(stack), Last(stack).kind, Last(stack).exprs).value;
    PopIs(stack, e);
    NothingIn(types);
    IsOpen(types, Below(stack), e, if isElse then ElseLabel else CatchLabel, [], a, h + b + [mid], []);
    assert q + [mid] == a + (h + b + [mid]) + [];
  }

  lemma NothingIn(types: seq<FuncSig>)
    ensures ListBytes(types, [], [])
  {}

  // ----- one step -----

  lemma OpenOut(types: seq<FuncSig>, op: Byte, p: seq<Byte>, stack: seq<Label>, q: seq<Byte>)
    requires op in {0x02, 0x03, 0x04, 0x06} && stack != [] && Partial(types, stack, q)
    ensures var r := ReadOpen(types, op, p, stack); r.Next? ==> Partial(types, r.stack, q + ([op] + Taken(p, r.rest)))
  {
    hide GetSig, BlockType, Append, Partial, ListBytes;
    SigOut(types, p);
    var r, g := ReadOpen(types, op, p, stack), GetSig(types, p);
    if r.Next? {
      NothingIn(types);
      var e, h := EmptyOf(op, g.value), [op] + Taken(p, r.rest);
      assert Header(types, e, OpeningOf(op), h);
      IsOpen(types, stack, e, OpeningOf(op), [], q, h, []);
      assert q + h + [] == q + h;
    }
  }

  /** Behind an opcode, which is `head`. */
  lemma OpOut(types: seq<FuncSig>, op: Opcode, head: seq<Byte>, rest: seq<Byte>, stack: seq<Label>, q: seq<Byte>)
    requires stack != [] && Partial(types, stack, q)
    requires match op case Op(c) => head == [c]
                      case Prefixed(f, c) => |head| > 0 && head[0] == f && Unsigned(head[1..], c)
    ensures var r := ReadOp(types, op, rest, stack);
            r.Next? ==> Partial(types, r.stack, q + (head + Taken(rest, r.rest)))
    ensures ReadOp(types, op, rest, stack).Done? ==> op == Op(0x0b) && rest == []
                                                     && ReadOp(types, op, rest, stack).stack == stack
  {
    hide ReadInstr, ReadOpen, ReadBrTable, ReadTypedSelect, Partial, Switch, Pop, ExprBytes, Append, Unsigned;
    var r := ReadOp(types, op, rest, stack);
    OnlyEnds(types, op, rest, stack);
    if r.Next? {
      var a := head + Taken(rest, r.rest);
      if op.Op? && op.byte in {0x02, 0x03, 0x04, 0x06} {
        OpenOut(types, op.byte, rest, stack, q);
      } else if op.Op? && op.byte in {0x05, 0x07} {
        SwitchNeeds(stack, op.byte == 0x05);
        PartialSwitch(types, stack, q, op.byte == 0x05);
        assert a == head;
      } else if op == Op(0x0b) {
        PopNeeds(stack);
        PartialEnd(types, stack, q);
        assert a == head;
      } else {
        if op == Op(0x0e) {
          BrTableOut(types, rest, stack);
        } else if op == Op(0x1c) {
          SelectOut(types, rest, stack);
        } else {
          OpInstrOut(types, op, head, rest, stack);
        }
        var e :| r.stack == Append(stack, e) && ExprBytes(types, e, a);
        PartialAppend(types, stack, q, e, a);
      }
    }
  }

  lemma OnlyEnds(types: seq<FuncSig>, op: Opcode, p: seq<Byte>, stack: seq<Label>)
    requires stack != []
    ensures !ReadInstr(op, p, stack).Done? && !ReadBrTable(p, stack).Done? && !ReadTypedSelect(p, stack).Done?
    ensures op.Op? ==> !ReadOpen(types, op.byte, p, stack).Done?
  {}

  lemma SwitchNeeds(stack: seq<Label>, isElse: bool)
    ensures Switch(stack, if isElse then IfLabel else TryLabel, if isElse then ElseLabel else CatchLabel).Some? ==>
              |stack| >= 2 && Last(stack).kind == if isElse then IfLabel else TryLabel
  {}

  lemma PopNeeds(stack: seq<Label>)
    ensures Pop(stack).Some? ==> |stack| >= 2
  {}

  lemma StepOut(types: seq<FuncSig>, p: seq<Byte>, stack: seq<Label>, q: seq<Byte>)
    requires stack != [] && Partial(types, stack, q)
    ensures var r := ReadOne(types, p, stack); r.Next? ==> Partial(types, r.stack, q + Taken(p, r.rest))
    ensures var r := ReadOne(types, p, stack); r.Done? ==> p == [0x0b] && r.stack == stack
  {
    hide ReadOp, Partial, GetU32, Unsigned;
    var r, g := ReadOne(types, p, stack), GetOpcode(p);
    if g.Got? {
      var head := Taken(p, g.rest);
      assert p == [p[0]] + p[1..];
      if g.value.Prefixed? {
        U32Out(p[1..]);
        assert head[1..] == Taken(p[1..], g.rest);
      }
      OpOut(types, g.value, head, g.rest, stack, q);
      if r.Next? { RestOfRest(p, g.rest, r.rest); }
    }
  }

  /** All bytes but the last lead to the stack that is left; the last one is `end`. */
  lemma {:induction false} BodyOut(types: seq<FuncSig>, p: seq<Byte>, stack: seq<Label>, q: seq<Byte>)
    requires stack != [] && Partial(types, stack, q)
    ensures var r := ReadBody(types, p, stack);
            r.Some? ==> p != [] && p[|p| - 1] == 0x0b && r.value != [] && Partial(types, r.value, q + p[..|p| - 1])
    decreases |p|
  {
    hide ReadOne, Partial;
    var r := ReadOne(types, p, stack);
    StepOut(types, p, stack, q);
    if r.Done? {
      assert q + p[..0] == q;
    } else if r.Next? {
      BodyOut(types, r.rest, r.stack, q + Taken(p, r.rest));
      if r.rest != [] {
        assert p[..|p| - 1] == Taken(p, r.rest) + r.rest[..|r.rest| - 1];
        assert q + p[..|p| - 1] == q + Taken(p, r.rest) + r.rest[..|r.rest| - 1];
      }
    }
  }

  // ----- bodies whose blocks are not all closed -----

  /** `q` is the beginning of an encoding of `es` that stops in `k` nested lists, each of which is the
      last one of its expression. */
  ghost predicate Unfinished(types: seq<FuncSig>, es: seq<Expr>, k: nat, q: seq<Byte>)
    decreases k, 1
  {
    if k == 0 then ListBytes(types, es, q)
    else
      es != [] && exists a, b ::
        q == a + b && ListBytes(types, es[..|es| - 1], a) && Open(types, es[|es| - 1], k, b)
  }

  ghost predicate Open(types: seq<FuncSig>, e: Expr, k: nat, q: seq<Byte>)
    requires k > 0
    decreases k, 0
  {
    exists h, b ::
      && q == h + b
      && match e
         case Block(sig, body) => Header(types, Block(sig, []), BlockLabel, h) && Unfinished(types, body, k - 1, b)
         case Loop(sig, body) => Header(types, Loop(sig, []), LoopLabel, h) && Unfinished(types, body, k - 1, b)
         case If(sig, then_, else_) =>
           || (else_ == [] && Header(types, If(sig, [], []), IfLabel, h) && Unfinished(types, then_, k - 1, b))
           || (Header(types, If(sig, then_, []), ElseLabel, h) && Unfinished(types, else_, k - 1, b))
         case Try(sig, body, catch_) =>
           || (catch_ == [] && Header(types, Try(sig, [], []), TryLabel, h) && Unfinished(types, body, k - 1, b))
           || (Header(types, Try(sig, body, []), CatchLabel, h) && Unfinished(types, catch_, k - 1, b))
         case _ => false
  }

  lemma HeaderOpen(types: seq<FuncSig>, e: Expr, kind: LabelType, h: seq<Byte>, es: seq<Expr>, k: nat, b: seq<Byte>)
    requires Header(types, e, kind, h) && Unfinished(types, es, k, b)
    ensures Fill(e, kind, es).Some? && Open(types, Fill(e, kind, es).value, k + 1, h + b)
  {
    hide Header, Unfinished;
    HeaderKind(types, e, kind, h);
  }

  lemma HeaderKind(types: seq<FuncSig>, e: Expr, kind: LabelType, h: seq<Byte>)
    requires Header(types, e, kind, h)
    ensures kind != FuncLabel
    ensures kind == BlockLabel ==> e == Block(e.sig, [])
    ensures kind == LoopLabel ==> e == Loop(e.sig, [])
    ensures kind == IfLabel ==> e == If(e.sig, [], [])
    ensures kind == ElseLabel ==> e == If(e.sig, e.then_, [])
    ensures kind == TryLabel ==> e == Try(e.sig, [], [])
    ensures kind == CatchLabel ==> e == Try(e.sig, e.body, [])
  {}

  lemma OneOpen(types: seq<FuncSig>, es: seq<Expr>, a: seq<Byte>, e: Expr, k: nat, r: seq<Byte>)
    requires ListBytes(types, es, a) && k > 0 && Open(types, e, k, r)
    ensures Unfinished(types, es + [e], k, a + r)
  {
    hide ListBytes, Open;
    assert (es + [e])[..|es|] == es;
  }

  /** Closing all labels leads to a tree that is unfinished at as many lists as are open. */
  lemma {:induction false} ClosedWith(
    types: seq<FuncSig>, stack: seq<Label>, a: seq<Byte>, e: Expr, k: nat, r: seq<Byte>)
    requires stack != [] && Partial(types, stack, a) && k > 0 && Open(types, e, k, r)
    ensures var c := CloseAll(Append(stack, e)); c.Some? && Unfinished(types, c.value, |stack| - 1 + k, a + r)
    decreases |stack|
  {
    hide Open, Header, ListBytes, Fill, Pop, Unfinished, Partial, Append;
    var top := stack[|stack| - 1];
    var s := Append(stack, e);
    if |stack| == 1 {
      FunctionList(types, stack, a);
      OneOpen(types, top.exprs, a, e, k, r);
      assert s == [top.(exprs := top.exprs + [e])] by { AppendOne(stack, e); }
    } else {
      var a2, h, b := Opened(types, stack, a);
      OneOpen(types, top.exprs, b, e, k, r);
      HeaderOpen(types, Owner(stack), top.kind, h, top.exprs + [e], k, b + r);
      var f := Fill(Owner(stack), top.kind, top.exprs + [e]).value;
      AppendBelow(stack, e);
      PopIs(s, f);
      ClosedWith(types, Below(stack), a2, f, k + 1, h + (b + r));
      assert a + r == a2 + (h + (b + r));
    }
  }

  lemma FunctionList(types: seq<FuncSig>, stack: seq<Label>, q: seq<Byte>)
    requires |stack| == 1 && Partial(types, stack, q)
    ensures ListBytes(types, stack[0].exprs, q)
  {}

  lemma AppendOne(stack: seq<Label>, e: Expr)
    requires |stack| == 1
    ensures Append(stack, e) == [stack[0].(exprs := stack[0].exprs + [e])]
  {}

  lemma AppendBelow(stack: seq<Label>, e: Expr)
    requires |stack| >= 2 && stack[|stack| - 2].exprs != []
    ensures var s := Append(stack, e);
            && s[|s| - 2] == stack[|stack| - 2] && Below(s) == Below(stack) && Owner(s) == Owner(stack)
            && Last(s).kind == Last(stack).kind && Last(s).exprs == Last(stack).exprs + [e]
  {}

  lemma PartialClosed(types: seq<FuncSig>, stack: seq<Label>, q: seq<Byte>)
    requires stack != [] && Partial(types, stack, q)
    ensures var c := CloseAll(stack); c.Some? && Unfinished(types, c.value, |stack| - 1, q)
  {
    hide Open, Header, ListBytes, Fill, Pop;
    if |stack| > 1 {
      var a, h, b := Opened(types, stack, q);
      var top := Last(stack);
      assert Unfinished(types, top.exprs, 0, b);
      HeaderOpen(types, Owner(stack), top.kind, h, top.exprs, 0, b);
      var f := Fill(Owner(stack), top.kind, top.exprs).value;
      PopIs(stack, f);
      ClosedWith(types, Below(stack), a, f, 1, h + b);
      assert q == a + (h + b);
    }
  }

  // ----- unfinished bodies are read -----

  /** The parts of an expression that stops within its last list. */
  lemma OpenParts(types: seq<FuncSig>, e: Expr, k: nat, q: seq<Byte>)
    returns (half: Expr, kind: LabelType, es: seq<Expr>, h: seq<Byte>, b: seq<Byte>)
    requires k > 0 && Open(types, e, k, q)
    ensures q == h + b && Header(types, half, kind, h) && Unfinished(types, es, k - 1, b)
    ensures Fill(half, kind, es) == Some(e)
  {
    hide Header, Unfinished;
    h, b :| q == h + b && match e
      case Block(sig, body) => Header(types, Block(sig, []), BlockLabel, h) && Unfinished(types, body, k - 1, b)
      case Loop(sig, body) => Header(types, Loop(sig, []), LoopLabel, h) && Unfinished(types, body, k - 1, b)
      case If(sig, then_, else_) =>
        || (else_ == [] && Header(types, If(sig, [], []), IfLabel, h) && Unfinished(types, then_, k - 1, b))
        || (Header(types, If(sig, then_, []), ElseLabel, h) && Unfinished(types, else_, k - 1, b))
      case Try(sig, body, catch_) =>
        || (catch_ == [] && Header(types, Try(sig, [], []), TryLabel, h) && Unfinished(types, body, k - 1, b))
        || (Header(types, Try(sig, body, []), CatchLabel, h) && Unfinished(types, catch_, k - 1, b))
      case _ => false;
    match e
    case Block(sig, body) => half, kind, es := Block(sig, []), BlockLabel, body;
    case Loop(sig, body) => half, kind, es := Loop(sig, []), LoopLabel, body;
    case If(sig, then_, else_) =>
      if else_ == [] && Header(types, If(sig, [], []), IfLabel, h) && Unfinished(types, then_, k - 1, b) {
        half, kind, es := If(sig, [], []), IfLabel, then_;
      } else {
        half, kind, es := If(sig, then_, []), ElseLabel, else_;
      }
    case Try(sig, body, catch_) =>
      if catch_ == [] && Header(types, Try(sig, [], []), TryLabel, h) && Unfinished(types, body, k - 1, b) {
        half, kind, es := Try(sig, [], []), TryLabel, body;
      } else {
        half, kind, es := Try(sig, body, []), CatchLabel, catch_;
      }
  }

  /** Reading a header opens the list. */
  lemma HeaderIn(types: seq<FuncSig>, e: Expr, kind: LabelType, h: seq<Byte>, rest: seq<Byte>, stack: seq<Label>)
    requires Header(types, e, kind, h) && stack != [] && rest != []
    ensures ReadBody(types, h + rest, stack) == ReadBody(types, rest, OpenList(stack, e, kind))
  {
    hide BlockType, ListBytes, ReadBody, ReadOne, OpenList;
    match kind
    case ElseLabel =>
      var a, b :| h == [0x04] + a + b + [0x05] && BlockType(types, e.sig, a) && ListBytes(types, e.then_, b);
      FirstListIn(types, e, true, a, b, rest, stack);
      assert h + rest == [0x04] + a + (b + ([0x05] + rest));
    case CatchLabel =>
      var a, b :| h == [0x06] + a + b + [0x07] && BlockType(types, e.sig, a) && ListBytes(types, e.body, b);
      FirstListIn(types, e, false, a, b, rest, stack);
      assert h + rest == [0x06] + a + (b + ([0x07] + rest));
    case FuncLabel =>
    case _ =>
      HeaderKind(types, e, kind, h);
      var op := if kind == BlockLabel then 0x02 else if kind == LoopLabel then 0x03 else if kind == IfLabel then 0x04
        else 0x06;
      var a :| h == [op] + a && BlockType(types, e.sig, a);
      OpenIn(types, op, e.sig, a, rest, stack);
      OneStep(types, h + rest, stack, OpenList(stack, e, kind), rest);
  }

  lemma FirstListIn(
    types: seq<FuncSig>, e: Expr, isElse: bool, a: seq<Byte>, b: seq<Byte>, rest: seq<Byte>, stack: seq<Label>)
    requires if isElse then e.If? && e.else_ == [] else e.Try? && e.catch_ == []
    requires BlockType(types, e.sig, a) && ListBytes(types, if isElse then e.then_ else e.body, b)
    requires stack != [] && rest != []
    ensures ReadBody(types, [if isElse then 0x04 else 0x06] + a + (b + ([if isElse then 0x05 else 0x07] + rest)), stack)
         == ReadBody(types, rest, OpenList(stack, e, if isElse then ElseLabel else CatchLabel))
  {
    hide BlockType, ListBytes, ReadBody, ReadOne, OpenList, AppendAll;
    var op: Byte := if isElse then 0x04 else 0x06;
    var es := if isElse then e.then_ else e.body;
    var after := [if isElse then 0x05 else 0x07] + rest;
    var empty, kind := EmptyOf(op, e.sig), OpeningOf(op);
    OpenIn(types, op, e.sig, a, b + after, stack);
    OneStep(types, [op] + a + (b + after), stack, OpenList(stack, empty, kind), b + after);
    OpenNotEmpty(stack, empty, kind);
    ListIn(types, es, b, after, OpenList(stack, empty, kind));
    SwitchBack(types, rest, stack, empty, es, e, isElse);
    OneStep(types, after, AppendAll(OpenList(stack, empty, kind), es),
      OpenList(stack, e, if isElse then ElseLabel else CatchLabel), rest);
  }

  /** The first `end` behind an unfinished list is taken for that of the function. */
  lemma {:induction false} UnfinishedIn(
    types: seq<FuncSig>, es: seq<Expr>, k: nat, q: seq<Byte>, stack: seq<Label>)
    requires Unfinished(types, es, k, q) && stack != []
    ensures var r := ReadBody(types, q + [0x0b], stack);
            r.Some? && r.value != [] && |r.value| == |stack| + k
            && CloseAll(r.value) == CloseAll(AppendAll(stack, es))
    decreases k
  {
    hide ReadBody, ListBytes, Header, Fill, Pop, CloseAll, Append, AppendAll, OpenList, Open;
    if k == 0 {
      ListIn(types, es, q, [0x0b], stack);
      LastEnd(types, AppendAll(stack, es));
    } else {
      var n := |es| - 1;
      var a, c :| q == a + c && ListBytes(types, es[..n], a) && Open(types, es[n], k, c);
      var half, kind, fs, h, b := OpenParts(types, es[n], k, c);
      var s := AppendAll(stack, es[..n]);
      assert q + [0x0b] == a + (h + (b + [0x0b]));
      ListIn(types, es[..n], a, h + (b + [0x0b]), stack);
      HeaderIn(types, half, kind, h, b + [0x0b], s);
      OpenNotEmpty(s, half, kind);
      UnfinishedIn(types, fs, k - 1, b, OpenList(s, half, kind));
      OpenSize(s, half, kind);
      PopFilled(s, half, kind, fs, es[n]);
      CloseOnce(AppendAll(OpenList(s, half, kind), fs));
      AppendTwice(stack, es[..n], es[n]);
      assert es[..n] + [es[n]] == es;
    }
  }

  lemma OpenSize(stack: seq<Label>, e: Expr, kind: LabelType)
    requires stack != []
    ensures |OpenList(stack, e, kind)| == |stack| + 1
  {}

  lemma CloseOnce(stack: seq<Label>)
    requires |stack| >= 2 && Pop(stack).Some?
    ensures CloseAll(stack) == CloseAll(Pop(stack).value)
  {}

  // ----- exactly -----

  /** `p` is an encoding of the list followed by `end`, where the last lists need not be closed. */
  ghost predicate LooseBody(types: seq<FuncSig>, es: seq<Expr>, p: seq<Byte>) {
    exists k: nat, q :: p == q + [0x0b] && Unfinished(types, es, k, q)
  }

  /** The reader accepts exactly these, and returns what was encoded. */
  lemma TreeExactly(types: seq<FuncSig>, p: seq<Byte>, es: seq<Expr>)
    ensures ReadTree(types, p) == Some(es) <==> LooseBody(types, es, p)
  {
    hide ReadBody, Unfinished, CloseAll, ListBytes, Partial;
    var start := [Label(FuncLabel, [])];
    if ReadTree(types, p) == Some(es) {
      StartsEmpty(types);
      BodyOut(types, p, start, []);
      var s := ReadBody(types, p, start).value;
      var q := p[..|p| - 1];
      assert [] + q == q && p == q + [0x0b];
      PartialClosed(types, s, q);
      assert Unfinished(types, es, |s| - 1, q);
    }
    if LooseBody(types, es, p) {
      var k: nat, q :| p == q + [0x0b] && Unfinished(types, es, k, q);
      UnfinishedIn(types, es, k, q, start);
      OnlyFunction(es);
    }
  }

  lemma StartsEmpty(types: seq<FuncSig>)
    ensures Partial(types, [Label(FuncLabel, [])], [])
  {}

  lemma OnlyFunction(es: seq<Expr>)
    ensures CloseAll(AppendAll([Label(FuncLabel, [])], es)) == Some(es)
  {
    assert [] + es == es;
  }

  /** It is left with the function's label alone exactly if the body is in the format. */
  lemma BodyExactly(types: seq<FuncSig>, p: seq<Byte>, es: seq<Expr>)
    ensures ReadBody(types, p, [Label(FuncLabel, [])]) == Some([Label(FuncLabel, es)]) <==> IsBody(types, es, p)
  {
    hide ReadBody, ListBytes, AppendAll;
    var start := [Label(FuncLabel, [])];
    if ReadBody(types, p, start) == Some([Label(FuncLabel, es)]) {
      StartsEmpty(types);
      BodyOut(types, p, start, []);
      assert [] + p[..|p| - 1] == p[..|p| - 1];
    }
    if IsBody(types, es, p) {
      var q := p[..|p| - 1];
      assert p == q + [0x0b];
      ListIn(types, es, q, [0x0b], start);
      LastEnd(types, AppendAll(start, es));
      assert AppendAll(start, es) == [Label(FuncLabel, es)] by { Appended(es); }
    }
  }

  lemma Appended(es: seq<Expr>)
    ensures AppendAll([Label(FuncLabel, [])], es) == [Label(FuncLabel, es)]
  {
    assert [] + es == es;
  }

  /** A block that is opened and not closed: the only `end` is taken for that of the function. */
  lemma UnclosedBlock()
    ensures ReadTree([], [0x02, 0x40, 0x0b]) == Some([Block(Wasm.FuncSig([], []), [])])
    ensures forall es :: !IsBody([], es, [0x02, 0x40, 0x0b])
  {
    hide ReadTree, ReadBody, IsBody, Unfinished;
    var p: seq<Byte> := [0x02, 0x40, 0x0b];
    var e := Block(Wasm.FuncSig([], []), []);
    BlockBegun(e);
    var q: seq<Byte> := [0x02, 0x40];
    assert p == q + [0x0b] && Unfinished([], [e], 1, q);
    TreeExactly([], p, [e]);
    forall es ensures !IsBody([], es, p) {
      BodyExactly([], p, es);
      UnfinishedIn([], [e], 1, [0x02, 0x40], [Label(FuncLabel, [])]);
    }
  }

  lemma BlockBegun(e: Expr)
    requires e == Block(Wasm.FuncSig([], []), [])
    ensures Unfinished([], [e], 1, [0x02, 0x40])
  {
    assert CodeByte(0x40, [0x40]) && BlockType([], e.sig, [0x40]);
    assert [0x02] + [0x40] == [0x02, 0x40];
    assert Header([], e, BlockLabel, [0x02, 0x40]);
    assert ListBytes([], [], []) && Unfinished([], [], 0, []);
    assert [0x02, 0x40] + [] == [0x02, 0x40] && [] + [0x02, 0x40] == [0x02, 0x40];
    assert Open([], e, 1, [0x02, 0x40]);
    OneOpen([], [], [], e, 1, [0x02, 0x40]);
    assert [] + [e] == [e];
  }
}

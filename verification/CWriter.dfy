/** The C writer itself: an object whose type stack, label stack, symbol maps and output stream are
    updated instruction by instruction (src/c-writer.cc).

    Every method is proved against the functions of module `CCompile`: what it appends to the stream
    is that code, with the identifiers of the symbol maps. */
module CWriter {
  import opened Util
  import opened Wasm
  import opened Validation
  import opened CLang
  import opened CCompile
  import opened CRename
  import opened CSimulation
  import Decimals
  import Symbols
  import Mangling

  // ----- growing symbol maps -----

  lemma ExtendedExp(r: SymbolMaps, t: SymbolMaps, e: CExp<Sym>)
    requires r.ExtendedBy(t) && CoversExp(r, e)
    ensures CoversExp(t, e) && RenameExp(t, e) == RenameExp(r, e)
  {}

  lemma ExtendedAll(r: SymbolMaps, t: SymbolMaps, vs: seq<Sym>)
    requires r.ExtendedBy(t) && HasAll(r, vs)
    ensures HasAll(t, vs) && RenameAll(t, vs) == RenameAll(r, vs)
  {
    forall i | 0 <= i < |vs| ensures RenameAll(t, vs)[i] == RenameAll(r, vs)[i] {
      assert vs[i] in vs && r.Has(vs[i]);
    }
  }

  lemma ExtendedStmt(r: SymbolMaps, t: SymbolMaps, s: Stmt)
    requires r.ExtendedBy(t) && CoversStmt(r, s)
    ensures CoversStmt(t, s) && RenameStmt(t, s) == RenameStmt(r, s)
    decreases s
  {
    match s
    case Assign(dst, rhs) => ExtendedExp(r, t, rhs);
    case CCall(res, f, args) => ExtendedAll(r, t, args);
    case CCallIndirect(res, sig, elem, args) => ExtendedAll(r, t, args);
    case CIf(c, then_, else_) =>
      ExtendedCode(r, t, then_);
      ExtendedCode(r, t, else_);
    case CSwitch(v, arms) =>
      forall i | 0 <= i < |arms|
        ensures Covers(t, arms[i].stmts) && RenameCode(t, arms[i].stmts) == RenameCode(r, arms[i].stmts)
      {
        ExtendedCode(r, t, arms[i].stmts);
      }
      assert RenameArms(t, arms) == RenameArms(r, arms);
    case _ =>
  }

  /** Code that was written keeps its identifiers when the symbol maps grow. */
  lemma ExtendedCode(r: SymbolMaps, t: SymbolMaps, code: seq<Stmt>)
    requires r.ExtendedBy(t) && Covers(r, code)
    ensures Covers(t, code) && RenameCode(t, code) == RenameCode(r, code)
    decreases code
  {
    forall i | 0 <= i < |code|
      ensures CoversStmt(t, code[i]) && RenameStmt(t, code[i]) == RenameStmt(r, code[i])
    {
      ExtendedStmt(r, t, code[i]);
    }
  }

  lemma ExtendedTwice(r: SymbolMaps, s: SymbolMaps, t: SymbolMaps)
    requires r.ExtendedBy(s) && s.ExtendedBy(t)
    ensures r.ExtendedBy(t)
  {}

  lemma RenameConcat(r: SymbolMaps, a: seq<Stmt>, b: seq<Stmt>)
    ensures RenameCode(r, a + b) == RenameCode(r, a) + RenameCode(r, b)
    ensures Covers(r, a) && Covers(r, b) ==> Covers(r, a + b)
  {}

  /** The text a local identifier is derived from. */
  function BaseText(v: Sym): string {
    match v
    case Named(n) => Symbols.Stripped(n)
    case Slot(k, t) => [Mangling.MangleType(t)] + Decimals.Decimal(k)
    case GlobalSym(n) => Symbols.Stripped(n)
  }

  /** Identifiers of locals, labels and slots are derived from their names and not taken. */
  ghost predicate LocalsFresh(r: SymbolMaps, taken: set<string>) {
    forall v: Sym | r.HasVar(v) :: Symbols.Derived(BaseText(v), r.Get(v)) && r.Get(v) !in taken
  }

  lemma LocalsStayFresh(r: SymbolMaps, r': SymbolMaps, v: Sym, id: string, taken: set<string>)
    requires LocalsFresh(r, taken) && Symbols.Derived(BaseText(v), id) && id !in taken
    requires forall u: Sym | r'.HasVar(u) :: (u == v && r'.Get(u) == id) || (r.HasVar(u) && r.Get(u) == r'.Get(u))
    ensures LocalsFresh(r', taken)
  {
    hide Symbols.Derived, BaseText;
  }

  class CWriter {
    const m: Module
    const f: Func
    const globalSyms: set<string>

    var typeStack: seq<ValType>
    var labelStack: seq<Label>
    var usedLabels: set<nat>
    var names: SymbolMaps
    var localSyms: set<string>
    var stream: seq<CStmt<string>>

    /** The code in the stream, before identifiers were chosen. */
    ghost var written: seq<Stmt>

    ghost predicate Valid()
      reads this
    {
      && names.Injective()
      && (forall v: Sym | names.Has(v) :: names.Get(v) in localSyms)
      && globalSyms <= localSyms && LocalsFresh(names, globalSyms)
      && Covers(names, written) && stream == RenameCode(names, written)
    }

    // ----- symbols -----

    /** The symbol maps may only grow; nothing in the stream changes. */
    twostate predicate OnlyNames()
      reads this
    {
      && old(names).ExtendedBy(names) && names.globals == old(names.globals)
      && written == old(written) && stream == old(stream)
      && typeStack == old(typeStack) && labelStack == old(labelStack) && usedLabels == old(usedLabels)
    }

    /** DefineName on the local symbol set. */
    method DefineLocalName(name: string) returns (unique: string)
      modifies this`localSyms
      ensures unique !in old(localSyms) && localSyms == old(localSyms) + {unique}
      ensures Symbols.Chosen(old(localSyms), name, unique) && Symbols.IsIdentifier(unique)
    {
      unique, localSyms := Symbols.DefineName(localSyms, name);
    }

    /** DefineLocalScopeName: an entry the map has already is kept. */
    method DefineLocalScopeName(name: string) returns (unique: string)
      requires Valid()
      modifies this`names, this`localSyms
      ensures Valid() && OnlyNames()
      ensures unique !in old(localSyms) && localSyms == old(localSyms) + {unique}
      ensures names.slots == old(names.slots)
      ensures names.locals == if name in old(names.locals) then old(names.locals) else old(names.locals)[name := unique]
    {
      hide LocalsFresh, Symbols.Chosen, Symbols.Derived;
      ghost var taken := localSyms;
      unique := DefineLocalName(Symbols.Stripped(name));
      if name !in names.locals {
        ghost var before := names;
        names := names.(locals := names.locals[name := unique]);
        ExtendedCode(before, names, written);
        Symbols.ChosenDerived(taken, Symbols.Stripped(name), unique);
        LocalsStayFresh(before, names, Named(name), unique, globalSyms);
      }
    }

    /** Write(const StackVar&): the variable for slot `k` at type `t`, defined on first use. */
    method SlotName(k: nat, t: ValType) returns (id: string)
      requires Valid()
      modifies this`names, this`localSyms
      ensures Valid() && OnlyNames()
      ensures names.locals == old(names.locals)
      ensures names.HasVar(Slot(k, t)) && id == names.Get(Slot(k, t))
      ensures old(localSyms) <= localSyms
    {
      hide LocalsFresh, Symbols.Chosen, Symbols.Derived;
      if (k, t) in names.slots {
        id := names.slots[(k, t)];
      } else {
        ghost var taken := localSyms;
        id := DefineLocalName([Mangling.MangleType(t)] + Decimals.Decimal(k));
        ghost var before := names;
        names := names.(slots := names.slots[(k, t) := id]);
        ExtendedCode(before, names, written);
        Symbols.ChosenDerived(taken, [Mangling.MangleType(t)] + Decimals.Decimal(k), id);
        LocalsStayFresh(before, names, Slot(k, t), id, globalSyms);
      }
    }

    // ----- the stream -----

    /** `code` was appended to the stream; the symbol maps may have grown. */
    twostate predicate Wrote(code: seq<Stmt>)
      reads this
    {
      && Valid()
      && old(names).ExtendedBy(names) && names.globals == old(names.globals)
      && written == old(written) + code
      && labelStack == old(labelStack)
    }

    /** No local name was added, and the type stack and the labels are as before. */
    twostate predicate SameScope()
      reads this
    {
      names.locals == old(names.locals) && usedLabels == old(usedLabels)
    }

    method Emit(s: CStmt<string>, ghost sym: Stmt)
      requires Valid() && CoversStmt(names, sym) && s == RenameStmt(names, sym)
      modifies this`stream, this`written
      ensures Wrote([sym])
    {
      RenameConcat(names, written, [sym]);
      stream, written := stream + [s], written + [sym];
    }

    // ----- the type stack -----

    method PushType(t: ValType)
      modifies this`typeStack
      ensures typeStack == old(typeStack) + [t]
    {
      typeStack := typeStack + [t];
    }

    method PushTypes(ts: seq<ValType>)
      modifies this`typeStack
      ensures typeStack == old(typeStack) + ts
    {
      typeStack := typeStack + ts;
    }

    method DropTypesBy(n: nat)
      requires n <= |typeStack|
      modifies this`typeStack
      ensures typeStack == DropTypes(old(typeStack), n)
    {
      typeStack := typeStack[..|typeStack| - n];
    }

    method ResetTypeStack(mark: nat)
      requires mark <= |typeStack|
      modifies this`typeStack
      ensures typeStack == old(typeStack)[..mark]
    {
      typeStack := typeStack[..mark];
    }

    /** The variable of the operand `i` places below the top. */
    method StackVarName(i: nat) returns (id: string)
      requires Valid() && i < |typeStack|
      modifies this`names, this`localSyms
      ensures Valid() && OnlyNames() && names.locals == old(names.locals)
      ensures names.HasVar(StackVar(typeStack, i)) && id == names.Get(StackVar(typeStack, i))
    {
      var index := |typeStack| - 1 - i;
      id := SlotName(index, typeStack[index]);
    }

    /** The variable of that place at type `t`. */
    method StackVarNameAt(i: int, t: ValType) returns (id: string)
      requires Valid() && i < |typeStack|
      modifies this`names, this`localSyms
      ensures Valid() && OnlyNames() && names.locals == old(names.locals)
      ensures names.HasVar(StackVarAt(typeStack, i, t)) && id == names.Get(StackVarAt(typeStack, i, t))
    {
      id := SlotName(|typeStack| - 1 - i, t);
    }

    // ----- instructions that become one statement -----

    /** The local and global symbol maps have all names a body may use. */
    ghost predicate NamesDefined()
      reads this
    {
      && (forall n | n in f.localNames :: n in names.locals)
      && (forall n | n in FuncNames(m) || n in GlobalNames(m) :: n in names.globals)
    }

    /** Push a type, then assign to the new top. */
    method WritePush(t: ValType, rhs: CExp<string>, ghost sym: CExp<Sym>)
      requires Valid() && CoversExp(names, sym) && rhs == RenameExp(names, sym)
      modifies this
      ensures var ts := old(typeStack) + [t];
              Wrote([Assign(StackVar(ts, 0), sym)]) && SameScope() && typeStack == ts
    {
      PushType(t);
      ghost var before := names;
      var dst := StackVarName(0);
      ExtendedExp(before, names, sym);
      Emit(Assign(dst, rhs), Assign(StackVar(typeStack, 0), sym));
    }

    method WriteSimpleUnaryExpr(op: Op1)
      requires Valid() && |typeStack| >= 1
      modifies this
      ensures var ts := old(typeStack);
              && Wrote([Assign(StackVarAt(ts, 0, op.Result()), EOp1(op, StackVar(ts, 0)))]) && SameScope()
              && typeStack == DropTypes(ts, 1) + [op.Result()]
    {
      hide LocalsFresh, SymbolMaps.Injective, Covers, RenameCode;
      var dst := StackVarNameAt(0, op.Result());
      var a := StackVarName(0);
      Emit(Assign(dst, EOp1(op, a)), Assign(StackVarAt(typeStack, 0, op.Result()), EOp1(op, StackVar(typeStack, 0))));
      DropTypesBy(1);
      PushType(op.Result());
    }

    /** WriteInfixBinaryExpr, WritePrefixBinaryExpr, WriteSignedBinaryExpr and the shifts. */
    method WriteBinaryExpr(op: Op2)
      requires Valid() && EndsWith(0, typeStack, [op.Param(), op.Param()])
      modifies this
      ensures var ts := old(typeStack);
              && Wrote(CompileSimple(m, f, ts, Op2Expr(op)).stmts) && SameScope()
              && typeStack == DropTypes(ts, 2) + [op.Result()]
    {
      hide LocalsFresh, SymbolMaps.Injective, Covers, RenameCode;
      WriteBinaryStmt(op);
      ghost var ts := typeStack;
      assert ts[|ts| - 2] == op.Param() by { assert ts[|ts| - 2..][0] == ts[|ts| - 2]; }
      if op.Binary? && op.bin in {Shl, ShrS, ShrU} {
        DropTypesBy(1);
        assert ts[..|ts| - 1] == ts[..|ts| - 2] + [ts[|ts| - 2]];
      } else {
        DropTypesBy(2);
        PushType(op.Result());
      }
    }

    method WriteBinaryStmt(op: Op2)
      requires Valid() && |typeStack| >= 2
      modifies this
      ensures Wrote(CompileSimple(m, f, old(typeStack), Op2Expr(op)).stmts) && SameScope()
              && typeStack == old(typeStack)
    {
      hide LocalsFresh, SymbolMaps.Injective, Covers, RenameCode, WrittenAsAssignOp;
      ghost var target, a, b := StackVarAt(typeStack, 1, op.Result()), StackVar(typeStack, 1), StackVar(typeStack, 0);
      var dst := StackVarNameAt(1, op.Result());
      if WrittenAsAssignOp(op) {
        var y := StackVarName(0);
        Emit(AssignOp(dst, op, y), AssignOp(target, op, b));
      } else {
        var x := StackVarName(1);
        var y := StackVarName(0);
        Emit(Assign(dst, EOp2(op, x, y)), Assign(target, EOp2(op, a, b)));
      }
    }

    method WriteLoad(op: MemOp)
      requires Valid() && |typeStack| >= 1
      modifies this
      ensures var ts := old(typeStack);
              && Wrote([Assign(StackVarAt(ts, 0, op.ty), ELoad(op, StackVar(ts, 0)))]) && SameScope()
              && typeStack == DropTypes(ts, 1) + [op.ty]
    {
      hide LocalsFresh, SymbolMaps.Injective, Covers, RenameCode;
      var dst := StackVarNameAt(0, op.ty);
      var addr := StackVarName(0);
      Emit(Assign(dst, ELoad(op, addr)), Assign(StackVarAt(typeStack, 0, op.ty), ELoad(op, StackVar(typeStack, 0))));
      DropTypesBy(1);
      PushType(op.ty);
    }

    method WriteStore(op: MemOp)
      requires Valid() && |typeStack| >= 2
      modifies this
      ensures var ts := old(typeStack);
              && Wrote([CStore(op, StackVar(ts, 1), StackVar(ts, 0))]) && SameScope()
              && typeStack == DropTypes(ts, 2)
    {
      var addr := StackVarName(1);
      var v := StackVarName(0);
      Emit(CStore(op, addr, v), CStore(op, StackVar(typeStack, 1), StackVar(typeStack, 0)));
      DropTypesBy(2);
    }

    method WriteSelect()
      requires Valid() && |typeStack| >= 3
      modifies this
      ensures var ts := old(typeStack);
              && Wrote(CompileSimple(m, f, ts, Select).stmts) && SameScope()
              && typeStack == CompileSimple(m, f, ts, Select).types
    {
      hide LocalsFresh, SymbolMaps.Injective, Covers, RenameCode;
      ghost var ts := typeStack;
      var t := typeStack[|typeStack| - 2];
      var dst := StackVarName(2);
      var c := StackVarName(0);
      var a := StackVarName(2);
      var b := StackVarName(1);
      Emit(Assign(dst, ECond(c, a, b)),
        Assign(StackVar(ts, 2), ECond(StackVar(ts, 0), StackVar(ts, 2), StackVar(ts, 1))));
      DropTypesBy(3);
      PushType(t);
    }

    method WriteMemoryGrow()
      requires Valid() && |typeStack| >= 1
      modifies this
      ensures Wrote([CGrow(StackVar(old(typeStack), 0), StackVar(old(typeStack), 0))]) && SameScope()
      ensures typeStack == old(typeStack)
    {
      var dst := StackVarName(0);
      var v := StackVarName(0);
      Emit(CGrow(dst, v), CGrow(StackVar(typeStack, 0), StackVar(typeStack, 0)));
    }

    /** local.set and local.tee; the latter keeps the operand. */
    method WriteLocalSet(x: Var, keep: bool)
      requires Valid() && |typeStack| >= 1 && x.Name? && x.name in names.locals
      modifies this
      ensures var ts := old(typeStack);
              && Wrote([Assign(VarSym(x), EVar(StackVar(ts, 0)))]) && SameScope()
              && typeStack == if keep then ts else DropTypes(ts, 1)
    {
      var v := StackVarName(0);
      Emit(Assign(names.locals[x.name], EVar(v)), Assign(VarSym(x), EVar(StackVar(typeStack, 0))));
      if !keep {
        DropTypesBy(1);
      }
    }

    method WriteGlobalSet(x: Var)
      requires Valid() && |typeStack| >= 1 && x.Name? && x.name in names.globals
      modifies this
      ensures var ts := old(typeStack);
              Wrote([SetGlobal(GlobalVar(x), StackVar(ts, 0))]) && SameScope() && typeStack == DropTypes(ts, 1)
    {
      var v := StackVarName(0);
      Emit(SetGlobal(names.globals[x.name], v), SetGlobal(GlobalVar(x), StackVar(typeStack, 0)));
      DropTypesBy(1);
    }

    /** The instructions without nested expressions, branches or calls. */
    method WriteSimple(e: Expr, ghost base: nat)
      requires Valid() && NamesDefined() && base <= |typeStack|
      requires IsSimple(e) && NamedExpr(0, e) && !CheckSimple(m, f, base, typeStack, e).Invalid?
      modifies this
      ensures var code := CompileSimple(m, f, old(typeStack), e);
              Wrote(code.stmts) && SameScope() && (typeStack == code.types)
    {
      match e
      case Const(ty, bits) => WritePush(ty, ELit(bits), ELit(bits));
      case MemorySize => WritePush(I32, ESize, ESize);
      case LocalGet(x) => WritePush(LocalTypeOf(f, x), EVar(names.locals[x.name]), EVar(VarSym(x)));
      case GlobalGet(x) => WritePush(GlobalTypeOf(m, x), EGlobal(names.globals[x.name]), EGlobal(GlobalVar(x)));
      case LocalSet(x) => WriteLocalSet(x, false);
      case LocalTee(x) => WriteLocalSet(x, true);
      case GlobalSet(x) => WriteGlobalSet(x);
      case Op1Expr(op) => WriteSimpleUnaryExpr(op);
      case Op2Expr(op) => WriteBinaryExpr(op);
      case Load(op) => WriteLoad(op);
      case Store(op) => WriteStore(op);
      case Select => WriteSelect();
      case MemoryGrow => WriteMemoryGrow();
      case Nop =>
      case Drop => DropTypesBy(1);
      case Unreachable => Emit(CTrap, CTrap);
    }

    // ----- labels and jumps -----

    method PushLabel(kind: LabelKind, name: string, results: seq<ValType>)
      requires |results| <= 1
      modifies this`labelStack
      ensures labelStack == old(labelStack) + [Label(kind, name, results, |typeStack|)]
    {
      labelStack := labelStack + [Label(kind, name, results, |typeStack|)];
    }

    /** Drops the innermost label together with its `used` flag. */
    method PopLabel() returns (wasUsed: bool)
      requires labelStack != []
      modifies this`labelStack, this`usedLabels
      ensures labelStack == old(labelStack)[..|old(labelStack)| - 1]
      ensures usedLabels == old(usedLabels) - {|labelStack|} && wasUsed == (|labelStack| in old(usedLabels))
    {
      labelStack := labelStack[..|labelStack| - 1];
      wasUsed := |labelStack| in usedLabels;
      usedLabels := usedLabels - {|labelStack|};
    }

    /** FindLabel: searches from the innermost label outwards. */
    method FindLabel(x: Var) returns (i: nat)
      requires labelStack != [] && NamedLabel(|labelStack|, x)
      modifies this`usedLabels
      ensures i == FindLabelIndex(labelStack, x) && usedLabels == old(usedLabels) + {i}
    {
      i := 0;
      if x.Name? {
        var k := |labelStack|;
        while k > 0
          invariant 0 <= k <= |labelStack| && (k < |labelStack| ==> i == k)
          invariant forall j | k <= j < |labelStack| :: labelStack[j].name != x.name
        {
          i := k - 1;
          if labelStack[i].name == x.name {
            break;
          }
          k := k - 1;
        }
        LastNamed(x.name, i);
      }
      usedLabels := usedLabels + {i};
    }

    /** The last label of a name is the one its depth counts to. */
    lemma LastNamed(name: string, i: nat)
      requires i < |labelStack| && forall j | i < j < |labelStack| :: labelStack[j].name != name
      requires labelStack[i].name == name || i == 0
      ensures i == FindLabelIndex(labelStack, Name(name))
    {
      var ns := Names(labelStack);
      var d := DepthOfName(ns, name);
      if labelStack[i].name == name {
        assert ns[i] == name && ns[|ns| - 1 - d.value] == name;
      }
    }

    /** Every enclosing label has an identifier. */
    ghost predicate LabelsDefined()
      reads this
    {
      && IMPLICIT_FUNC_LABEL in names.locals
      && forall i | 0 < i < |labelStack| :: labelStack[i].name in names.locals
    }

    /** The value a jump carries, moved to the slot at its label's height. */
    method WriteMove(l: Label, dst: nat)
      requires Valid() && l.results != [] && 0 < dst < |typeStack|
      modifies this
      ensures Wrote([Assign(StackVarAt(old(typeStack), dst, l.results[0]), EVar(StackVar(old(typeStack), 0)))])
      ensures SameScope() && typeStack == old(typeStack)
    {
      var d := StackVarNameAt(dst, l.results[0]);
      var v := StackVarName(0);
      Emit(Assign(d, EVar(v)), Assign(StackVarAt(typeStack, dst, l.results[0]), EVar(StackVar(typeStack, 0))));
    }

    method WriteGotoName(x: Var)
      requires Valid() && IMPLICIT_FUNC_LABEL in names.locals && (x.Name? ==> x.name in names.locals)
      modifies this
      ensures Wrote([CGoto(GotoSym(x))]) && SameScope() && typeStack == old(typeStack)
    {
      Emit(CGoto(names.locals[if x.Name? then x.name else IMPLICIT_FUNC_LABEL]), CGoto(GotoSym(x)));
    }

    /** Write(const GotoLabel&). */
    method WriteGoto(x: Var, ghost base: nat)
      requires Valid() && LabelsDefined() && LabelsOk(f, labelStack, base)
      requires ValidBranch(labelStack, base, typeStack, x) && NamedLabel(|labelStack|, x)
      modifies this
      ensures Wrote(GotoStmts(old(labelStack), old(typeStack), x)) && names.locals == old(names.locals)
      ensures typeStack == old(typeStack) && usedLabels == old(usedLabels) + {FindLabelIndex(old(labelStack), x)}
    {
      hide LocalsFresh, SymbolMaps.Injective, Covers, RenameCode, ValidBranch;
      TargetIndex(x, base);
      var i := FindLabel(x);
      var l := labelStack[i];
      if HasValue(l) {
        var dst := |typeStack| - l.height - 1;
        if dst != 0 {
          WriteMove(l, dst);
        }
      }
      WriteGotoName(x);
    }

    /** A valid branch goes to a label on the stack, with its operands above that label's height. */
    lemma TargetIndex(x: Var, base: nat)
      requires LabelsOk(f, labelStack, base)
      requires ValidBranch(labelStack, base, typeStack, x) && NamedLabel(|labelStack|, x)
      ensures var l := labelStack[FindLabelIndex(labelStack, x)];
              && l.height <= base && |l.results| <= 1
              && base + |l.BranchTypes()| <= |typeStack|
              && (x.Name? ==> l.name == x.name && FindLabelIndex(labelStack, x) > 0)
    {
      if x.Name? {
        var d := DepthOfName(Names(labelStack), x.name);
        assert Names(labelStack)[|labelStack| - 1 - d.value] == x.name;
      }
    }

    // ----- nested statement lists -----

    /** Puts back the stream `outer`, with the code in `outerWritten`, after a nested list. */
    method CloseNested(outer: seq<CStmt<string>>, ghost outerWritten: seq<Stmt>, ghost outerNames: SymbolMaps)
      returns (nested: seq<CStmt<string>>)
      requires Valid() && outerNames.ExtendedBy(names)
      requires Covers(outerNames, outerWritten) && outer == RenameCode(outerNames, outerWritten)
      modifies this`stream, this`written
      ensures Valid() && stream == outer && written == outerWritten
      ensures Covers(names, old(written)) && nested == RenameCode(names, old(written))
    {
      nested := stream;
      ExtendedCode(outerNames, names, outerWritten);
      stream, written := outer, outerWritten;
    }

    /** The statements of a jump, as a nested list. */
    method WriteNestedGoto(x: Var, ghost base: nat) returns (nested: seq<CStmt<string>>)
      requires Valid() && LabelsDefined() && LabelsOk(f, labelStack, base)
      requires ValidBranch(labelStack, base, typeStack, x) && NamedLabel(|labelStack|, x)
      modifies this
      ensures Wrote([]) && names.locals == old(names.locals) && stream == old(stream)
      ensures var code := GotoStmts(old(labelStack), old(typeStack), x);
              Covers(names, code) && nested == RenameCode(names, code)
      ensures typeStack == old(typeStack) && usedLabels == old(usedLabels) + {FindLabelIndex(old(labelStack), x)}
    {
      hide LocalsFresh, SymbolMaps.Injective, ValidBranch;
      var outer := stream;
      ghost var outerWritten, outerNames := written, names;
      stream, written := [], [];
      WriteGoto(x, base);
      assert written == GotoStmts(labelStack, typeStack, x);
      nested := CloseNested(outer, outerWritten, outerNames);
    }

    lemma BrIfCode(labels: seq<Label>, ts: seq<ValType>, x: Var)
      requires labels != [] && ts != []
      ensures CompileExpr(m, f, labels, ts, BrIf(x)) ==
              Code([CIf(StackVar(ts, 0), GotoStmts(labels, ts[..|ts| - 1], x), [])], ts[..|ts| - 1],
                {FindLabelIndex(labels, x)})
    {
      hide GotoStmts;
    }

    method WriteBrIf(x: Var, ghost base: nat)
      requires Valid() && LabelsDefined() && LabelsOk(f, labelStack, base)
      requires EndsWith(base, typeStack, [I32]) && ValidBranch(labelStack, base, typeStack[..|typeStack| - 1], x)
      requires NamedLabel(|labelStack|, x)
      modifies this
      ensures var code := CompileExpr(m, f, old(labelStack), old(typeStack), BrIf(x));
              && Wrote(code.stmts) && names.locals == old(names.locals)
              && typeStack == code.types && usedLabels == old(usedLabels) + code.used
    {
      hide LocalsFresh, SymbolMaps.Injective, Covers, RenameCode, ValidBranch, GotoStmts, CompileExpr;
      ghost var ts := typeStack;
      BrIfCode(labelStack, ts, x);
      var c := StackVarName(0);
      DropTypesBy(1);
      var nested := WriteNestedGoto(x, base);
      NoStatements();
      WriteCondition(c, nested, [], ts, GotoStmts(labelStack, typeStack, x), []);
    }

    lemma UsedBySnoc(labels: seq<Label>, targets: seq<Var>, i: nat)
      requires labels != [] && i < |targets|
      ensures UsedBy(labels, targets[..i + 1]) == UsedBy(labels, targets[..i]) + {FindLabelIndex(labels, targets[i])}
    {
      hide FindLabelIndex;
      assert targets[..i + 1] == targets[..i] + [targets[i]];
    }

    lemma UsedByNone(labels: seq<Label>, targets: seq<Var>)
      requires labels != []
      ensures UsedBy(labels, targets[..0]) == {}
    {}

    lemma BrTableCode(labels: seq<Label>, ts: seq<ValType>, targets: seq<Var>, default_: Var)
      requires labels != [] && ts != []
      ensures CompileExpr(m, f, labels, ts, BrTable(targets, default_)) ==
                Code([CSwitch(StackVar(ts, 0), SwitchArms(labels, ts[..|ts| - 1], targets + [default_]))],
                     ts[..|ts| - 1], UsedBy(labels, targets + [default_]))
    {
      hide SwitchArms, UsedBy;
    }

    lemma SwitchCovered(r: SymbolMaps, v: Sym, arms: seq<Arm<Sym>>)
      requires r.HasVar(v) && forall i | 0 <= i < |arms| :: Covers(r, arms[i].stmts)
      ensures CoversStmt(r, CSwitch(v, arms))
              && RenameStmt(r, CSwitch(v, arms)) == CSwitch(r.Get(v), RenameArms(r, arms))
    {
      hide Covers, RenameArms;
    }

    /** The arms of a `switch`, one jump each. */
    method WriteArms(targets: seq<Var>, ghost base: nat) returns (arms: seq<Arm<string>>)
      requires Valid() && LabelsDefined() && LabelsOk(f, labelStack, base)
      requires forall i | 0 <= i < |targets| ::
                 ValidBranch(labelStack, base, typeStack, targets[i]) && NamedLabel(|labelStack|, targets[i])
      modifies this
      ensures Wrote([]) && names.locals == old(names.locals)
      ensures var code := SwitchArms(old(labelStack), old(typeStack), targets);
              && (forall i | 0 <= i < |code| :: Covers(names, code[i].stmts)) && arms == RenameArms(names, code)
      ensures typeStack == old(typeStack) && usedLabels == old(usedLabels) + UsedBy(old(labelStack), targets)
    {
      hide LocalsFresh, SymbolMaps.Injective, ValidBranch, Covers, RenameCode, FindLabelIndex, GotoStmts, UsedBy;
      arms := [];
      ghost var code := SwitchArms(labelStack, typeStack, targets);
      UsedByNone(labelStack, targets);
      var i := 0;
      while i < |targets|
        invariant 0 <= i <= |targets| && |arms| == i
        invariant Wrote([]) && names.locals == old(names.locals)
        invariant typeStack == old(typeStack) && usedLabels == old(usedLabels) + UsedBy(labelStack, targets[..i])
        invariant forall k | 0 <= k < i ::
                  Covers(names, code[k].stmts) && arms[k] == Arm(RenameCode(names, code[k].stmts))
      {
        ghost var before := names;
        var nested := WriteNestedGoto(targets[i], base);
        forall k | 0 <= k < i
          ensures Covers(names, code[k].stmts) && RenameCode(names, code[k].stmts) == RenameCode(before, code[k].stmts)
        {
          ExtendedCode(before, names, code[k].stmts);
        }
        arms := arms + [Arm(nested)];
        UsedBySnoc(labelStack, targets, i);
        i := i + 1;
      }
      assert targets[..i] == targets;
      assert arms == RenameArms(names, code);
    }

    method WriteBrTable(targets: seq<Var>, default_: Var, ghost base: nat)
      requires Valid() && LabelsDefined() && LabelsOk(f, labelStack, base)
      requires EndsWith(base, typeStack, [I32])
      requires forall x | x in targets + [default_] ::
                 ValidBranch(labelStack, base, typeStack[..|typeStack| - 1], x) && NamedLabel(|labelStack|, x)
      modifies this
      ensures var code := CompileExpr(m, f, old(labelStack), old(typeStack), BrTable(targets, default_));
              && Wrote(code.stmts) && names.locals == old(names.locals)
              && typeStack == code.types && usedLabels == old(usedLabels) + code.used
    {
      hide LocalsFresh, SymbolMaps.Injective, ValidBranch, Covers, RenameCode, FindLabelIndex, GotoStmts, UsedBy,
        CompileExpr,
        SwitchArms, CoversStmt, RenameStmt;
      BrTableCode(labelStack, typeStack, targets, default_);
      ghost var ts := typeStack;
      var v := StackVarName(0);
      DropTypesBy(1);
      var all := targets + [default_];
      assert forall i | 0 <= i < |all| :: all[i] in all;
      var arms := WriteArms(all, base);
      SwitchCovered(names, StackVar(ts, 0), SwitchArms(labelStack, typeStack, all));
      Emit(CSwitch(v, arms), CSwitch(StackVar(ts, 0), SwitchArms(labelStack, typeStack, all)));
    }

    // ----- calls -----

    /** The arguments of a call, first argument first. */
    method WriteArgs(n: nat, skip: nat) returns (args: seq<string>)
      requires Valid() && n + skip <= |typeStack|
      modifies this`names, this`localSyms
      ensures Valid() && OnlyNames() && names.locals == old(names.locals)
      ensures HasAll(names, ArgVars(typeStack, n, skip)) && args == RenameAll(names, ArgVars(typeStack, n, skip))
    {
      hide LocalsFresh, SymbolMaps.Injective, Covers, RenameCode;
      args := [];
      ghost var syms := ArgVars(typeStack, n, skip);
      for i := 0 to n
        invariant Valid() && OnlyNames() && names.locals == old(names.locals)
        invariant |args| == i && forall k | 0 <= k < i :: names.HasVar(syms[k]) && args[k] == names.Get(syms[k])
      {
        var a := StackVarName(n + skip - i - 1);
        args := args + [a];
      }
      assert args == RenameAll(names, syms);
    }

    method ResultName(place: int, results: seq<ValType>) returns (res: Option<string>)
      requires Valid() && place < |typeStack|
      modifies this`names, this`localSyms
      ensures Valid() && OnlyNames() && names.locals == old(names.locals)
      ensures HasOption(names, ResultVar(typeStack, place, results))
      ensures res == RenameOption(names, ResultVar(typeStack, place, results))
    {
      if results == [] {
        res := None;
      } else {
        var id := StackVarNameAt(place, results[0]);
        res := Some(id);
      }
    }

    method WriteCall(x: Var, i: nat)
      requires Valid() && x.Name? && x.name in names.globals
      requires Resolve(FuncNames(m), x) == Some(i) && |m.funcs[i].sig.params| <= |typeStack|
      modifies this
      ensures var sig := m.funcs[i].sig;
              var ts := old(typeStack);
              var n := |sig.params|;
              && Wrote([CCall(ResultVar(ts, n - 1, sig.results), GlobalVar(x), ArgVars(ts, n, 0))]) && SameScope()
              && typeStack == DropTypes(ts, n) + sig.results
    {
      hide LocalsFresh, SymbolMaps.Injective, Covers, RenameCode, HasAll;
      var sig := m.funcs[i].sig;
      var n := |sig.params|;
      ghost var sym := CCall(ResultVar(typeStack, n - 1, sig.results), GlobalVar(x), ArgVars(typeStack, n, 0));
      var res := ResultName(n - 1, sig.results);
      ghost var before := names;
      var args := WriteArgs(n, 0);
      Emit(CCall(res, names.globals[x.name], args), sym);
      DropTypesBy(n);
      PushTypes(sig.results);
    }

    method WriteCallIndirect(sig: FuncSig)
      requires Valid() && |sig.params| < |typeStack|
      modifies this
      ensures var ts := old(typeStack);
              var n := |sig.params|;
              && Wrote([CCallIndirect(ResultVar(ts, n, sig.results), sig, StackVar(ts, 0), ArgVars(ts, n, 1))])
                && SameScope()
              && typeStack == DropTypes(ts, n + 1) + sig.results
    {
      hide LocalsFresh, SymbolMaps.Injective, Covers, RenameCode, HasAll;
      var n := |sig.params|;
      ghost var sym := CCallIndirect(ResultVar(typeStack, n, sig.results), sig, StackVar(typeStack, 0),
        ArgVars(typeStack, n, 1));
      var res := ResultName(n, sig.results);
      var elem := StackVarName(0);
      var args := WriteArgs(n, 1);
      Emit(CCallIndirect(res, sig, elem, args), sym);
      DropTypesBy(n + 1);
      PushTypes(sig.results);
    }

    // ----- blocks and lists -----

    /** What the writer needs before a list or expression that declares the labels `inner`. */
    ghost predicate Ready(inner: set<string>, base: nat)
      reads this
    {
      && Valid() && NamesDefined() && LabelsDefined() && LabelsOk(f, labelStack, base) && base <= |typeStack|
      && (forall i | i in usedLabels :: i < |labelStack|)
      && inner !! names.locals.Keys && "" !in inner
    }

    /** `code` was written, and nothing but its labels was added to the local names. */
    twostate predicate WroteCode(code: Code, inner: set<string>)
      reads this
    {
      && Wrote(code.stmts) && typeStack == code.types && usedLabels == old(usedLabels) + code.used
      && names.locals.Keys <= old(names.locals.Keys) + inner
    }

    /** Below the start of a block nothing of the type stack changes. */
    lemma {:induction false} BaseKept(labels: seq<Label>, base: nat, ts: seq<ValType>, es: ExprList)
      requires labels != [] && base <= |ts| && !CheckList(m, f, labels, base, ts, es).Invalid?
      ensures var types := CompileList(m, f, labels, ts, es).types;
              base <= |types| && types[..base] == ts[..base]
      decreases es
    {
      if es.Cons? {
        var c := CompileExpr(m, f, labels, ts, es.head);
        TypesAgree(m, f, labels, base, ts, es.head);
        if Stops(es.head) {
          StopKept(labels, base, ts, es.head);
        } else {
          BaseKept(labels, base, c.types, es.tail);
        }
      }
    }

    lemma StopKept(labels: seq<Label>, base: nat, ts: seq<ValType>, e: Expr)
      requires labels != [] && base <= |ts| && Stops(e) && !CheckExpr(m, f, labels, base, ts, e).Invalid?
      ensures var types := CompileExpr(m, f, labels, ts, e).types;
              base <= |types| && types[..base] == ts[..base]
    {
      hide GotoStmts, SwitchArms, ValidBranch;
    }

    /** LabelDecl: written only when some jump used the label. */
    method WriteLabelDecl(unique: string, name: string)
      requires Valid() && labelStack != [] && name in names.locals && names.locals[name] == unique
      modifies this
      ensures Wrote(if |labelStack| - 1 in old(usedLabels) then [CLabel(Named(name))] else []) && SameScope()
      ensures typeStack == old(typeStack)
    {
      hide LocalsFresh, SymbolMaps.Injective, Covers, RenameCode;
      if |labelStack| - 1 in usedLabels {
        Emit(CLabel(unique), CLabel(Named(name)));
      } else {
        assert written + [] == written;
      }
    }

    /** Entering a block defines its label. */
    method OpenLabel(kind: LabelKind, name: string, results: seq<ValType>, ghost inner: set<string>, ghost base: nat)
      returns (unique: string)
      requires Ready(inner + {name}, base) && name !in inner && |results| <= 1
      modifies this
      ensures Ready(inner, |typeStack|)
      ensures labelStack == old(labelStack) + [Label(kind, name, results, |typeStack|)]
      ensures typeStack == old(typeStack) && usedLabels == old(usedLabels) && written == old(written)
      ensures old(names).ExtendedBy(names) && names.globals == old(names.globals)
      ensures names.locals == old(names.locals)[name := unique]
    {
      hide LocalsFresh, SymbolMaps.Injective, Covers, RenameCode;
      unique := DefineLocalScopeName(name);
      PushLabel(kind, name, results);
    }

    /** Leaving it: the type stack becomes what it was, with the results on top. */
    method CloseLabel(mark: nat, results: seq<ValType>)
      requires Valid() && labelStack != [] && mark <= |typeStack|
      modifies this
      ensures Valid() && names == old(names) && written == old(written)
      ensures labelStack == old(labelStack)[..|old(labelStack)| - 1]
      ensures usedLabels == old(usedLabels) - {|labelStack|}
      ensures typeStack == old(typeStack)[..mark] + results
    {
      ResetTypeStack(mark);
      var wasUsed := PopLabel();
      PushTypes(results);
    }

    /** Emitted jumps only refer to labels on the stack. */
    lemma {:induction false} UsedBounded(labels: seq<Label>, ts: seq<ValType>, e: Expr)
      requires labels != []
      ensures forall i | i in CompileExpr(m, f, labels, ts, e).used :: i < |labels|
      decreases e
    {
      match e
      case Block(name, results, body) => UsedBoundedList(labels + [Label(BlockLabel, name, results, |ts|)], ts, body);
      case Loop(name, results, body) => UsedBoundedList(labels + [Label(LoopLabel, name, results, |ts|)], ts, body);
      case If(name, results, then_, else_) =>
        var ts1 := DropTypes(ts, 1);
        UsedBoundedList(labels + [Label(IfLabel, name, results, |ts1|)], ts1, then_);
        UsedBoundedList(labels + [Label(IfLabel, name, results, |ts1|)], ts1, else_);
      case _ => if IsSimple(e) { SimpleUsesNone(labels, ts, e); }
    }

    lemma SimpleUsesNone(labels: seq<Label>, ts: seq<ValType>, e: Expr)
      requires labels != [] && IsSimple(e)
      ensures CompileExpr(m, f, labels, ts, e) == CompileSimple(m, f, ts, e)
      ensures CompileExpr(m, f, labels, ts, e).used == {}
    {}

    lemma {:induction false} UsedBoundedList(labels: seq<Label>, ts: seq<ValType>, es: ExprList)
      requires labels != []
      ensures forall i | i in CompileList(m, f, labels, ts, es).used :: i < |labels|
      decreases es
    {
      if es.Cons? {
        UsedBounded(labels, ts, es.head);
        UsedBoundedList(labels, CompileExpr(m, f, labels, ts, es.head).types, es.tail);
      }
    }

    /** Names that were defined stay defined while the maps grow. */
    lemma StillDefined(before: SymbolMaps)
      requires before.ExtendedBy(names)
      requires forall n | n in f.localNames :: n in before.locals
      requires forall n | n in FuncNames(m) || n in GlobalNames(m) :: n in before.globals
      requires IMPLICIT_FUNC_LABEL in before.locals && forall i | 0 < i < |labelStack| ::
               labelStack[i].name in before.locals
      ensures NamesDefined() && LabelsDefined()
    {
      assert forall n | n in before.locals :: before.Has(Named(n));
      assert forall n | n in before.globals :: before.Has(GlobalSym(n));
    }

    /** An identifier stays what it is while the maps grow. */
    lemma StillNamed(before: SymbolMaps, name: string)
      requires before.ExtendedBy(names) && name in before.locals
      ensures name in names.locals && names.locals[name] == before.locals[name]
    {
      assert before.Has(Named(name));
    }

    method WriteBlock(e: Expr, ghost base: nat)
      requires e.Block? && Ready(LabelsOf(e), base)
      requires CheckExpr(m, f, labelStack, base, typeStack, e).Typed? && NamedExpr(|labelStack|, e) && DistinctLabels(e)
      modifies this
      ensures WroteCode(CompileExpr(m, f, old(labelStack), old(typeStack), e), LabelsOf(e))
      decreases e, 0
    {
      hide LocalsFresh, SymbolMaps.Injective, Covers, RenameCode;
      ghost var ts, ls := typeStack, labelStack;
      ghost var l := Label(BlockLabel, e.name, e.results, |ts|);
      assert !CheckBody(m, f, ls + [l], ts, e.results, e.body).Invalid?;
      var unique := OpenLabel(BlockLabel, e.name, e.results, LabelsOfList(e.body), base);
      ghost var afterOpen := names;
      var mark := |typeStack|;
      WriteList(e.body, mark);
      BaseKept(ls + [l], |ts|, ts, e.body);
      StillNamed(afterOpen, e.name);
      WriteLabelDecl(unique, e.name);
      CloseLabel(mark, e.results);
      assert ts[..|ts|] == ts;
    }

    method WriteLoop(e: Expr, ghost base: nat)
      requires e.Loop? && Ready(LabelsOf(e), base)
      requires CheckExpr(m, f, labelStack, base, typeStack, e).Typed? && NamedExpr(|labelStack|, e) && DistinctLabels(e)
      modifies this
      ensures WroteCode(CompileExpr(m, f, old(labelStack), old(typeStack), e), LabelsOf(e))
      decreases e, 1
    {
      hide LocalsFresh, SymbolMaps.Injective, Covers, RenameCode, CompileExpr, CheckExpr;
      if e.body.Cons? {
        WriteFullLoop(e, base);
      } else {
        EmptyLoopCode(labelStack, typeStack, e);
        assert written == old(written) + [];
      }
    }

    /** A loop with a body: its label comes first. */
    method WriteFullLoop(e: Expr, ghost base: nat)
      requires e.Loop? && e.body.Cons? && Ready(LabelsOf(e), base)
      requires CheckExpr(m, f, labelStack, base, typeStack, e).Typed? && NamedExpr(|labelStack|, e) && DistinctLabels(e)
      modifies this
      ensures WroteCode(CompileExpr(m, f, old(labelStack), old(typeStack), e), LabelsOf(e))
      decreases e, 0
    {
      hide LabelsOfList, NamedList, DistinctLabelsList, LocalsFresh, SymbolMaps.Injective, Covers, RenameCode,
        CompileExpr, CompileList, CheckList, CheckExpr,
        CheckBody;
      ghost var ts, ls := typeStack, labelStack;
      ghost var l := Label(LoopLabel, e.name, e.results, |ts|);
      LoopChecks(ls, base, ts, e);
      LoopCode(ls, ts, e);
      var unique := OpenLabel(LoopLabel, e.name, e.results, LabelsOfList(e.body), base);
      Emit(CLabel(unique), CLabel(Named(e.name)));
      StillDefined(names);
      var mark := |typeStack|;
      WriteList(e.body, mark);
      BaseKept(ls + [l], |ts|, ts, e.body);
      CloseLabel(mark, e.results);
      assert ts[..|ts|] == ts;
    }

    lemma LoopChecks(labels: seq<Label>, base: nat, ts: seq<ValType>, e: Expr)
      requires labels != [] && e.Loop? && CheckExpr(m, f, labels, base, ts, e).Typed?
      ensures !CheckList(m, f, labels + [Label(LoopLabel, e.name, e.results, |ts|)], |ts|, ts, e.body).Invalid?
      ensures |e.results| <= 1
    {
      hide CheckList;
      assert !CheckBody(m, f, labels + [Label(LoopLabel, e.name, e.results, |ts|)], ts, e.results, e.body).Invalid?;
    }

    lemma EmptyLoopCode(labels: seq<Label>, ts: seq<ValType>, e: Expr)
      requires labels != [] && e.Loop? && e.body.Nil?
      ensures CompileExpr(m, f, labels, ts, e) == Code([], ts, {})
    {}

    lemma LoopCode(labels: seq<Label>, ts: seq<ValType>, e: Expr)
      requires labels != [] && e.Loop? && e.body.Cons?
      ensures var c := CompileList(m, f, labels + [Label(LoopLabel, e.name, e.results, |ts|)], ts, e.body);
              CompileExpr(m, f, labels, ts, e)
                == Code([CLabel(Named(e.name))] + c.stmts, ts + e.results, c.used - {|labels|})
    {
      hide CompileList;
    }

    /** A list between braces. */
    method WriteNestedList(es: ExprList, ghost base: nat) returns (nested: seq<CStmt<string>>)
      requires Ready(LabelsOfList(es), base)
      requires !CheckList(m, f, labelStack, base, typeStack, es).Invalid?
      requires NamedList(|labelStack|, es) && DistinctLabelsList(es)
      modifies this
      ensures var code := CompileList(m, f, old(labelStack), old(typeStack), es);
              && WroteCode(Code([], code.types, code.used), LabelsOfList(es))
              && Covers(names, code.stmts) && nested == RenameCode(names, code.stmts)
      decreases es, 4
    {
      hide LocalsFresh, SymbolMaps.Injective;
      var outer := stream;
      ghost var outerWritten, outerNames := written, names;
      stream, written := [], [];
      ghost var ts, ls := typeStack, labelStack;
      WriteList(es, base);
      assert written == CompileList(m, f, ls, ts, es).stmts;
      nested := CloseNested(outer, outerWritten, outerNames);
    }

    lemma IfParts(labels: seq<Label>, base: nat, ts: seq<ValType>, e: Expr)
      requires labels != [] && e.If? && CheckExpr(m, f, labels, base, ts, e).Typed?
      ensures |ts| > base && |e.results| <= 1
      ensures var rest := ts[..|ts| - 1];
              var inner := labels + [Label(IfLabel, e.name, e.results, |rest|)];
              && !CheckList(m, f, inner, |rest|, rest, e.then_).Invalid?
              && !CheckList(m, f, inner, |rest|, rest, e.else_).Invalid?
    {
      hide CheckList;
      var rest := ts[..|ts| - 1];
      var inner := labels + [Label(IfLabel, e.name, e.results, |rest|)];
      assert !CheckBody(m, f, inner, rest, e.results, e.then_).Invalid?;
      assert !CheckBody(m, f, inner, rest, e.results, e.else_).Invalid?;
    }

    lemma IfCode(labels: seq<Label>, ts: seq<ValType>, e: Expr)
      requires labels != [] && e.If? && ts != []
      ensures var rest := ts[..|ts| - 1];
              var inner := labels + [Label(IfLabel, e.name, e.results, |rest|)];
              var c, d := CompileList(m, f, inner, rest, e.then_), CompileList(m, f, inner, rest, e.else_);
              var used := c.used + d.used;
              CompileExpr(m, f, labels, ts, e) == Code(
                [CIf(StackVar(ts, 0), c.stmts, d.stmts)] + if |labels| in used then [CLabel(Named(e.name))] else [],
                rest + e.results, used - {|labels|})
    {
      var rest := ts[..|ts| - 1];
      var inner := labels + [Label(IfLabel, e.name, e.results, |rest|)];
      if e.else_.Nil? { assert CompileList(m, f, inner, rest, e.else_) == Code([], rest, {}); }
    }

    /** Both arms of an `if`, written at the same type stack. */
    method WriteArmsOfIf(e: Expr) returns (thenCode: seq<CStmt<string>>, elseCode: seq<CStmt<string>>)
      requires e.If? && Ready(LabelsOfList(e.then_) + LabelsOfList(e.else_), |typeStack|)
      requires !CheckList(m, f, labelStack, |typeStack|, typeStack, e.then_).Invalid?
      requires !CheckList(m, f, labelStack, |typeStack|, typeStack, e.else_).Invalid?
      requires NamedList(|labelStack|, e.then_) && NamedList(|labelStack|, e.else_)
      requires DistinctLabelsList(e.then_) && DistinctLabelsList(e.else_)
      requires LabelsOfList(e.then_) !! LabelsOfList(e.else_)
      modifies this
      ensures var ts, ls := old(typeStack), old(labelStack);
              var c, d := CompileList(m, f, ls, ts, e.then_), CompileList(m, f, ls, ts, e.else_);
              && Wrote([]) && usedLabels == old(usedLabels) + (c.used + d.used)
              && Covers(names, c.stmts) && thenCode == RenameCode(names, c.stmts)
              && Covers(names, d.stmts) && elseCode == RenameCode(names, d.stmts)
              && |typeStack| >= |ts| && typeStack[..|ts|] == ts
      ensures names.locals.Keys <= old(names.locals.Keys) + (LabelsOfList(e.then_) + LabelsOfList(e.else_))
      decreases e, 0
    {
      hide LocalsFresh, SymbolMaps.Injective, Covers, RenameCode, CompileExpr, CompileList, CheckList, CheckExpr;
      ghost var ts, ls, before := typeStack, labelStack, names;
      ghost var c, d := CompileList(m, f, ls, ts, e.then_), CompileList(m, f, ls, ts, e.else_);
      var mark := |typeStack|;
      BaseKept(ls, mark, ts, e.then_);
      UsedBoundedList(ls, ts, e.then_);
      thenCode := WriteNestedList(e.then_, mark);
      StillDefined(before);
      ghost var afterThen := names;
      assert typeStack[..mark] == ts by { assert ts[..mark] == ts; }
      elseCode := [];
      if e.else_.Cons? {
        ResetTypeStack(mark);
        assert typeStack == ts by { assert ts[..mark] == ts; }
        BaseKept(ls, mark, ts, e.else_);
        elseCode := WriteNestedList(e.else_, mark);
        ExtendedCode(afterThen, names, c.stmts);
      } else {
        NoCode(ls, ts);
      }
    }

    lemma NoCode(labels: seq<Label>, ts: seq<ValType>)
      requires labels != []
      ensures CompileList(m, f, labels, ts, Nil) == Code([], ts, {})
      ensures Covers(names, []) && RenameCode(names, []) == []
    {
      NoStatements();
    }

    lemma NoStatements()
      ensures Covers(names, []) && RenameCode(names, []) == []
    {}

    method WriteIf(e: Expr, ghost base: nat)
      requires e.If? && Ready(LabelsOf(e), base)
      requires CheckExpr(m, f, labelStack, base, typeStack, e).Typed? && NamedExpr(|labelStack|, e) && DistinctLabels(e)
      modifies this
      ensures WroteCode(CompileExpr(m, f, old(labelStack), old(typeStack), e), LabelsOf(e))
      decreases e, 2
    {
      hide LabelsOfList, NamedList, DistinctLabelsList, LocalsFresh, SymbolMaps.Injective, Covers, RenameCode,
        CompileExpr, CompileList, CheckList, CheckExpr;
      ghost var ts, ls, before := typeStack, labelStack, names;
      IfParts(ls, base, ts, e);
      IfCode(ls, ts, e);
      var v := StackVarName(0);
      DropTypesBy(1);
      StillDefined(before);
      ghost var rest, afterCond := typeStack, names;
      ghost var inner := labelStack + [Label(IfLabel, e.name, e.results, |rest|)];
      ghost var c, d := CompileList(m, f, inner, rest, e.then_), CompileList(m, f, inner, rest, e.else_);
      var mark := |typeStack|;
      var unique := OpenLabel(IfLabel, e.name, e.results, LabelsOfList(e.then_) + LabelsOfList(e.else_), base);
      WriteOpenedIf(e, v, unique, ts);
      assert names.locals.Keys <= before.locals.Keys + LabelsOf(e);
      CloseLabel(mark, e.results);
    }

    /** The statement of an `if` and its label, once the label is on the stack. */
    method WriteOpenedIf(e: Expr, v: string, unique: string, ghost ts: seq<ValType>)
      requires e.If? && Ready(LabelsOfList(e.then_) + LabelsOfList(e.else_), |typeStack|)
      requires !CheckList(m, f, labelStack, |typeStack|, typeStack, e.then_).Invalid?
      requires !CheckList(m, f, labelStack, |typeStack|, typeStack, e.else_).Invalid?
      requires NamedList(|labelStack|, e.then_) && NamedList(|labelStack|, e.else_)
      requires DistinctLabels(e)
      requires names.HasVar(StackVar(ts, 0)) && v == names.Get(StackVar(ts, 0))
      requires e.name in names.locals && names.locals[e.name] == unique
      modifies this
      ensures var ls := old(labelStack);
              var c, d := CompileList(m, f, ls, old(typeStack), e.then_),
                CompileList(m, f, ls, old(typeStack), e.else_);
              && usedLabels == old(usedLabels) + (c.used + d.used)
              && Wrote([CIf(StackVar(ts, 0), c.stmts, d.stmts)]
                       + if |ls| - 1 in usedLabels then [CLabel(Named(e.name))] else [])
              && |typeStack| >= |old(typeStack)| && typeStack[..|old(typeStack)|] == old(typeStack)
      ensures names.locals.Keys <= old(names.locals.Keys) + (LabelsOfList(e.then_) + LabelsOfList(e.else_))
      decreases e, 1
    {
      hide LocalsFresh, SymbolMaps.Injective, Covers, RenameCode, CompileExpr, CompileList, CheckList, CheckExpr;
      ghost var before := names;
      ghost var c, d := CompileList(m, f, labelStack, typeStack, e.then_),
        CompileList(m, f, labelStack, typeStack, e.else_);
      var thenCode, elseCode := WriteArmsOfIf(e);
      StillNamed(before, e.name);
      WriteCondition(v, thenCode, elseCode, ts, c.stmts, d.stmts);
      StillNamed(before, e.name);
      WriteLabelDecl(unique, e.name);
      assert written == old(written) + ([CIf(StackVar(ts, 0), c.stmts, d.stmts)]
                        + if |labelStack| - 1 in usedLabels then [CLabel(Named(e.name))] else []);
    }

    method WriteCondition(
      v: string, thenCode: seq<CStmt<string>>, elseCode: seq<CStmt<string>>,
      ghost ts: seq<ValType>, ghost c: seq<Stmt>, ghost d: seq<Stmt>)
      requires Valid() && names.HasVar(StackVar(ts, 0)) && v == names.Get(StackVar(ts, 0))
      requires Covers(names, c) && thenCode == RenameCode(names, c)
      requires Covers(names, d) && elseCode == RenameCode(names, d)
      modifies this`stream, this`written
      ensures Wrote([CIf(StackVar(ts, 0), c, d)])
    {
      Emit(CIf(v, thenCode, elseCode), CIf(StackVar(ts, 0), c, d));
    }

    method WriteExpr(e: Expr, ghost base: nat)
      requires Ready(LabelsOf(e), base)
      requires !CheckExpr(m, f, labelStack, base, typeStack, e).Invalid? && NamedExpr(|labelStack|, e)
               && DistinctLabels(e)
      modifies this
      ensures WroteCode(CompileExpr(m, f, old(labelStack), old(typeStack), e), LabelsOf(e))
      decreases e, 3
    {
      hide LocalsFresh, SymbolMaps.Injective, Covers, RenameCode, CompileExpr, CheckExpr;
      match e
      case Block(_, _, _) => NestedIsTyped(labelStack, base, typeStack, e); WriteBlock(e, base);
      case Loop(_, _, _) => NestedIsTyped(labelStack, base, typeStack, e); WriteLoop(e, base);
      case If(_, _, _, _) => NestedIsTyped(labelStack, base, typeStack, e); WriteIf(e, base);
      case _ => WriteFlat(e, base);
    }

    lemma NestedIsTyped(labels: seq<Label>, base: nat, ts: seq<ValType>, e: Expr)
      requires e.Block? || e.Loop? || e.If?
      requires !CheckExpr(m, f, labels, base, ts, e).Invalid?
      ensures CheckExpr(m, f, labels, base, ts, e).Typed?
    {
      hide CheckList;
    }

    /** Expressions without nested lists. */
    method WriteFlat(e: Expr, ghost base: nat)
      requires !e.Block? && !e.Loop? && !e.If? && Ready({}, base)
      requires !CheckExpr(m, f, labelStack, base, typeStack, e).Invalid? && NamedExpr(|labelStack|, e)
      modifies this
      ensures WroteCode(CompileExpr(m, f, old(labelStack), old(typeStack), e), {})
    {
      hide LocalsFresh, SymbolMaps.Injective, Covers, RenameCode, CompileExpr, CheckExpr, ValidBranch;
      if IsSimple(e) {
        SimpleUsesNone(labelStack, typeStack, e);
        SimpleCheck(m, f, labelStack, base, typeStack, e);
        WriteSimple(e, base);
      } else if e.Call? || e.CallIndirect? {
        WriteAnyCall(e, base);
      } else {
        WriteJump(e, base);
      }
    }

    lemma SimpleCheck(m: Module, f: Func, labels: seq<Label>, base: nat, ts: seq<ValType>, e: Expr)
      requires IsSimple(e)
      ensures CheckExpr(m, f, labels, base, ts, e) == CheckSimple(m, f, base, ts, e)
    {}

    method WriteAnyCall(e: Expr, ghost base: nat)
      requires (e.Call? || e.CallIndirect?) && Valid() && NamedDefinedCall(e) && labelStack != [] && base <= |typeStack|
      requires !CheckExpr(m, f, labelStack, base, typeStack, e).Invalid? && NamedExpr(|labelStack|, e)
      modifies this
      ensures var code := CompileExpr(m, f, old(labelStack), old(typeStack), e);
              Wrote(code.stmts) && SameScope() && (typeStack == code.types) && code.used == {}
    {
      hide LocalsFresh, SymbolMaps.Injective, Covers, RenameCode;
      match e
      case Call(x) => WriteCall(x, Resolve(FuncNames(m), x).value);
      case CallIndirect(sig) => WriteCallIndirect(sig);
    }

    ghost predicate NamedDefinedCall(e: Expr)
      reads this
    {
      e.Call? && e.x.Name? && e.x.name in FuncNames(m) ==> e.x.name in names.globals
    }

    method WriteJump(e: Expr, ghost base: nat)
      requires e.Return? || e.Br? || e.BrIf? || e.BrTable?
      requires Valid() && LabelsDefined() && LabelsOk(f, labelStack, base)
      requires !CheckExpr(m, f, labelStack, base, typeStack, e).Invalid? && NamedExpr(|labelStack|, e)
      modifies this
      ensures var code := CompileExpr(m, f, old(labelStack), old(typeStack), e);
              && Wrote(code.stmts) && names.locals == old(names.locals)
              && typeStack == code.types && usedLabels == old(usedLabels) + code.used
    {
      hide LocalsFresh, SymbolMaps.Injective, Covers, RenameCode, ValidBranch, GotoStmts;
      match e
      case Return => WriteReturn(base);
      case Br(x) => WriteGoto(x, base);
      case BrIf(x) => WriteBrIf(x, base);
      case BrTable(targets, default_) => WriteBrTable(targets, default_, base);
    }

    /** A return is a jump to the function label, which is the outermost. */
    method WriteReturn(ghost base: nat)
      requires Valid() && LabelsDefined() && LabelsOk(f, labelStack, base)
      requires !CheckExpr(m, f, labelStack, base, typeStack, Return).Invalid?
      modifies this
      ensures var code := CompileExpr(m, f, old(labelStack), old(typeStack), Return);
              && Wrote(code.stmts) && names.locals == old(names.locals)
              && typeStack == code.types && usedLabels == old(usedLabels) + code.used
    {
      WriteGoto(Index(|labelStack| - 1), base);
    }

    /** Write(const ExprList&): stops after an instruction that does not continue. */
    method WriteList(es: ExprList, ghost base: nat)
      requires Ready(LabelsOfList(es), base)
      requires !CheckList(m, f, labelStack, base, typeStack, es).Invalid?
      requires NamedList(|labelStack|, es) && DistinctLabelsList(es)
      modifies this
      ensures WroteCode(CompileList(m, f, old(labelStack), old(typeStack), es), LabelsOfList(es))
      decreases es, 3
    {
      hide LocalsFresh, SymbolMaps.Injective, Covers, RenameCode, CompileExpr, CheckExpr;
      if es.Cons? {
        ghost var before := names;
        TypesAgree(m, f, labelStack, base, typeStack, es.head);
        UsedBounded(labelStack, typeStack, es.head);
        WriteExpr(es.head, base);
        if !Stops(es.head) {
          StillDefined(before);
          WriteList(es.tail, base);
        }
      } else {
        assert written == old(written) + [];
      }
    }

    // ----- whole functions -----

    /** A new writer for function `f`: local symbols start as a copy of the global ones, so that no
        local name shadows a global one. */
    constructor (m: Module, f: Func, globalMap: map<string, string>, globalSyms: set<string>)
      requires forall n | n in globalMap :: globalMap[n] in globalSyms
      ensures this.m == m && this.f == f && Valid() && Blank()
      ensures names.globals == globalMap && this.globalSyms == globalSyms
    {
      this.m, this.f, this.globalSyms := m, f, globalSyms;
      typeStack, labelStack, usedLabels := [], [], {};
      names := SymbolMaps(map[], map[], globalMap);
      localSyms := globalSyms;
      stream, written := [], [];
    }

    ghost predicate Blank()
      reads this
    {
      && typeStack == [] && labelStack == [] && usedLabels == {} && written == []
      && names.locals == map[] && names.slots == map[]
    }

    /** Only names of locals were added: those of the list `added`. */
    twostate predicate OnlyLocals(added: set<string>)
      reads this
    {
      OnlyNames() && names.slots == old(names.slots) && names.locals.Keys == old(names.locals.Keys) + added
    }

    /** WriteParams: names for the parameters, in order. */
    method WriteParams() returns (params: seq<string>)
      requires Valid() && Blank() && |f.localNames| == |f.LocalTypes()| && NoDuplicates(f.localNames)
      modifies this`names, this`localSyms
      ensures Valid() && OnlyLocals(NameSet(f.localNames[..|f.sig.params|]))
      ensures HasAll(names, LocalSyms(f.localNames[..|f.sig.params|]))
      ensures params == RenameAll(names, LocalSyms(f.localNames[..|f.sig.params|]))
    {
      hide LocalsFresh, SymbolMaps.Injective, Covers, RenameCode;
      var n := |f.sig.params|;
      params := [];
      for i := 0 to n
        invariant Valid() && OnlyLocals(NameSet(f.localNames[..i])) && |params| == i
        invariant forall k | 0 <= k < i :: f.localNames[k] in names.locals && params[k] == names.locals[f.localNames[k]]
      {
        NameSetSnoc(f.localNames, i);
        var id := DefineLocalScopeName(f.localNames[i]);
        params := params + [id];
      }
      assert params == RenameAll(names, LocalSyms(f.localNames[..n]));
    }

    function NameSet(ns: seq<string>): set<string> { set n | n in ns }

    lemma NameSetSnoc(ns: seq<string>, i: nat)
      requires i < |ns|
      ensures NameSet(ns[..i + 1]) == NameSet(ns[..i]) + {ns[i]}
      ensures NoDuplicates(ns) ==> ns[i] !in NameSet(ns[..i])
    {
      assert ns[..i + 1] == ns[..i] + [ns[i]];
    }

    /** Whether local `i` has been declared when the loop of WriteLocals is at type number `t` of
        I32, I64, F32, F64 and at local number `k`. */
    predicate Declared(i: nat, t: nat, k: nat)
      requires i < |f.locals|
    {
      TypeRank(f.locals[i]) < t || (TypeRank(f.locals[i]) == t && i < k)
    }

    function TypeRank(t: ValType): nat {
      match t case I32 => 0 case I64 => 1 case F32 => 2 case F64 => 3
    }

    /** What WriteLocals has done at that point; `rest` are the names of the locals. */
    ghost predicate LocalsDone(rest: seq<string>, locals: seq<string>, t: nat, k: nat)
      reads this
      requires |rest| == |locals| == |f.locals|
    {
      forall i | 0 <= i < |f.locals| ::
        if Declared(i, t, k) then rest[i] in names.locals && locals[i] == names.locals[rest[i]]
        else rest[i] !in names.locals
    }

    /** WriteLocals: names for the other locals, declared type by type; `locals` lists them by index. */
    method WriteLocals() returns (locals: seq<string>)
      requires Valid() && |f.localNames| == |f.LocalTypes()| && NoDuplicates(f.localNames)
      requires names.locals.Keys == NameSet(f.localNames[..|f.sig.params|]) && names.slots == map[]
      modifies this`names, this`localSyms
      ensures Valid() && OnlyNames() && names.slots == map[] && names.locals.Keys == NameSet(f.localNames)
      ensures HasAll(names, LocalSyms(f.localNames[|f.sig.params|..]))
      ensures locals == RenameAll(names, LocalSyms(f.localNames[|f.sig.params|..]))
    {
      hide LocalsFresh, SymbolMaps.Injective, Covers, RenameCode, Declared;
      var n := |f.sig.params|;
      var rest := f.localNames[n..];
      locals := seq(|f.locals|, i => "");
      FirstLocals(rest, locals);
      var types := [I32, I64, F32, F64];
      for t := 0 to 4
        invariant Valid() && OnlyNames() && names.slots == map[] && |locals| == |f.locals|
        invariant LocalsDone(rest, locals, t, 0)
        invariant NameSet(f.localNames[..n]) <= names.locals.Keys <= NameSet(f.localNames)
      {
        for k := 0 to |f.locals|
          invariant Valid() && OnlyNames() && names.slots == map[] && |locals| == |f.locals|
          invariant LocalsDone(rest, locals, t, k)
          invariant NameSet(f.localNames[..n]) <= names.locals.Keys <= NameSet(f.localNames)
        {
          NextLocal(t, k, types);
          if f.locals[k] == types[t] {
            assert rest[k] in f.localNames;
            var id := DefineLocalScopeName(rest[k]);
            locals := locals[k := id];
          }
        }
        NextType(t);
      }
      AllDeclared();
      assert locals == RenameAll(names, LocalSyms(rest));
      AllNamed(n);
    }

    lemma FirstLocals(rest: seq<string>, locals: seq<string>)
      requires |f.localNames| == |f.LocalTypes()| && NoDuplicates(f.localNames)
      requires rest == f.localNames[|f.sig.params|..] && |locals| == |f.locals|
      requires names.locals.Keys == NameSet(f.localNames[..|f.sig.params|])
      ensures |rest| == |f.locals| && NoDuplicates(rest) && LocalsDone(rest, locals, 0, 0)
    {}

    lemma NextLocal(t: nat, k: nat, types: seq<ValType>)
      requires types == [I32, I64, F32, F64] && t < 4 && k < |f.locals|
      ensures forall i | 0 <= i < |f.locals| ::
                Declared(i, t, k + 1) <==> Declared(i, t, k) || (i == k && f.locals[k] == types[t])
      ensures f.locals[k] == types[t] ==> !Declared(k, t, k)
    {
      RankIs(f.locals[k], t, types);
    }

    lemma RankIs(ty: ValType, t: nat, types: seq<ValType>)
      requires types == [I32, I64, F32, F64] && t < 4
      ensures TypeRank(ty) == t <==> ty == types[t]
    {
      match ty
      case I32 => assert types[0] == I32;
      case I64 => assert types[1] == I64;
      case F32 => assert types[2] == F32;
      case F64 => assert types[3] == F64;
    }

    lemma NextType(t: nat)
      ensures forall i | 0 <= i < |f.locals| :: Declared(i, t, |f.locals|) <==> Declared(i, t + 1, 0)
    {}

    lemma AllDeclared()
      ensures forall i | 0 <= i < |f.locals| :: Declared(i, 4, 0)
    {}

    lemma AllNamed(n: nat)
      requires n <= |f.localNames| && NameSet(f.localNames[..n]) <= names.locals.Keys <= NameSet(f.localNames)
      requires forall i | n <= i < |f.localNames| :: f.localNames[i] in names.locals
      ensures names.locals.Keys == NameSet(f.localNames)
    {
      forall s | s in f.localNames ensures s in names.locals {
        var i :| 0 <= i < |f.localNames| && f.localNames[i] == s;
        if i < n { assert f.localNames[..n][i] == s; }
      }
    }

    /** Whether the symbol maps can take the names of the function: its labels are new, and every
        function and global has an identifier. */
    ghost predicate CanWrite()
      reads this
    {
      && !f.imported && ValidFunc(m, f) && Writable(f)
      && NameSet(f.localNames) !! LabelsOfList(f.body) && IMPLICIT_FUNC_LABEL !in f.localNames
      && (forall n | n in FuncNames(m) || n in GlobalNames(m) :: n in names.globals)
    }

    lemma BodyChecks()
      requires !f.imported && ValidFunc(m, f)
      ensures !CheckList(m, f, [FuncLabelOf(f)], 0, [], f.body).Invalid? && |f.sig.results| <= 1
    {
      hide CheckList;
      assert !CheckBody(m, f, [FuncLabelOf(f)], [], f.sig.results, f.body).Invalid?;
    }

    /** The function label gets an identifier and becomes the outermost label. */
    method OpenBody() returns (unique: string)
      requires Valid() && CanWrite() && typeStack == [] && labelStack == [] && usedLabels == {}
      requires names.locals.Keys == NameSet(f.localNames)
      modifies this
      ensures Ready(LabelsOfList(f.body), 0) && labelStack == [FuncLabelOf(f)]
      ensures old(names).ExtendedBy(names) && names.globals == old(names.globals)
      ensures IMPLICIT_FUNC_LABEL in names.locals && names.locals[IMPLICIT_FUNC_LABEL] == unique
      ensures typeStack == [] && usedLabels == {} && written == old(written)
    {
      hide LocalsFresh, SymbolMaps.Injective, Covers, RenameCode, CheckBody;
      ghost var before := names;
      unique := DefineLocalScopeName(IMPLICIT_FUNC_LABEL);
      PushLabel(FuncLabel, "", f.sig.results);
      DefinedAtStart(before);
    }

    /** The body with the declaration of the function label, which has an implicit name. */
    method WriteBody()
      requires Valid() && CanWrite() && typeStack == [] && labelStack == [] && usedLabels == {} && written == []
      requires names.locals.Keys == NameSet(f.localNames)
      modifies this
      ensures Valid() && old(names).ExtendedBy(names) && names.globals == old(names.globals)
      ensures written == CompileFunc(m, f).body && typeStack == f.sig.results
    {
      hide LocalsFresh, SymbolMaps.Injective, Covers, RenameCode, CompileList, CheckList, CheckBody;
      BodyChecks();
      var unique := OpenBody();
      ghost var named := names;
      WriteList(f.body, 0);
      StillNamed(named, IMPLICIT_FUNC_LABEL);
      WriteLabelDecl(unique, IMPLICIT_FUNC_LABEL);
      var wasUsed := PopLabel();
      ResetTypeStack(0);
      PushTypes(f.sig.results);
    }

    lemma DefinedAtStart(before: SymbolMaps)
      requires before.ExtendedBy(names) && before.globals == names.globals
      requires before.locals.Keys == NameSet(f.localNames)
      requires forall n | n in FuncNames(m) || n in GlobalNames(m) :: n in names.globals
      ensures NamesDefined()
    {
      forall n | n in f.localNames ensures n in names.locals {
        assert n in NameSet(f.localNames) && before.Has(Named(n));
      }
    }

    method WriteResult() returns (result: Option<string>)
      requires Valid() && typeStack == f.sig.results
      modifies this
      ensures Valid() && OnlyNames() && names.locals == old(names.locals)
      ensures HasOption(names, ResultVar(f.sig.results, 0, f.sig.results))
      ensures result == RenameOption(names, ResultVar(f.sig.results, 0, f.sig.results))
    {
      if f.sig.results == [] {
        result := None;
      } else {
        result := ResultName(0, f.sig.results);
      }
    }

    /** Write(const Func&). */
    method WriteFunc() returns (code: CFunc<string>)
      requires Valid() && Blank() && CanWrite()
      modifies this
      ensures RenamedFunc(names, CompileFunc(m, f), code) && names.globals == old(names.globals)
      ensures LocalsFresh(names, globalSyms)
    {
      hide LocalsFresh, SymbolMaps.Injective, Covers, RenameCode, BodyCode;
      ghost var n := |f.sig.params|;
      ghost var ps, rs := LocalSyms(f.localNames[..n]), LocalSyms(f.localNames[n..]);
      var params := WriteParams();
      ghost var afterParams := names;
      var locals := WriteLocals();
      ExtendedAll(afterParams, names, ps);
      ghost var afterLocals := names;
      WriteBody();
      ghost var afterBody := names;
      var result := WriteResult();
      ExtendedTwice(afterLocals, afterBody, names);
      ExtendedAll(afterLocals, names, ps);
      ExtendedAll(afterLocals, names, rs);
      code := CFunc(f.sig, params, locals, stream, result);
      assert names.Injective();
    }
  }
}

/** Writing a whole module to C: names for imports, functions and globals, then every function
    (src/c-writer.cc, WriteModule).  The program written runs exactly as the module does. */
module CModule {
  import opened Util
  import opened Wasm
  import opened Validation
  import opened CLang
  import opened CCompile
  import opened CRename
  import opened CWriter
  import CTheorem
  import Symbols
  import Mangling

  /** The two names an import is known by outside. */
  datatype ImportName = ImportName(moduleName: Mangling.AsciiString, field: Mangling.AsciiString)

  /** A function, global, memory or table as far as its C identifier is concerned. */
  datatype Entity = Entity(name: string, item: Mangling.Item, source: Option<ImportName>)
  {
    function Symbol(): string
      requires source.Some?
    {
      Mangling.ImportSymbol(source.value.moduleName, source.value.field, item)
    }
  }

  /** Imports that have the same symbol: of the same module and field, and of the same kind and type, or
      functions whose signatures have the same letters, or a memory and a table. */
  predicate SameImport(a: Entity, b: Entity) {
    a.source.Some? && a.source == b.source && Mangling.SameForm(a.item, b.item)
  }

  /** The same thing imported twice, which is no harm: the program declares it twice. */
  predicate Twice(a: Entity, b: Entity) { a.source.Some? && a.source == b.source && a.item == b.item }

  /** Things of one kind have different names, as each kind has its own table of names. */
  predicate TwinsNamed(es: seq<Entity>) {
    forall i, j | 0 <= i < j < |es| && Twice(es[i], es[j]) :: es[i].name != es[j].name
  }

  /** All names differ, and no two imports have the same symbol that are not the same. */
  predicate Nameable(es: seq<Entity>) {
    && (forall i, j | 0 <= i < j < |es| :: es[i].name != es[j].name)
    && (forall i, j | 0 <= i < j < |es| && SameImport(es[i], es[j]) :: Twice(es[i], es[j]))
  }

  /** Which imports have the same symbol. */
  lemma SymbolsDiffer(a: Entity, b: Entity)
    requires a.source.Some? && b.source.Some?
    ensures a.Symbol() == b.Symbol() <==> SameImport(a, b)
  {
    hide Mangling.ImportSymbol, Mangling.SameForm;
    Mangling.ImportSymbolsEqual(
      a.source.value.moduleName, a.source.value.field, a.item, b.source.value.moduleName, b.source.value.field, b.item);
  }

  // ----- the map of global symbols -----

  /** Entered when imports up to `i` and, of the others, those up to `j` have been.  Imports come first. */
  predicate In(es: seq<Entity>, i: nat, j: nat, k: nat)
    requires k < |es|
  {
    k < if es[k].source.Some? then i else j
  }

  predicate Before(es: seq<Entity>, i: nat, j: nat)
    requires i < |es| && j < |es|
  {
    if es[i].source.Some? == es[j].source.Some? then i < j else es[i].source.Some?
  }

  /** The first entity with its name. */
  predicate Leads(es: seq<Entity>, k: nat)
    requires k < |es|
  {
    forall l | 0 <= l < |es| && Before(es, l, k) :: es[l].name != es[k].name
  }

  /** The map has the symbol of the first entity of each name: `insert` keeps what is there. */
  ghost predicate Entered(es: seq<Entity>, names: map<string, string>, own: seq<string>, i: nat, j: nat) {
    && |own| == |es|
    && (forall k | 0 <= k < |es| && In(es, i, j, k) :: es[k].name in names)
    && forall n | n in names :: exists k ::
      0 <= k < |es| && In(es, i, j, k) && Leads(es, k) && es[k].name == n && names[n] == own[k]
  }

  /** Every entity's own symbol: mangled for imports, otherwise derived from its name, new and
      different from all others. */
  ghost predicate OwnSymbols(es: seq<Entity>, own: seq<string>, syms: set<string>, i: nat, j: nat) {
    && |own| == |es|
    && (forall k | 0 <= k < |es| && In(es, i, j, k) :: own[k] in syms)
    && (forall k | 0 <= k < |es| && In(es, i, j, k) ::
          if es[k].source.Some? then own[k] == es[k].Symbol()
            else Symbols.Derived(Symbols.Stripped(es[k].name), own[k]))
    && forall k, l | 0 <= k < |es| && 0 <= l < |es| && In(es, i, j, k) && In(es, i, j, l) && k != l
      && es[k].source.None? ::
         own[k] != own[l]
  }

  lemma EnterNext(es: seq<Entity>, names: map<string, string>, own: seq<string>, i: nat, j: nat, k: nat, symbol: string)
    requires Entered(es, names, own, i, j) && k < |es|
    requires if es[k].source.Some? then i == k && j == 0 else i == |es| && j == k
    ensures var names' := if es[k].name in names then names else names[es[k].name := symbol];
            var (i', j') := if es[k].source.Some? then (i + 1, j) else (i, j + 1);
            Entered(es, names', own[k := symbol], i', j')
  {
    var names' := if es[k].name in names then names else names[es[k].name := symbol];
    var (i', j') := if es[k].source.Some? then (i + 1, j) else (i, j + 1);
    assert In(es, i', j', k);
    assert forall l | 0 <= l < |es| && l != k :: In(es, i, j, l) <==> In(es, i', j', l);
    forall n | n in names'
      ensures exists l ::
              0 <= l < |es| && In(es, i', j', l) && Leads(es, l) && es[l].name == n && names'[n] == own[k := symbol][l]
    {
      if n in names {
        var l :| 0 <= l < |es| && In(es, i, j, l) && Leads(es, l) && es[l].name == n && names[n] == own[l];
        assert l != k;
      } else {
        assert n == es[k].name;
        forall l | 0 <= l < |es| && Before(es, l, k) ensures es[l].name != es[k].name {
          assert In(es, i, j, l);
        }
        assert Leads(es, k);
      }
    }
  }

  lemma OwnNext(es: seq<Entity>, own: seq<string>, syms: set<string>, i: nat, j: nat, k: nat, symbol: string)
    requires OwnSymbols(es, own, syms, i, j) && k < |es|
    requires if es[k].source.Some? then i == k && j == 0 && symbol == es[k].Symbol()
             else i == |es| && j == k && symbol !in syms && Symbols.Derived(Symbols.Stripped(es[k].name), symbol)
    ensures var (i', j') := if es[k].source.Some? then (i + 1, j) else (i, j + 1);
            OwnSymbols(es, own[k := symbol], syms + {symbol}, i', j')
  {
    hide Mangling.ImportSymbol, Symbols.Derived;
    var (i', j') := if es[k].source.Some? then (i + 1, j) else (i, j + 1);
    assert forall l | 0 <= l < |es| && l != k :: In(es, i, j, l) <==> In(es, i', j', l);
  }

  /** The other kind of entity is passed over. */
  lemma PassOver(
    es: seq<Entity>, names: map<string, string>, own: seq<string>, syms: set<string>, i: nat, j: nat, k: nat)
    requires Entered(es, names, own, i, j) && OwnSymbols(es, own, syms, i, j) && k < |es|
    ensures es[k].source.None? && i == k ==> Entered(es, names, own, i + 1, j) && OwnSymbols(es, own, syms, i + 1, j)
    ensures es[k].source.Some? && j == k ==> Entered(es, names, own, i, j + 1) && OwnSymbols(es, own, syms, i, j + 1)
  {
    hide Mangling.ImportSymbol, Leads, Symbols.Derived;
    if es[k].source.None? && i == k { assert forall l | 0 <= l < |es| :: In(es, i, j, l) <==> In(es, i + 1, j, l); }
    if es[k].source.Some? && j == k { assert forall l | 0 <= l < |es| :: In(es, i, j, l) <==> In(es, i, j + 1, l); }
  }

  lemma OwnSize(es: seq<Entity>, own: seq<string>, syms: set<string>)
    requires OwnSymbols(es, own, syms, |es|, 0)
    ensures |own| == |es|
  {}

  lemma NoneEntered(es: seq<Entity>, own: seq<string>, syms: set<string>)
    requires |own| == |es|
    ensures Entered(es, map[], own, 0, 0) && OwnSymbols(es, own, syms, 0, 0)
  {}

  /** WriteImports: imports are entered with their mangled symbols. */
  method NameImports(es: seq<Entity>, reserved: set<string>)
    returns (names: map<string, string>, syms: set<string>, own: seq<string>)
    ensures reserved <= syms && Entered(es, names, own, |es|, 0) && OwnSymbols(es, own, syms, |es|, 0)
  {
    hide Mangling.ImportSymbol, Leads, Entered, OwnSymbols;
    names, syms, own := map[], reserved, seq(|es|, _ => "");
    NoneEntered(es, own, syms);
    for i := 0 to |es|
      invariant |own| == |es| && reserved <= syms && Entered(es, names, own, i, 0) && OwnSymbols(es, own, syms, i, 0)
    {
      PassOver(es, names, own, syms, i, 0, i);
      if es[i].source.Some? {
        var symbol := es[i].Symbol();
        EnterNext(es, names, own, i, 0, i, symbol);
        OwnNext(es, own, syms, i, 0, i, symbol);
        syms := syms + {symbol};
        names := if es[i].name in names then names else names[es[i].name := symbol];
        own := own[i := symbol];
      }
    }
  }

  /** DefineGlobalScopeName for what the module defines itself. */
  method NameDefinitions(es: seq<Entity>, names0: map<string, string>, syms0: set<string>, own0: seq<string>)
    returns (names: map<string, string>, syms: set<string>, own: seq<string>)
    requires Entered(es, names0, own0, |es|, 0) && OwnSymbols(es, own0, syms0, |es|, 0)
    ensures syms0 <= syms && Entered(es, names, own, |es|, |es|) && OwnSymbols(es, own, syms, |es|, |es|)
    ensures forall n | n in names0 :: n in names && names[n] == names0[n]
    ensures forall k | 0 <= k < |es| && es[k].source.None? :: own[k] !in syms0
  {
    hide Leads, Symbols.Chosen, Symbols.IsIdentifier, Entered, OwnSymbols, Symbols.Derived;
    names, syms, own := names0, syms0, own0;
    assert |own| == |es| by { OwnSize(es, own, syms); }
    for j := 0 to |es|
      invariant |own| == |es| && syms0 <= syms && Entered(es, names, own, |es|, j) && OwnSymbols(es, own, syms, |es|, j)
      invariant forall n | n in names0 :: n in names && names[n] == names0[n]
      invariant forall k | 0 <= k < j && es[k].source.None? :: own[k] !in syms0
    {
      PassOver(es, names, own, syms, |es|, j, j);
      if es[j].source.None? {
        var name := es[j].name;
        var unique, taken := Symbols.DefineName(syms, Symbols.Stripped(name));
        Symbols.ChosenDerived(syms, Symbols.Stripped(name), unique);
        EnterNext(es, names, own, |es|, j, j, unique);
        OwnNext(es, own, syms, |es|, j, j, unique);
        syms := taken;
        names := if name in names then names else names[name := unique];
        own := own[j := unique];
      }
    }
  }

  /** Every entity is found under its own symbol, and what shares a symbol is the same, if and only if
      all names differ and imports with the same symbol are the same. */
  lemma SymbolsRight(es: seq<Entity>, names: map<string, string>, own: seq<string>, syms: set<string>)
    requires Entered(es, names, own, |es|, |es|) && OwnSymbols(es, own, syms, |es|, |es|) && TwinsNamed(es)
    ensures && (forall k | 0 <= k < |es| :: names[es[k].name] == own[k])
            && (forall k, l | 0 <= k < l < |es| && own[k] == own[l] :: Twice(es[k], es[l]))
            <==> Nameable(es)
  {
    hide SameImport;
    assert forall k | 0 <= k < |es| :: In(es, |es|, |es|, k);
    if Nameable(es) {
      forall k | 0 <= k < |es| ensures names[es[k].name] == own[k] {
        var l :| 0 <= l < |es| && es[l].name == es[k].name && names[es[k].name] == own[l];
      }
      forall k, l | 0 <= k < l < |es| && own[k] == own[l] ensures Twice(es[k], es[l]) {
        TellApart(es[k], es[l]);
      }
    } else if && (forall k | 0 <= k < |es| :: names[es[k].name] == own[k])
              && (forall k, l | 0 <= k < l < |es| && own[k] == own[l] :: Twice(es[k], es[l])) {
      forall k, l | 0 <= k < l < |es|
        ensures es[k].name != es[l].name && (SameImport(es[k], es[l]) ==> Twice(es[k], es[l]))
      {
        TellApart(es[k], es[l]);
        assert own[k] == own[l] ==> Twice(es[k], es[l]);
      }
    }
  }

  lemma TellApart(a: Entity, b: Entity)
    ensures SameImport(a, b) ==> a.source.Some? && b.source.Some?
    ensures a.source.Some? && b.source.Some? ==> (SameImport(a, b) <==> a.Symbol() == b.Symbol())
  {
    hide Mangling.SameForm;
    if a.source.Some? && b.source.Some? { SymbolsDiffer(a, b); }
  }

  /** A function and a global imported as "a" "b" and called "$a.b", as GenerateNames calls both: the
      name of the global stands for the function's symbol. */
  lemma SharedName(sig: FuncSig, ty: ValType, names: map<string, string>, own: seq<string>, syms: set<string>)
    requires var source := Some(ImportName("a", "b"));
             var es := [Entity("$a.b", Mangling.FuncItem(sig), source),
               Entity("$a.b", Mangling.GlobalItem(ty), source)];
             Entered(es, names, own, 2, 2) && OwnSymbols(es, own, syms, 2, 2)
    ensures "$a.b" in names && names["$a.b"] == own[0] != own[1]
  {
    hide Mangling.ImportSymbol, Mangling.SameForm;
    var source := Some(ImportName("a", "b"));
    var f, g := Entity("$a.b", Mangling.FuncItem(sig), source), Entity("$a.b", Mangling.GlobalItem(ty), source);
    var es := [f, g];
    SymbolsDiffer(f, g);
    assert !Mangling.SameForm(f.item, g.item) by { KindsDiffer(sig, ty); }
    assert In(es, 2, 2, 0) && In(es, 2, 2, 1) && es[0] == f && es[1] == g && Before(es, 0, 1);
    assert !Leads(es, 1);
  }

  lemma KindsDiffer(sig: FuncSig, ty: ValType)
    ensures !Mangling.SameForm(Mangling.FuncItem(sig), Mangling.GlobalItem(ty))
  {}

  /** Names in order: all entities have symbols, nothing else has, and what shares one is the same. */
  ghost predicate RightNames(es: seq<Entity>, names: map<string, string>) {
    && (forall k | 0 <= k < |es| :: es[k].name in names)
    && (forall n | n in names :: exists k :: 0 <= k < |es| && es[k].name == n)
    && (forall k, l | 0 <= k < l < |es| && names[es[k].name] == names[es[l].name] :: Twice(es[k], es[l]))
  }

  lemma NamesGood(es: seq<Entity>, names: map<string, string>, own: seq<string>, syms: set<string>)
    requires Entered(es, names, own, |es|, |es|) && OwnSymbols(es, own, syms, |es|, |es|) && Nameable(es)
    ensures RightNames(es, names) && forall n | n in names :: names[n] in syms
  {
    hide SameImport, Leads;
    SymbolsRight(es, names, own, syms);
    assert forall k | 0 <= k < |es| :: In(es, |es|, |es|, k);
  }

  // ----- exports -----

  /** The name an entity is exported under. */
  datatype Export = Export(name: Mangling.AsciiString, entity: nat)
  {
    function Symbol(es: seq<Entity>): string
      requires entity < |es|
    {
      Mangling.ExportSymbol(name, es[entity].item)
    }
  }

  /** WriteExports: each export's identifier, and the identifier it is made to point to. */
  method WriteExports(
    es: seq<Entity>, names: map<string, string>, xs: seq<Export>)
    returns (lines: seq<(string, string)>)
    requires RightNames(es, names) && forall i | 0 <= i < |xs| :: xs[i].entity < |es|
    ensures |lines| == |xs|
    ensures forall i | 0 <= i < |xs| :: lines[i] == (xs[i].Symbol(es), names[es[xs[i].entity].name])
  {
    hide Mangling.ExportSymbol, Twice;
    lines := [];
    for i := 0 to |xs|
      invariant |lines| == i
      invariant forall k | 0 <= k < i :: lines[k] == (xs[k].Symbol(es), names[es[xs[k].entity].name])
    {
      lines := lines + [(xs[i].Symbol(es), names[es[xs[i].entity].name])];
    }
  }

  /** The import of a memory or a table whose module is the name of the export and whose field is the
      text of the type of what is exported. */
  predicate ImportIsExport(a: Entity, x: Export, es: seq<Entity>)
    requires x.entity < |es|
  {
    && a.source.Some? && a.item.StorageItem? && !es[x.entity].item.StorageItem?
    && a.source.value == ImportName(x.name, Mangling.Signature(es[x.entity].item))
  }

  /** The identifier of something the module defines can look like a mangled name. */
  predicate LooksMangled(name: string) {
    var legal := Symbols.Legalized(Symbols.Stripped(name));
    legal == "Z" || "Z_" <= legal
  }

  /** The identifiers of exports differ from each other; from those of imports but in one case; and from
      those of definitions unless these look like mangled names. */
  lemma ExportsApart(es: seq<Entity>, own: seq<string>, syms: set<string>, xs: seq<Export>)
    requires OwnSymbols(es, own, syms, |es|, |es|) && forall i | 0 <= i < |xs| :: xs[i].entity < |es|
    requires forall i, j | 0 <= i < j < |xs| :: xs[i].name != xs[j].name
    ensures forall i, j | 0 <= i < j < |xs| :: xs[i].Symbol(es) != xs[j].Symbol(es)
    ensures forall i, k | 0 <= i < |xs| && 0 <= k < |es| && es[k].source.Some? ::
              own[k] == xs[i].Symbol(es) <==> ImportIsExport(es[k], xs[i], es)
    ensures forall i, k | 0 <= i < |xs| && 0 <= k < |es| && es[k].source.None? && !LooksMangled(es[k].name) ::
              own[k] != xs[i].Symbol(es)
  {
    hide Mangling.ExportSymbol, Mangling.ImportSymbol, Mangling.SameForm, Mangling.Signature, LooksMangled,
      Symbols.Derived;
    assert forall k | 0 <= k < |es| :: In(es, |es|, |es|, k);
    forall i, j | 0 <= i < j < |xs| ensures xs[i].Symbol(es) != xs[j].Symbol(es) {
      Mangling.ExportSymbolsEqual(xs[i].name, es[xs[i].entity].item, xs[j].name, es[xs[j].entity].item);
    }
    forall i, k | 0 <= i < |xs| && 0 <= k < |es|
      ensures es[k].source.Some? ==> (own[k] == xs[i].Symbol(es) <==> ImportIsExport(es[k], xs[i], es))
      ensures es[k].source.None? && !LooksMangled(es[k].name) ==> own[k] != xs[i].Symbol(es)
    {
      var e := es[xs[i].entity].item;
      if es[k].source.Some? {
        var from := es[k].source.value;
        Mangling.ImportIsExport(from.moduleName, from.field, es[k].item, xs[i].name, e);
      } else if !LooksMangled(es[k].name) {
        NotMangled(es[k].name, own[k], xs[i].name, e);
      }
    }
  }

  lemma NotMangled(name: string, symbol: string, exported: Mangling.AsciiString, item: Mangling.Item)
    requires Symbols.Derived(Symbols.Stripped(name), symbol) && !LooksMangled(name)
    ensures symbol != Mangling.ExportSymbol(exported, item)
  {
    hide Mangling.SignaturePart, Symbols.Legalized, Mangling.EscapeAll;
    var legal, x := Symbols.Legalized(Symbols.Stripped(name)), Mangling.ExportSymbol(exported, item);
    assert x[0] == 'Z' && x[1] == '_' && legal != [];
  }

  /** A function that is called "$Z_fooZ_vv", and exported as "foo" without parameters and results. */
  lemma DefinitionIsExport(taken: set<string>, unique: string)
    requires Symbols.Chosen(taken, Symbols.Stripped("$Z_fooZ_vv"), unique) && "Z_fooZ_vv" !in taken
    ensures LooksMangled("$Z_fooZ_vv") && unique == Mangling.ExportSymbol("foo", Mangling.FuncItem(FuncSig([], [])))
  {
    var name := "Z_fooZ_vv";
    assert Symbols.Stripped("$Z_fooZ_vv") == name && Symbols.Legalized(name) == name;
    assert Mangling.EscapeAll("o") == "o" && Mangling.EscapeAll("oo") == "oo" && Mangling.EscapeAll("foo") == "foo";
    assert Mangling.EscapeAll("v") == "v" && Mangling.EscapeAll("vv") == "vv";
    assert Mangling.Signature(Mangling.FuncItem(FuncSig([], []))) == "vv";
    assert "Z_" + "foo" + ("Z_" + "vv") == name;
  }

  // ----- modules -----

  /** A memory or a table. */
  datatype Storage = Storage(name: string, kind: Mangling.StorageKind, source: Option<ImportName>)

  /** Where the imports of a module come from: nothing for what the module defines. */
  datatype Sources = Sources(funcs: seq<Option<ImportName>>, globals: seq<Option<ImportName>>, storage: seq<Storage>)

  function StorageEntity(x: Storage): Entity { Entity(x.name, Mangling.StorageItem(x.kind), x.source) }

  function Entities(m: Module, s: Sources): (es: seq<Entity>)
    requires |s.funcs| == |m.funcs| && |s.globals| == |m.globals|
    ensures |es| == |m.funcs| + |m.globals| + |s.storage|
    ensures forall i | 0 <= i < |m.funcs| ::
            es[i] == Entity(m.funcs[i].name, Mangling.FuncItem(m.funcs[i].sig), s.funcs[i])
    ensures forall i | 0 <= i < |m.globals| ::
              es[|m.funcs| + i] == Entity(m.globals[i].name, Mangling.GlobalItem(m.globals[i].ty), s.globals[i])
    ensures forall i | 0 <= i < |s.storage| ::
              es[|m.funcs| + |m.globals| + i] == StorageEntity(s.storage[i])
  {
    seq(|m.funcs|,
      i requires 0 <= i < |m.funcs| => Entity(m.funcs[i].name, Mangling.FuncItem(m.funcs[i].sig), s.funcs[i]))
    + seq(|m.globals|, i requires 0 <= i < |m.globals| =>
            Entity(m.globals[i].name, Mangling.GlobalItem(m.globals[i].ty), s.globals[i]))
    + seq(|s.storage|, i requires 0 <= i < |s.storage| => StorageEntity(s.storage[i]))
  }

  /** No label of a function is also the name of one of its locals. */
  predicate LabelsApart(f: Func) {
    !f.imported ==>
      && (forall n | n in f.localNames :: n !in LabelsOfList(f.body))
      && IMPLICIT_FUNC_LABEL !in f.localNames
  }

  predicate WritableProgram(m: Module, s: Sources) {
    && ValidModule(m) && WritableModule(m)
    && (forall i | 0 <= i < |m.funcs| :: LabelsApart(m.funcs[i]))
    && |s.funcs| == |m.funcs| && |s.globals| == |m.globals|
    && (forall i | 0 <= i < |m.funcs| :: m.funcs[i].imported <==> s.funcs[i].Some?)
    && Nameable(Entities(m, s))
  }

  /** The same imports lead to the same things, as linking them by their symbols does: the host makes no
      difference between two functions imported twice, and two such globals are one. */
  ghost predicate Linked(sem: Sem, m: Module, s: Sources)
    requires |s.funcs| == |m.funcs| && |s.globals| == |m.globals|
  {
    && (forall i, j | 0 <= i < |m.funcs| && 0 <= j < |m.funcs| && s.funcs[i].Some? && s.funcs[i] == s.funcs[j]
                      && m.funcs[i].sig == m.funcs[j].sig :: SameHost(sem, i, j))
    && (forall i, j | 0 <= i < |m.globals| && 0 <= j < |m.globals| && s.globals[i].Some? && s.globals[i] == s.globals[j]
                      && m.globals[i].ty == m.globals[j].ty :: sem.address(i) == sem.address(j))
  }

  /** The identifiers of functions, or of globals, and which they declare: the first of those that
      share an identifier. */
  ghost predicate Declares(ns: seq<string>, names: map<string, string>, env: map<string, nat>) {
    && (forall i | 0 <= i < |ns| :: ns[i] in names && names[ns[i]] in env)
    && (forall id | id in env :: env[id] < |ns| && ns[env[id]] in names && names[ns[env[id]]] == id)
  }

  method Declarations(ns: seq<string>, names: map<string, string>) returns (env: map<string, nat>)
    requires forall n | n in ns :: n in names
    ensures Declares(ns, names, env)
    ensures forall i | 0 <= i < |ns| :: env[names[ns[i]]] <= i
  {
    env := map[];
    for i := 0 to |ns|
      invariant forall k | 0 <= k < i :: names[ns[k]] in env && env[names[ns[k]]] <= k
      invariant forall id | id in env :: env[id] < i && names[ns[env[id]]] == id
    {
      if names[ns[i]] !in env { env := env[names[ns[i]] := i]; }
    }
  }

  function KindOf(item: Mangling.Item): nat {
    if item.FuncItem? then 0 else if item.GlobalItem? then 1 else 2
  }

  /** The entities of one kind are those from `at` on. */
  ghost predicate KindAt(es: seq<Entity>, kind: nat, at: nat, ns: seq<string>) {
    && at + |ns| <= |es| && (forall i | 0 <= i < |ns| :: es[at + i].name == ns[i])
    && forall k | 0 <= k < |es| :: KindOf(es[k].item) == kind <==> at <= k < at + |ns|
  }

  lemma KindHas(es: seq<Entity>, kind: nat, at: nat, ns: seq<string>, i: nat)
    requires KindAt(es, kind, at, ns) && i < |ns|
    ensures at + i < |es| && es[at + i].name == ns[i] && KindOf(es[at + i].item) == kind
  {}

  lemma KindOnly(es: seq<Entity>, kind: nat, at: nat, ns: seq<string>, k: nat)
    requires KindAt(es, kind, at, ns) && k < |es| && KindOf(es[k].item) == kind
    ensures es[k].name in ns
  {
    assert es[at + (k - at)].name == ns[k - at];
  }

  lemma DeclaredUnder(ns: seq<string>, names: map<string, string>, env: map<string, nat>, n: string)
    requires Declares(ns, names, env) && n in names
    ensures n in ns ==> names[n] in env
    ensures names[n] in env ==> var j := env[names[n]]; j < |ns| && ns[j] in names && names[ns[j]] == names[n]
  {}

  /** What shares the identifier of a thing of one kind is of that kind, and the same. */
  lemma SharesIdentifier(
    es: seq<Entity>, kind: nat, at: nat, ns: seq<string>, names: map<string, string>, j: nat, n: string)
    requires NoDuplicates(ns) && RightNames(es, names) && KindAt(es, kind, at, ns) && n in names && j < |ns|
    requires ns[j] in names && names[ns[j]] == names[n]
    ensures n in ns
    ensures var i := IndexOf(ns, n).value; i < |ns| && at + |ns| <= |es| && (i == j || Twice(es[at + i], es[at + j]))
  {
    hide Twice, KindOf, KindAt, RightNames;
    KindFits(es, kind, at, ns);
    KindHas(es, kind, at, ns, j);
    var k := EntityOf(es, names, n);
    SameIdentifier(es, names, k, at + j);
    TwiceItem(es[k], es[at + j]);
    KindOnly(es, kind, at, ns, k);
    var i := IndexOf(ns, n).value;
    KindHas(es, kind, at, ns, i);
    SameIdentifier(es, names, at + i, at + j);
  }

  /** A name of one kind, in both environments: the same entity, or the same import. */
  lemma NameOf(
    es: seq<Entity>, kind: nat, at: nat, ns: seq<string>, names: map<string, string>, env: map<string, nat>, n: string)
    requires NoDuplicates(ns) && Declares(ns, names, env) && RightNames(es, names) && KindAt(es, kind, at, ns)
             && n in names
    ensures n in ns <==> names[n] in env
    ensures n in ns ==> var i, j := IndexOf(ns, n).value, env[names[n]];
                        i < |ns| && j < |ns| && at + |ns| <= |es| && (i == j || Twice(es[at + i], es[at + j]))
  {
    hide Twice, KindAt, RightNames, Declares, NoDuplicates;
    DeclaredUnder(ns, names, env, n);
    if names[n] in env { SharesIdentifier(es, kind, at, ns, names, env[names[n]], n); }
  }

  lemma EntityOf(es: seq<Entity>, names: map<string, string>, n: string) returns (k: nat)
    requires RightNames(es, names) && n in names
    ensures k < |es| && es[k].name == n
  {
    k :| 0 <= k < |es| && es[k].name == n;
  }

  lemma KindFits(es: seq<Entity>, kind: nat, at: nat, ns: seq<string>)
    requires KindAt(es, kind, at, ns)
    ensures at + |ns| <= |es|
  {}

  lemma TwiceItem(a: Entity, b: Entity)
    ensures a == b || Twice(a, b) ==> KindOf(a.item) == KindOf(b.item)
  {}

  lemma SameIdentifier(es: seq<Entity>, names: map<string, string>, k: nat, l: nat)
    requires RightNames(es, names) && k < |es| && l < |es|
    requires es[k].name in names && es[l].name in names && names[es[k].name] == names[es[l].name]
    ensures k == l || Twice(es[k], es[l])
  {
    if l < k { assert Twice(es[l], es[k]); }
  }

  lemma KindsAt(m: Module, s: Sources)
    requires |s.funcs| == |m.funcs| && |s.globals| == |m.globals|
    ensures KindAt(Entities(m, s), 0, 0, FuncNames(m)) && KindAt(Entities(m, s), 1, |m.funcs|, GlobalNames(m))
  {
    var es, a, b := Entities(m, s), |m.funcs|, |m.globals|;
    forall k | 0 <= k < |es| ensures KindOf(es[k].item) == if k < a then 0 else if k < a + b then 1 else 2 {
      if a <= k < a + b { assert es[k] == es[a + (k - a)]; }
      if a + b <= k { assert es[k] == es[a + b + (k - a - b)]; }
    }
  }

  lemma FuncAgrees(sem: Sem, m: Module, s: Sources, names: map<string, string>, env: map<string, nat>, n: string)
    requires WritableProgram(m, s) && RightNames(Entities(m, s), names) && Linked(sem, m, s)
    requires Declares(FuncNames(m), names, env) && n in names
    ensures n in FuncNames(m) <==> names[n] in env
    ensures n in FuncNames(m) ==> SameCallee(sem, CompileModule(m), IndexOf(FuncNames(m), n).value, env[names[n]])
  {
    hide RightNames, Declares, KindAt, Linked, ValidModule, WritableModule, LabelsApart, Nameable, Twice, SameHost,
      CompileModule, Entities, SameCallee;
    EntityNames(m, s);
    KindsAt(m, s);
    NameOf(Entities(m, s), 0, 0, FuncNames(m), names, env, n);
    if n in FuncNames(m) {
      var i, j := IndexOf(FuncNames(m), n).value, env[names[n]];
      assert 0 + i == i && 0 + j == j;
      CalleesLinked(sem, m, s, i, j);
    }
  }

  lemma GlobalAgrees(sem: Sem, m: Module, s: Sources, names: map<string, string>, env: map<string, nat>, n: string)
    requires WritableProgram(m, s) && RightNames(Entities(m, s), names) && Linked(sem, m, s)
    requires Declares(GlobalNames(m), names, env) && n in names
    ensures n in GlobalNames(m) <==> names[n] in env
    ensures n in GlobalNames(m) ==> sem.address(IndexOf(GlobalNames(m), n).value) == sem.address(env[names[n]])
  {
    hide RightNames, Declares, KindAt, Linked, ValidModule, WritableModule, LabelsApart, Nameable, Twice, SameHost,
      Entities;
    EntityNames(m, s);
    KindsAt(m, s);
    NameOf(Entities(m, s), 1, |m.funcs|, GlobalNames(m), names, env, n);
    if n in GlobalNames(m) { GlobalsLinked(sem, m, s, IndexOf(GlobalNames(m), n).value, env[names[n]]); }
  }

  /** The declarations name the functions and globals the symbolic environments name, or ones that
      linking makes the same. */
  lemma EnvAgrees(sem: Sem, m: Module, s: Sources, r: SymbolMaps, q: CProg<string>)
    requires WritableProgram(m, s) && RightNames(Entities(m, s), r.globals) && Linked(sem, m, s)
    requires Declares(FuncNames(m), r.globals, q.fenv) && Declares(GlobalNames(m), r.globals, q.genv)
    ensures SameEnv(sem, r, CompileModule(m), q)
  {
    hide RightNames, Declares, Linked, WritableProgram, SameCallee, CompileFunc;
    forall g: Sym | r.Has(g) && g.GlobalSym?
      ensures g in Env(FuncNames(m)) <==> r.Get(g) in q.fenv
      ensures g in Env(FuncNames(m)) ==> SameCallee(sem, CompileModule(m), Env(FuncNames(m))[g], q.fenv[r.Get(g)])
      ensures g in Env(GlobalNames(m)) <==> r.Get(g) in q.genv
      ensures g in Env(GlobalNames(m)) ==> sem.address(Env(GlobalNames(m))[g]) == sem.address(q.genv[r.Get(g)])
    {
      FuncAgrees(sem, m, s, r.globals, q.fenv, g.gname);
      GlobalAgrees(sem, m, s, r.globals, q.genv, g.gname);
    }
  }

  lemma CalleesLinked(sem: Sem, m: Module, s: Sources, i: nat, j: nat)
    requires |s.funcs| == |m.funcs| && |s.globals| == |m.globals| && Linked(sem, m, s) && i < |m.funcs| && j < |m.funcs|
    requires forall k | 0 <= k < |m.funcs| :: m.funcs[k].imported <==> s.funcs[k].Some?
    requires i == j || Twice(Entities(m, s)[i], Entities(m, s)[j])
    ensures SameCallee(sem, CompileModule(m), i, j)
  {
    hide SameHost, BodyCode;
  }

  lemma GlobalsLinked(sem: Sem, m: Module, s: Sources, i: nat, j: nat)
    requires |s.funcs| == |m.funcs| && |s.globals| == |m.globals| && Linked(sem, m, s) && i < |m.globals|
             && j < |m.globals|
    requires i == j || Twice(Entities(m, s)[|m.funcs| + i], Entities(m, s)[|m.funcs| + j])
    ensures sem.address(i) == sem.address(j)
  {
    hide SameHost, Entities;
    GlobalEntity(m, s, i);
    GlobalEntity(m, s, j);
  }

  lemma GlobalEntity(m: Module, s: Sources, i: nat)
    requires |s.funcs| == |m.funcs| && |s.globals| == |m.globals| && i < |m.globals|
    ensures Entities(m, s)[|m.funcs| + i]
            == Entity(m.globals[i].name, Mangling.GlobalItem(m.globals[i].ty), s.globals[i])
  {}

  lemma EntityNames(m: Module, s: Sources)
    requires WritableProgram(m, s)
    ensures NoDuplicates(FuncNames(m)) && NoDuplicates(GlobalNames(m))
  {
    var es := Entities(m, s);
    forall i, j | 0 <= i < j < |m.funcs| ensures FuncNames(m)[i] != FuncNames(m)[j] {
      assert es[i].name != es[j].name;
    }
    forall i, j | 0 <= i < j < |m.globals| ensures GlobalNames(m)[i] != GlobalNames(m)[j] {
      assert es[|m.funcs| + i].name != es[|m.funcs| + j].name;
    }
  }

  /** WriteCSource: every function with a writer of its own. */
  method WriteFuncs(m: Module, names: map<string, string>, syms: set<string>)
    returns (funcs: seq<CFunc<string>>, ghost rs: seq<SymbolMaps>)
    requires ValidModule(m) && WritableModule(m) && forall n | n in names :: names[n] in syms
    requires forall i | 0 <= i < |m.funcs| :: LabelsApart(m.funcs[i])
    requires forall n | n in FuncNames(m) || n in GlobalNames(m) :: n in names
    ensures |funcs| == |m.funcs| && forall i | 0 <= i < |funcs| :: funcs[i].CImport? <==> m.funcs[i].imported
    ensures |rs| == |funcs|
    ensures forall i | 0 <= i < |rs| ::
            RenamedFunc(rs[i], CompileFunc(m, m.funcs[i]), funcs[i]) && rs[i].globals == names
    ensures forall i | 0 <= i < |rs| :: LocalsFresh(rs[i], syms)
  {
    hide RenamedFunc, CompileFunc, LabelsApart, LocalsFresh;
    funcs, rs := [], [];
    for i := 0 to |m.funcs|
      invariant |rs| == |funcs| == i && forall k | 0 <= k < i :: funcs[k].CImport? <==> m.funcs[k].imported
      invariant forall k | 0 <= k < i ::
                RenamedFunc(rs[k], CompileFunc(m, m.funcs[k]), funcs[k]) && rs[k].globals == names
      invariant forall k | 0 <= k < i :: LocalsFresh(rs[k], syms)
    {
      var f := m.funcs[i];
      if f.imported {
        ImportedFunc(m, f, SymbolMaps(map[], map[], names));
        NoLocals(names, syms);
        funcs, rs := funcs + [CImport(f.sig)], rs + [SymbolMaps(map[], map[], names)];
      } else {
        var writer := new CWriter(m, f, names, syms);
        MayWrite(writer);
        var code := writer.WriteFunc();
        OwnBody(m, f, writer.names, code);
        funcs, rs := funcs + [code], rs + [writer.names];
      }
    }
  }

  lemma NoLocals(names: map<string, string>, syms: set<string>)
    ensures LocalsFresh(SymbolMaps(map[], map[], names), syms)
  {}

  lemma ImportedFunc(m: Module, f: Func, r: SymbolMaps)
    requires f.imported
    ensures RenamedFunc(r, CompileFunc(m, f), CImport(f.sig))
  {}

  lemma OwnBody(m: Module, f: Func, r: SymbolMaps, code: CFunc<string>)
    requires !f.imported && ValidFunc(m, f) && Writable(f) && RenamedFunc(r, CompileFunc(m, f), code)
    ensures !code.CImport?
  {}

  lemma MayWrite(writer: CWriter)
    requires !writer.f.imported && ValidFunc(writer.m, writer.f) && Writable(writer.f) && LabelsApart(writer.f)
    requires forall n | n in FuncNames(writer.m) || n in GlobalNames(writer.m) :: n in writer.names.globals
    ensures writer.CanWrite()
  {}

  lemma AllNamed(m: Module, s: Sources, names: map<string, string>)
    requires WritableProgram(m, s) && RightNames(Entities(m, s), names)
    ensures forall n | n in FuncNames(m) || n in GlobalNames(m) :: n in names
  {
    hide ValidModule, WritableModule, LabelsApart, Nameable, Twice, Entities, KindAt;
    KindsAt(m, s);
    KindNamed(Entities(m, s), 0, 0, FuncNames(m), names);
    KindNamed(Entities(m, s), 1, |m.funcs|, GlobalNames(m), names);
  }

  lemma KindNamed(es: seq<Entity>, kind: nat, at: nat, ns: seq<string>, names: map<string, string>)
    requires KindAt(es, kind, at, ns) && RightNames(es, names)
    ensures forall n | n in ns :: n in names
  {
    hide Twice, KindAt;
    forall n | n in ns ensures n in names {
      var i :| 0 <= i < |ns| && ns[i] == n;
      KindHas(es, kind, at, ns, i);
    }
  }

  /** A program with the identifiers of `rs` runs as the module does. */
  lemma WrittenRuns(
    m: Module, q: CProg<string>, rs: seq<SymbolMaps>, sem: Sem, i: nat, args: seq<nat>, world: World, fuel: nat)
    requires ValidModule(m) && WritableModule(m) && RenamedProg(sem, rs, CompileModule(m), q) && |q.funcs| == |m.funcs|
    requires i < |m.funcs| && !m.funcs[i].imported && |args| == |m.funcs[i].sig.params|
    ensures RunC(sem, q, i, args, world, fuel) == RunFunc(sem, m, i, args, world, fuel)
    ensures !RunC(sem, q, i, args, world, fuel).out.Wrong?
  {
    hide RunC, RunFunc, RenamedProg;
    CTheorem.SimFunc(sem, m, i, args, world, fuel);
    RenamedRun(sem, rs, CompileModule(m), q, i, args, world, fuel);
  }

  lemma AllRuns(m: Module, s: Sources, q: CProg<string>, rs: seq<SymbolMaps>, sem: Sem)
    requires WritableProgram(m, s) && |rs| == |q.funcs| == |m.funcs| && Linked(sem, m, s)
    requires forall i | 0 <= i < |rs| :: RenamedFunc(rs[i], CompileFunc(m, m.funcs[i]), q.funcs[i])
    requires forall i | 0 <= i < |rs| ::
               && RightNames(Entities(m, s), rs[i].globals)
               && Declares(FuncNames(m), rs[i].globals, q.fenv) && Declares(GlobalNames(m), rs[i].globals, q.genv)
    ensures forall i: nat, args: seq<nat>, world: World, fuel: nat
              | i < |m.funcs| && !m.funcs[i].imported && |args| == |m.funcs[i].sig.params| ::
              && RunC(sem, q, i, args, world, fuel) == RunFunc(sem, m, i, args, world, fuel)
              && !RunC(sem, q, i, args, world, fuel).out.Wrong?
  {
    hide RunC, RunFunc, RenamedFunc, SameEnv, CompileFunc, ValidModule, WritableModule, RightNames, Declares, Linked,
      LabelsApart, Nameable, Entities;
    forall i | 0 <= i < |rs| ensures SameEnv(sem, rs[i], CompileModule(m), q) {
      EnvAgrees(sem, m, s, rs[i], q);
    }
    assert RenamedProg(sem, rs, CompileModule(m), q);
    forall i: nat, args: seq<nat>, world: World, fuel: nat
      | i < |m.funcs| && !m.funcs[i].imported && |args| == |m.funcs[i].sig.params|
      ensures RunC(sem, q, i, args, world, fuel) == RunFunc(sem, m, i, args, world, fuel)
      ensures !RunC(sem, q, i, args, world, fuel).out.Wrong?
    {
      WrittenRuns(m, q, rs, sem, i, args, world, fuel);
    }
  }

  // ----- the identifiers of a program -----

  /** The identifier of an entity: the mangled symbol of an import, otherwise its legal name, perhaps
      with a number, and not reserved. */
  ghost predicate RightSymbol(e: Entity, id: string, reserved: set<string>) {
    && Symbols.IsIdentifier(id)
    && if e.source.Some? then id == e.Symbol() else Symbols.Derived(Symbols.Stripped(e.name), id) && id !in reserved
  }

  /** What `env` declares are the `n` entities from `at` on, each under its own identifier, where the
      same imports share one. */
  ghost predicate Declared(es: seq<Entity>, at: nat, n: nat, env: map<string, nat>, reserved: set<string>) {
    && at + n <= |es|
    && (forall id | id in env :: env[id] < n && RightSymbol(es[at + env[id]], id, reserved))
    && (forall k | at <= k < at + n && es[k].source.Some? ::
          var id := es[k].Symbol(); id in env && (at + env[id] == k || Twice(es[k], es[at + env[id]])))
    && (forall k | at <= k < at + n && es[k].source.None? :: exists id :: id in env && at + env[id] == k)
  }

  /** An exported entity is found under the identifier `id`: its own, declared if it is a function or a
      global, and nobody else's. */
  ghost predicate ExportedAs(
    es: seq<Entity>, x: Export, id: string, q: CProg<string>, funcs: nat, reserved: set<string>)
    requires x.entity < |es|
  {
    var e := es[x.entity];
    && RightSymbol(e, id, reserved)
    && (id in q.fenv <==> e.item.FuncItem?) && (id in q.genv <==> e.item.GlobalItem?)
    && (id in q.fenv ==> q.fenv[id] == x.entity || (q.fenv[id] < |es| && Twice(e, es[q.fenv[id]])))
    && (id in q.genv ==> funcs + q.genv[id] == x.entity
                         || (funcs + q.genv[id] < |es| && Twice(e, es[funcs + q.genv[id]])))
  }

  /** Identifiers that are free to be used in functions. */
  ghost function FreeIds(q: CProg<string>, reserved: set<string>): iset<string> {
    iset id: string | Symbols.IsIdentifier(id) && id !in reserved && id !in q.fenv && id !in q.genv
  }

  /** The symbol of an entity, in the map and in the list of own symbols. */
  ghost predicate Named(es: seq<Entity>, names: map<string, string>, reserved: set<string>) {
    RightNames(es, names) && forall k | 0 <= k < |es| :: RightSymbol(es[k], names[es[k].name], reserved)
  }

  lemma NamedRight(
    es: seq<Entity>, names: map<string, string>, own: seq<string>, syms: set<string>, reserved: set<string>)
    requires Entered(es, names, own, |es|, |es|) && OwnSymbols(es, own, syms, |es|, |es|) && Nameable(es)
    requires forall k | 0 <= k < |es| && es[k].source.None? :: own[k] !in reserved
    ensures Named(es, names, reserved)
  {
    hide SameImport, Leads, Symbols.Derived, Symbols.IsIdentifier, Mangling.ImportSymbol;
    NamesGood(es, names, own, syms);
    SymbolsRight(es, names, own, syms);
    forall k | 0 <= k < |es| ensures RightSymbol(es[k], names[es[k].name], reserved) {
      assert In(es, |es|, |es|, k);
      if es[k].source.None? {
        Symbols.DerivedIdentifier(Symbols.Stripped(es[k].name), own[k]);
      } else {
        Mangling.SymbolIdentifier(es[k].source.value.moduleName, es[k].source.value.field, es[k].item);
      }
    }
  }

  lemma SymbolOf(es: seq<Entity>, names: map<string, string>, reserved: set<string>, k: nat)
    requires Named(es, names, reserved) && k < |es|
    ensures es[k].name in names && RightSymbol(es[k], names[es[k].name], reserved)
  {
    hide RightSymbol, Twice;
  }

  /** The declarations of one kind. */
  lemma KindDeclared(
    es: seq<Entity>, kind: nat, at: nat, ns: seq<string>, names: map<string, string>, env: map<string, nat>,
    reserved: set<string>)
    requires NoDuplicates(ns) && Declares(ns, names, env) && Named(es, names, reserved) && KindAt(es, kind, at, ns)
    ensures Declared(es, at, |ns|, env, reserved)
  {
    hide Twice, KindAt, RightNames, Declares, NoDuplicates, Symbols.Derived, Symbols.IsIdentifier,
      Mangling.ImportSymbol, Named, KindOf;
    KindFits(es, kind, at, ns);
    forall id | id in env ensures env[id] < |ns| && RightSymbol(es[at + env[id]], id, reserved) {
      DeclaredBy(ns, names, env, id);
      KindHas(es, kind, at, ns, env[id]);
      SymbolOf(es, names, reserved, at + env[id]);
    }
    forall k | at <= k < at + |ns|
      ensures es[k].source.Some? ==>
                var id := es[k].Symbol(); id in env && (at + env[id] == k || Twice(es[k], es[at + env[id]]))
      ensures es[k].source.None? ==> exists id :: id in env && at + env[id] == k
    {
      KindHas(es, kind, at, ns, k - at);
      SymbolOf(es, names, reserved, k);
      NamedNames(es, names, reserved);
      FoundIn(es, kind, at, ns, names, env, k);
      var id := names[es[k].name];
      if es[k].source.None? {
        NotTwice(es[k], es[at + env[id]]);
        assert id in env && at + env[id] == k;
      }
    }
  }

  lemma EntityNamed(es: seq<Entity>, names: map<string, string>, k: nat)
    requires RightNames(es, names) && k < |es|
    ensures es[k].name in names
  {
    hide Twice;
  }

  lemma NotTwice(a: Entity, b: Entity)
    ensures a.source.None? ==> !Twice(a, b)
  {}

  lemma NamedNames(es: seq<Entity>, names: map<string, string>, reserved: set<string>)
    requires Named(es, names, reserved)
    ensures RightNames(es, names)
  {}

  lemma DeclaredBy(ns: seq<string>, names: map<string, string>, env: map<string, nat>, id: string)
    requires Declares(ns, names, env) && id in env
    ensures env[id] < |ns| && ns[env[id]] in names && names[ns[env[id]]] == id
  {}

  /** An entity is declared among those of one kind exactly if it is of that kind. */
  lemma FoundIn(
    es: seq<Entity>, kind: nat, at: nat, ns: seq<string>, names: map<string, string>, env: map<string, nat>, k: nat)
    requires NoDuplicates(ns) && Declares(ns, names, env) && RightNames(es, names) && KindAt(es, kind, at, ns)
    requires k < |es| && es[k].name in names
    ensures var id := names[es[k].name];
            && (id in env <==> KindOf(es[k].item) == kind)
            && (id in env ==> at + env[id] < |es| && (at + env[id] == k || Twice(es[k], es[at + env[id]])))
  {
    hide Twice, KindOf, KindAt, RightNames, Declares, NoDuplicates;
    var id := names[es[k].name];
    KindFits(es, kind, at, ns);
    if id in env {
      DeclaredBy(ns, names, env, id);
      KindHas(es, kind, at, ns, env[id]);
      SameIdentifier(es, names, k, at + env[id]);
      TwiceItem(es[k], es[at + env[id]]);
    } else if KindOf(es[k].item) == kind {
      KindOnly(es, kind, at, ns, k);
      DeclaredName(ns, names, env, es[k].name);
    }
  }

  lemma DeclaredName(ns: seq<string>, names: map<string, string>, env: map<string, nat>, n: string)
    requires Declares(ns, names, env) && n in ns
    ensures n in names && names[n] in env
  {}

  /** Where an export points to. */
  lemma ExportRight(
    m: Module, s: Sources, names: map<string, string>, q: CProg<string>, x: Export, reserved: set<string>)
    requires WritableProgram(m, s) && Named(Entities(m, s), names, reserved) && x.entity < |Entities(m, s)|
    requires Declares(FuncNames(m), names, q.fenv) && Declares(GlobalNames(m), names, q.genv)
    ensures var es := Entities(m, s);
            es[x.entity].name in names && ExportedAs(es, x, names[es[x.entity].name], q, |m.funcs|, reserved)
  {
    hide RightNames, Declares, KindAt, ValidModule, WritableModule, LabelsApart, Nameable, Twice, Entities, Named,
      RightSymbol;
    var es := Entities(m, s);
    EntityNames(m, s);
    KindsAt(m, s);
    SymbolOf(es, names, reserved, x.entity);
    NamedNames(es, names, reserved);
    FoundIn(es, 0, 0, FuncNames(m), names, q.fenv, x.entity);
    FoundIn(es, 1, |m.funcs|, GlobalNames(m), names, q.genv, x.entity);
    var id := names[es[x.entity].name];
    assert id in q.fenv ==> 0 + q.fenv[id] == q.fenv[id];
  }

  /** All keys of an environment are taken. */
  lemma KeysTaken(ns: seq<string>, names: map<string, string>, env: map<string, nat>, syms: set<string>)
    requires Declares(ns, names, env) && forall n | n in names :: names[n] in syms
    ensures forall id | id in env :: id in syms
  {
    forall id | id in env ensures id in syms { DeclaredBy(ns, names, env, id); }
  }

  lemma LocalsFree(
    r: SymbolMaps, x: CFunc<Sym>, y: CFunc<string>, q: CProg<string>, syms: set<string>, reserved: set<string>)
    requires LocalsFresh(r, syms) && RenamedFunc(r, x, y) && reserved <= syms
    requires (forall id | id in q.fenv :: id in syms) && (forall id | id in q.genv :: id in syms)
    ensures FuncIn(FreeIds(q, reserved), y)
  {
    hide RenamedFunc, FuncIn, Symbols.Derived, Symbols.IsIdentifier;
    forall v: Sym | r.HasVar(v) ensures r.Get(v) in FreeIds(q, reserved) {
      Symbols.DerivedIdentifier(BaseText(v), r.Get(v));
    }
    FuncAmong(r, FreeIds(q, reserved), x, y);
  }

  /** WriteModule.  For every meaning of the operators and of the host, every function of the program
      written gives the results, trap, memory and globals of the WebAssembly function, and none
      reads an undefined variable or misses a label.  What is imported twice may be used under both
      names.  Imports are declared under their mangled symbols; nothing else is reserved, and what is
      local to a function is not visible outside it.  Exports point to what they export. */
  method WriteModule(m: Module, s: Sources, xs: seq<Export>, reserved: set<string>)
    returns (q: CProg<string>, exports: seq<(string, string)>)
    requires WritableProgram(m, s) && forall k | 0 <= k < |xs| :: xs[k].entity < |Entities(m, s)|
    ensures |q.funcs| == |m.funcs|
    ensures forall sem: Sem, i: nat, args: seq<nat>, world: World, fuel: nat
              | Linked(sem, m, s) && i < |m.funcs| && !m.funcs[i].imported && |args| == |m.funcs[i].sig.params| ::
              && RunC(sem, q, i, args, world, fuel) == RunFunc(sem, m, i, args, world, fuel)
              && !RunC(sem, q, i, args, world, fuel).out.Wrong?
    ensures Declared(Entities(m, s), 0, |m.funcs|, q.fenv, reserved)
    ensures Declared(Entities(m, s), |m.funcs|, |m.globals|, q.genv, reserved)
    ensures forall i | 0 <= i < |q.funcs| :: FuncIn(FreeIds(q, reserved), q.funcs[i])
    ensures |exports| == |xs| && forall k | 0 <= k < |xs| ::
              && exports[k].0 == xs[k].Symbol(Entities(m, s))
              && ExportedAs(Entities(m, s), xs[k], exports[k].1, q, |m.funcs|, reserved)
    ensures forall k, l | 0 <= k < |xs| && 0 <= l < |xs| && exports[k].1 == exports[l].1 ::
              xs[k].entity == xs[l].entity || Twice(Entities(m, s)[xs[k].entity], Entities(m, s)[xs[l].entity])
  {
    hide RunC, RunFunc, Nameable, RenamedFunc, SameEnv, CompileFunc, RightNames, CompileModule, ValidModule,
      WritableModule, Entered, OwnSymbols, Linked, Declares, LabelsApart, Export.Symbol, Named, Declared, ExportedAs,
      LocalsFresh, FreeIds, FuncIn, Entities, Twice;
    var es := Entities(m, s);
    var names, syms, own := NameImports(es, reserved);
    names, syms, own := NameDefinitions(es, names, syms, own);
    NamesGood(es, names, own, syms);
    NamedRight(es, names, own, syms, reserved);
    AllNamed(m, s, names);
    var funcs; ghost var rs;
    funcs, rs := WriteFuncs(m, names, syms);
    exports := WriteExports(es, names, xs);
    var fenv := Declarations(FuncNames(m), names);
    var genv := Declarations(GlobalNames(m), names);
    q := CProg(funcs, fenv, genv);
    EntityNames(m, s);
    KindsAt(m, s);
    KindDeclared(es, 0, 0, FuncNames(m), names, fenv, reserved);
    KindDeclared(es, 1, |m.funcs|, GlobalNames(m), names, genv, reserved);
    forall k | 0 <= k < |xs| ensures ExportedAs(es, xs[k], exports[k].1, q, |m.funcs|, reserved) {
      ExportRight(m, s, names, q, xs[k], reserved);
    }
    forall k, l | 0 <= k < |xs| && 0 <= l < |xs| && exports[k].1 == exports[l].1
      ensures xs[k].entity == xs[l].entity || Twice(es[xs[k].entity], es[xs[l].entity])
    {
      EntityNamed(es, names, xs[k].entity);
      EntityNamed(es, names, xs[l].entity);
      SameIdentifier(es, names, xs[k].entity, xs[l].entity);
    }
    KeysTaken(FuncNames(m), names, fenv, syms);
    KeysTaken(GlobalNames(m), names, genv, syms);
    forall i | 0 <= i < |q.funcs| ensures FuncIn(FreeIds(q, reserved), q.funcs[i]) {
      LocalsFree(rs[i], CompileFunc(m, m.funcs[i]), q.funcs[i], q, syms, reserved);
    }
    forall sem: Sem | Linked(sem, m, s)
      ensures forall i: nat, args: seq<nat>, world: World, fuel: nat
                | i < |m.funcs| && !m.funcs[i].imported && |args| == |m.funcs[i].sig.params| ::
                && RunC(sem, q, i, args, world, fuel) == RunFunc(sem, m, i, args, world, fuel)
                && !RunC(sem, q, i, args, world, fuel).out.Wrong?
    {
      AllRuns(m, s, q, rs, sem);
    }
  }
}

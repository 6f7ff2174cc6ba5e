/** From a module as it was loaded to the C program: GenerateNames, ApplyNames, WriteModule. */
module Pipeline {
  import opened Util
  import opened Wasm
  import opened Validation
  import opened CLang
  import opened CCompile
  import opened References
  import opened GenerateNames
  import opened ApplyNames
  import opened CModule
  import opened CRename
  import Mangling

  /** Names that are given are given once. */
  predicate NamedOnce(ns: seq<string>) {
    forall i, j | 0 <= i < j < |ns| && ns[i] != "" :: ns[i] != ns[j]
  }

  /** A module whose bodies have no labels, as the binary reader makes it. */
  predicate Loaded(m: Module) {
    && NamedOnce(FuncNames(m)) && NamedOnce(GlobalNames(m))
    && forall i | 0 <= i < |m.funcs| :: LoadedFunc(m, m.funcs[i])
  }

  predicate LoadedFunc(m: Module, f: Func) {
    && NamedOnce(f.localNames) && |f.localNames| == |f.LocalTypes()|
    && (!f.imported ==> IndexedList(TablesOf(m, f), 1, f.body) && UnlabelledList(f.body))
  }

  // ----- GenerateNames -----

  /** Where the entities of one kind are imported from, and the names they are exported under. */
  datatype Links = Links(source: seq<Option<ImportName>>, exports: seq<(nat, Mangling.AsciiString)>)
  {
    /** The outside names in the order they are visited: imports, then exports. */
    function Outside(): seq<(nat, string)> { ImportNames(source) + exports }

    predicate Fits(n: nat) { |source| == n && GenerateNames.Within(exports, n) }
  }

  /** "module.field" for every import. */
  function ImportNames(source: seq<Option<ImportName>>): (r: seq<(nat, string)>)
    ensures GenerateNames.Within(r, |source|)
  {
    if source == [] then []
    else
      var n := |source| - 1;
      ImportNames(source[..n])
      + match source[n] case None => [] case Some(s) => [(n, s.moduleName + "." + s.field)]
  }

  /** Imports and exports of a module, and its memories and tables by their names. */
  datatype Surroundings = Surroundings(
    funcs: Links, globals: Links, memories: Links, tables: Links, memoryNames: seq<string>, tableNames: seq<string>)
  {
    predicate Fits(m: Module) {
      && funcs.Fits(|m.funcs|) && globals.Fits(|m.globals|) && memories.Fits(|memoryNames|) && tables.Fits(|tableNames|)
      && (forall i | 0 <= i < |m.funcs| :: m.funcs[i].imported <==> funcs.source[i].Some?)
      && NamedOnce(memoryNames) && NamedOnce(tableNames)
    }

    function ExportCount(): nat { |funcs.exports| + |globals.exports| + |memories.exports| + |tables.exports| }
  }

  // The names the entities of a module get, kind by kind.
  function NewFuncNames(m: Module, env: Surroundings): (r: seq<string>)
    requires env.Fits(m)
    ensures |r| == |m.funcs|
  {
    KindNames(FuncNames(m), env.funcs.Outside(), "f")
  }

  function NewGlobalNames(m: Module, env: Surroundings): (r: seq<string>)
    requires env.Fits(m)
    ensures |r| == |m.globals|
  {
    KindNames(GlobalNames(m), env.globals.Outside(), "g")
  }

  function NewStorageNames(m: Module, env: Surroundings): (r: seq<string>)
    requires env.Fits(m)
    ensures |r| == |env.memoryNames| + |env.tableNames|
  {
    KindNames(env.memoryNames, env.memories.Outside(), "M") + KindNames(env.tableNames, env.tables.Outside(), "T")
  }

  function AllNames(m: Module, env: Surroundings): seq<string>
    requires env.Fits(m)
  {
    NewFuncNames(m, env) + NewGlobalNames(m, env) + NewStorageNames(m, env)
  }

  /** `f'` is `f` with all locals and labels named. */
  ghost predicate NamedAs(f: Func, f': Func, name: string) {
    && f' == f.(name := name, localNames := f'.localNames, body := f'.body)
    && Completes(f.localNames, f'.localNames)
    && f'.body == if f.imported then f.body else WithLabelsList(f.body, 0)
  }

  /** What GenerateNames makes of a module. */
  ghost predicate Generated(m: Module, m': Module) {
    && Completes(FuncNames(m), FuncNames(m')) && Completes(GlobalNames(m), GlobalNames(m'))
    && (forall i | 0 <= i < |m.globals| :: m'.globals[i].ty == m.globals[i].ty)
    && forall i | 0 <= i < |m.funcs| :: NamedAs(m.funcs[i], m'.funcs[i], m'.funcs[i].name)
  }

  /** GenerateAndBindLocalNames: "p" for parameters, "l" for the others. */
  method NameLocals(f: Func) returns (names: seq<string>)
    requires NamedOnce(f.localNames) && |f.localNames| == |f.LocalTypes()|
    ensures Completes(f.localNames, names)
    ensures forall i | 0 <= i < |names| && f.localNames[i] == "" :: Prefixed("p", names[i]) || Prefixed("l", names[i])
  {
    hide Prefixed;
    var bindings := new Bindings(f.localNames);
    bindings.NameAll("p", 0, |f.sig.params|);
    bindings.NameAll("l", |f.sig.params|, |f.localNames|);
    bindings.AllDistinct();
    names := bindings.names;
  }

  method NameEntities(ns: seq<string>, outside: seq<(nat, string)>, prefix: string) returns (names: seq<string>)
    requires NamedOnce(ns) && GenerateNames.Within(outside, |ns|)
    ensures Completes(ns, names) && names == KindNames(ns, outside, prefix)
  {
    hide Prefixed, OutsideUsed, NamesInvented;
    var bindings := new Bindings(ns);
    bindings.UseOutsideNames(outside);
    bindings.NameAll(prefix, 0, |ns|);
    bindings.AllDistinct();
    names := bindings.names;
  }

  /** The names of locals are the given ones, or those of GenerateAndBindLocalNames. */
  ghost predicate LocalsFrom(given: seq<string>, names: seq<string>) {
    |names| == |given| && forall i | 0 <= i < |names| ::
      names[i] == given[i] || Prefixed("p", names[i]) || Prefixed("l", names[i])
  }

  method GenerateModuleNames(m: Module, env: Surroundings) returns (m': Module)
    requires Loaded(m) && env.Fits(m)
    ensures Generated(m, m') && FuncNames(m') == NewFuncNames(m, env) && GlobalNames(m') == NewGlobalNames(m, env)
    ensures forall i | 0 <= i < |m.funcs| :: LocalsFrom(m.funcs[i].localNames, m'.funcs[i].localNames)
  {
    hide Prefixed, Completes, KindNames, ImportNames;
    var funcNames := NameEntities(FuncNames(m), env.funcs.Outside(), "f");
    var globalNames := NameEntities(GlobalNames(m), env.globals.Outside(), "g");
    CompletesSize(FuncNames(m), funcNames);
    CompletesSize(GlobalNames(m), globalNames);
    var funcs := [];
    for i := 0 to |m.funcs|
      invariant |funcs| == i && forall k | 0 <= k < i :: NamedAs(m.funcs[k], funcs[k], funcNames[k])
      invariant forall k | 0 <= k < i :: LocalsFrom(m.funcs[k].localNames, funcs[k].localNames)
    {
      var f := m.funcs[i];
      var localNames := NameLocals(f);
      CompletesSize(f.localNames, localNames);
      CompletesKeeps(f.localNames, localNames);
      var body := f.body;
      if !f.imported {
        var generator := new NameGenerator();
        body := generator.VisitList(f.body);
      }
      funcs := funcs + [f.(name := funcNames[i], localNames := localNames, body := body)];
    }
    var globals := [];
    for i := 0 to |m.globals|
      invariant |globals| == i && forall k | 0 <= k < i :: globals[k] == m.globals[k].(name := globalNames[k])
    {
      globals := globals + [m.globals[i].(name := globalNames[i])];
    }
    m' := Module(funcs, globals);
    assert FuncNames(m') == funcNames && GlobalNames(m') == globalNames;
  }

  lemma CompletesKeeps(ns: seq<string>, ns': seq<string>)
    requires Completes(ns, ns')
    ensures forall i | 0 <= i < |ns| && ns[i] != "" :: |ns'| == |ns| && ns'[i] == ns[i]
  {}

  lemma CompletesSize(ns: seq<string>, ns': seq<string>)
    requires Completes(ns, ns')
    ensures |ns'| == |ns|
  {}

  /** GenerateNames keeps what every reference denotes. */
  lemma GeneratedSame(m: Module, m': Module)
    requires Loaded(m) && Generated(m, m')
    ensures SameModule(m, m')
  {
    hide Completes;
    CompletesSize(FuncNames(m), FuncNames(m'));
    CompletesSize(GlobalNames(m), GlobalNames(m'));
    forall i | 0 <= i < |m.funcs| ensures SameFunc(m, m', m.funcs[i], m'.funcs[i]) {
      var f, f' := m.funcs[i], m'.funcs[i];
      assert NamedAs(f, f', f'.name) && LoadedFunc(m, f);
      CompletesSize(f.localNames, f'.localNames);
      if !f.imported {
        LabelsKeepRefsList(Scope(TablesOf(m, f), [""]), Scope(TablesOf(m', f'), [""]), f.body, 0);
      }
    }
  }

  // ----- ApplyNames -----

  function AppliedFunc(m: Module, f: Func): Func {
    if f.imported then f else f.(body := AppliedList(TablesOf(m, f), [], f.body))
  }

  predicate AppliedTo(m: Module, m': Module) {
    && m'.globals == m.globals && |m'.funcs| == |m.funcs|
    && forall i | 0 <= i < |m.funcs| :: m'.funcs[i] == AppliedFunc(m, m.funcs[i])
  }

  method ApplyModuleNames(m: Module) returns (m': Module)
    ensures AppliedTo(m, m')
  {
    var funcs := [];
    for i := 0 to |m.funcs|
      invariant |funcs| == i && forall k | 0 <= k < i :: funcs[k] == AppliedFunc(m, m.funcs[k])
    {
      var f := m.funcs[i];
      if !f.imported {
        var applier := new NameApplier(TablesOf(m, f));
        var body := applier.VisitList(f.body);
        f := f.(body := body);
      }
      funcs := funcs + [f];
    }
    m' := Module(funcs, m.globals);
  }

  /** A function GenerateNames is done with. */
  ghost predicate Ready(m: Module, f: Func) {
    !f.imported ==>
      && FullyNamed(TablesOf(m, f)) && IndexedList(TablesOf(m, f), 1, f.body)
      && DistinctLabelsList(f.body) && "" !in LabelsOfList(f.body) && IMPLICIT_FUNC_LABEL !in LabelsOfList(f.body)
  }

  lemma GeneratedReady(m: Module, m': Module, i: nat)
    requires Loaded(m) && Generated(m, m') && i < |m.funcs|
    ensures |m'.funcs| == |m.funcs| && Ready(m', m'.funcs[i])
  {
    hide Numbered;
    var f, f' := m.funcs[i], m'.funcs[i];
    assert NamedAs(f, f', f'.name) && LoadedFunc(m, f);
    if !f.imported {
      LabelsKeepRefsList(Scope(TablesOf(m, f), [""]), Scope(TablesOf(m', f'), [""]), f.body, 0);
      LabelsNumberedList(f.body, 0);
      forall s | s in LabelsOfList(f'.body) ensures s != "" && s != IMPLICIT_FUNC_LABEL {
        NumberedProper(s, 0, LabelCountList(f.body));
      }
    }
  }

  lemma NumberedProper(s: string, lo: nat, hi: nat)
    requires Numbered(s, lo, hi)
    ensures s != "" && s != IMPLICIT_FUNC_LABEL && exists c: char :: c in {'B', 'L', 'I'} && Prefixed([c], s)
  {
    var k: nat, c: char :| lo <= k < hi && c in {'B', 'L', 'I'} && s == LabelName(c, k);
    LabelNameProper(c, k);
    NameNotEmpty([c], Some(k), 0);
  }

  /** ApplyNames keeps what every reference denotes, and its result is what the C writer needs. */
  lemma AppliedSame(m: Module, m': Module)
    requires AppliedTo(m, m') && forall i | 0 <= i < |m.funcs| :: Ready(m, m.funcs[i])
    ensures SameModule(m, m') && WritableModule(m')
  {
    hide FullyNamed;
    assert FuncNames(m') == FuncNames(m) && GlobalNames(m') == GlobalNames(m);
    forall i | 0 <= i < |m.funcs|
      ensures SameFunc(m, m', m.funcs[i], m'.funcs[i]) && Writable(m'.funcs[i])
    {
      var f, f' := m.funcs[i], m'.funcs[i];
      assert f' == AppliedFunc(m, f) && Ready(m, f);
      assert TablesOf(m', f') == TablesOf(m, f);
      if !f.imported {
        NamesKeepRefsList(TablesOf(m, f), [], f.body);
        assert OuterScope(TablesOf(m, f), []) == Scope(TablesOf(m, f), [""]);
        LabelsStayList(TablesOf(m, f), [], f.body);
        assert NoDuplicates(f.localNames) by { LocalsNamed(m, f); }
      }
    }
  }

  lemma LocalsNamed(m: Module, f: Func)
    requires FullyNamed(TablesOf(m, f))
    ensures NoDuplicates(f.localNames)
  {}

  // ----- names that are shared -----

  /** No given name of a local is the name of a label of its function, given or to be given. */
  predicate GivenApart(f: Func) {
    !f.imported ==>
      forall n | n in f.localNames && n != "" ::
        n !in LabelsOfList(WithLabelsList(f.body, 0)) && n != IMPLICIT_FUNC_LABEL
  }

  /** No name is given to two things that share a symbol map of the C writer. */
  predicate NamesApart(m: Module, env: Surroundings)
    requires env.Fits(m)
  {
    NoDuplicates(AllNames(m, env)) && forall i | 0 <= i < |m.funcs| :: GivenApart(m.funcs[i])
  }

  lemma PrefixesApart(c: char, d: char, a: string, b: string)
    requires Prefixed([c], a) && Prefixed([d], b) && c != d
    ensures a != b
  {
    assert a[1] == c && b[1] == d;
  }

  lemma ImplicitPrefix()
    ensures Prefixed("B", IMPLICIT_FUNC_LABEL)
  {}

  /** Names that were given to locals by GenerateNames never are names of labels, so that the given
      ones decide. */
  lemma LocalsApart(m: Module, m1: Module, i: nat)
    requires Loaded(m) && Generated(m, m1) && i < |m.funcs| && |m1.funcs| == |m.funcs|
    requires LocalsFrom(m.funcs[i].localNames, m1.funcs[i].localNames)
    ensures LabelsApart(AppliedFunc(m1, m1.funcs[i])) <==> GivenApart(m.funcs[i])
  {
    hide Prefixed, Numbered;
    var f, f1 := m.funcs[i], m1.funcs[i];
    var f2 := AppliedFunc(m1, f1);
    assert NamedAs(f, f1, f1.name) && LoadedFunc(m, f);
    if !f.imported {
      LabelsStayList(TablesOf(m1, f1), [], f1.body);
      assert LabelsOfList(f2.body) == LabelsOfList(WithLabelsList(f.body, 0));
      forall k | 0 <= k < |f1.localNames| && f1.localNames[k] != f.localNames[k]
        ensures f1.localNames[k] !in LabelsOfList(f2.body) && f1.localNames[k] != IMPLICIT_FUNC_LABEL
      {
        InventedApart(f, f1.localNames[k]);
      }
      GivenDecide(f.localNames, f1.localNames, LabelsOfList(f2.body));
    }
  }

  lemma GivenDecide(given: seq<string>, names: seq<string>, labels: set<string>)
    requires Completes(given, names)
    requires forall k | 0 <= k < |names| && names[k] != given[k] ::
             names[k] !in labels && names[k] != IMPLICIT_FUNC_LABEL
    ensures (forall n | n in names :: n !in labels) && IMPLICIT_FUNC_LABEL !in names
       <==> forall n | n in given && n != "" :: n !in labels && n != IMPLICIT_FUNC_LABEL
  {
    forall n | n in given && n != "" ensures n in names {
      var k :| 0 <= k < |given| && given[k] == n;
      assert names[k] == n;
    }
    forall n | n in names ensures (n in given && n != "") || (n !in labels && n != IMPLICIT_FUNC_LABEL) {
      var k :| 0 <= k < |names| && names[k] == n;
    }
  }

  lemma InventedApart(f: Func, n: string)
    requires (Prefixed("p", n) || Prefixed("l", n)) && UnlabelledList(f.body)
    ensures n !in LabelsOfList(WithLabelsList(f.body, 0)) && n != IMPLICIT_FUNC_LABEL
  {
    hide Prefixed, Numbered;
    var c := if Prefixed("p", n) then 'p' else 'l';
    assert Prefixed([c], n);
    LabelsNumberedList(f.body, 0);
    if n in LabelsOfList(WithLabelsList(f.body, 0)) {
      NumberedProper(n, 0, LabelCountList(f.body));
      var d: char :| d in {'B', 'L', 'I'} && Prefixed([d], n);
      PrefixesApart(c, d, n, n);
    }
    assert Prefixed("B", IMPLICIT_FUNC_LABEL) by { ImplicitPrefix(); }
    PrefixesApart(c, 'B', n, IMPLICIT_FUNC_LABEL);
  }

  /** Both passes: the module can be written as C, is as valid as before and runs as before. */
  method NameModule(m: Module, env: Surroundings) returns (m': Module)
    requires ValidModule(m) && Loaded(m) && env.Fits(m)
    ensures SameModule(m, m') && ValidModule(m') && WritableModule(m')
    ensures FuncNames(m') == NewFuncNames(m, env) && GlobalNames(m') == NewGlobalNames(m, env)
    ensures forall i | 0 <= i < |m.globals| :: |m'.globals| == |m.globals| && m'.globals[i].ty == m.globals[i].ty
    ensures forall i | 0 <= i < |m.funcs| ::
            |m'.funcs| == |m.funcs| && (LabelsApart(m'.funcs[i]) <==> GivenApart(m.funcs[i]))
  {
    hide Generated, SameModule, Loaded, Ready, ValidModule, WritableModule, NewFuncNames, NewGlobalNames, LocalsFrom,
      LabelsApart, GivenApart;
    var m1 := GenerateModuleNames(m, env);
    GeneratedSame(m, m1);
    m' := ApplyModuleNames(m1);
    ModuleSize(m, m1);
    GeneratedTypes(m, m1);
    forall i | 0 <= i < |m1.funcs| ensures Ready(m1, m1.funcs[i]) {
      GeneratedReady(m, m1, i);
    }
    AppliedSame(m1, m');
    SameModuleTwice(m, m1, m');
    SameValid(m, m');
    assert FuncNames(m') == FuncNames(m1) && GlobalNames(m') == GlobalNames(m1);
    forall i | 0 <= i < |m.funcs| ensures LabelsApart(m'.funcs[i]) <==> GivenApart(m.funcs[i]) {
      LocalsApart(m, m1, i);
    }
  }

  lemma GeneratedTypes(m: Module, m': Module)
    requires Generated(m, m')
    ensures forall i | 0 <= i < |m.globals| :: |m'.globals| == |m.globals| && m'.globals[i].ty == m.globals[i].ty
  {}

  // ----- the whole way -----

  /** Memories come before tables. */
  function StoragesOf(names: seq<string>, sources: seq<Option<ImportName>>, memories: nat): (r: seq<Storage>)
    requires |names| == |sources|
    ensures |r| == |names|
    ensures forall i | 0 <= i < |r| :: r[i] == Storage(names[i], StorageKindAt(i, memories), sources[i])
  {
    seq(|names|, i requires 0 <= i < |names| => Storage(names[i], StorageKindAt(i, memories), sources[i]))
  }

  function StorageKindAt(i: nat, memories: nat): Mangling.StorageKind {
    if i < memories then Mangling.MemoryKind else Mangling.TableKind
  }

  function SourcesOf(m: Module, env: Surroundings): (s: Sources)
    requires env.Fits(m)
    ensures s.funcs == env.funcs.source && s.globals == env.globals.source
  {
    Sources(env.funcs.source, env.globals.source,
            StoragesOf(NewStorageNames(m, env), env.memories.source + env.tables.source, |env.memoryNames|))
  }

  /** The exports of one kind, whose entities start at `at`. */
  function ExportsFrom(xs: seq<(nat, Mangling.AsciiString)>, at: nat): (r: seq<Export>)
    ensures |r| == |xs| && forall k | 0 <= k < |r| :: r[k] == Export(xs[k].1, at + xs[k].0)
  {
    seq(|xs|, k requires 0 <= k < |xs| => Export(xs[k].1, at + xs[k].0))
  }

  /** All exports of a module, those of functions first. */
  function ExportsOf(m: Module, env: Surroundings): (xs: seq<Export>)
    requires env.Fits(m)
    ensures |xs| == env.ExportCount()
    ensures forall k | 0 <= k < |env.funcs.exports| :: xs[k] == Export(env.funcs.exports[k].1, env.funcs.exports[k].0)
    ensures var at, a := |env.funcs.exports|, |m.funcs|;
            forall k | at <= k < at + |env.globals.exports| ::
              var (i, name) := env.globals.exports[k - at]; xs[k] == Export(name, a + i)
    ensures var at, a := |env.funcs.exports| + |env.globals.exports|, |m.funcs| + |m.globals|;
            forall k | at <= k < at + |env.memories.exports| ::
              var (i, name) := env.memories.exports[k - at]; xs[k] == Export(name, a + i)
    ensures var at, a := |xs| - |env.tables.exports|, |m.funcs| + |m.globals| + |env.memoryNames|;
            forall k | at <= k < |xs| :: var (i, name) := env.tables.exports[k - at]; xs[k] == Export(name, a + i)
    ensures forall k | 0 <= k < |xs| :: xs[k].entity < |Entities(m, SourcesOf(m, env))|
  {
    var a, b, c := |m.funcs|, |m.globals|, |env.memoryNames|;
    ExportsFrom(env.funcs.exports, 0) + ExportsFrom(env.globals.exports, a)
    + ExportsFrom(env.memories.exports, a + b) + ExportsFrom(env.tables.exports, a + b + c)
  }

  /** Imports with the same symbol are the same. */
  predicate ImportsApart(m: Module, env: Surroundings)
    requires env.Fits(m)
  {
    var es := Entities(m, SourcesOf(m, env));
    forall i, j | 0 <= i < j < |es| && SameImport(es[i], es[j]) :: Twice(es[i], es[j])
  }

  /** Only the names of the entities have changed. */
  lemma EntitiesNamed(m: Module, m': Module, env: Surroundings)
    requires env.Fits(m) && FuncNames(m') == NewFuncNames(m, env) && GlobalNames(m') == NewGlobalNames(m, env)
    requires forall i | 0 <= i < |m.funcs| :: |m'.funcs| == |m.funcs| && m'.funcs[i].sig == m.funcs[i].sig
    requires forall i | 0 <= i < |m.globals| :: |m'.globals| == |m.globals| && m'.globals[i].ty == m.globals[i].ty
    ensures |m'.funcs| == |m.funcs| && |m'.globals| == |m.globals|
    ensures var es, es' := Entities(m, SourcesOf(m, env)), Entities(m', SourcesOf(m, env));
            |es'| == |es| == |AllNames(m, env)|
            && forall k | 0 <= k < |es| :: es'[k] == es[k].(name := AllNames(m, env)[k])
  {
    hide NewFuncNames, NewGlobalNames, NewStorageNames, AllNames, Entities, StoragesOf;
    assert |FuncNames(m')| == |NewFuncNames(m, env)| && |GlobalNames(m')| == |NewGlobalNames(m, env)|;
    AllNamesAre(m, env);
    var s := SourcesOf(m, env);
    var es, es', all := Entities(m, s), Entities(m', s), AllNames(m, env);
    var a, b := |m.funcs|, |m.globals|;
    forall k | 0 <= k < |es| ensures es'[k] == es[k].(name := all[k]) {
      if k < a {
        assert all[k] == FuncNames(m')[k];
      } else if k < a + b {
        var l := k - a;
        assert all[a + l] == GlobalNames(m')[l] && es[a + l].name == m.globals[l].name
          && es'[a + l].name == m'.globals[l].name;
      } else {
        var l := k - a - b;
        assert all[a + b + l] == s.storage[l].name;
        assert es[a + b + l] == StorageEntity(s.storage[l]) && es'[a + b + l] == StorageEntity(s.storage[l]);
      }
    }
  }

  lemma AllNamesAre(m: Module, env: Surroundings)
    requires env.Fits(m)
    ensures var all, a, b := AllNames(m, env), |m.funcs|, |m.globals|;
            && |all| == a + b + |SourcesOf(m, env).storage|
            && (forall k | 0 <= k < a :: all[k] == NewFuncNames(m, env)[k])
            && (forall k | 0 <= k < b :: all[a + k] == NewGlobalNames(m, env)[k])
            && (forall k | 0 <= k < |SourcesOf(m, env).storage| :: all[a + b + k] == SourcesOf(m, env).storage[k].name)
  {
    hide NewFuncNames, NewGlobalNames, NewStorageNames;
  }

  /** The named module can be written, with every entity under a symbol of its own, if and only if no
      names are shared and imports with the same symbol are the same. */
  lemma WritableExactly(m: Module, m': Module, env: Surroundings)
    requires env.Fits(m) && SameModule(m, m') && ValidModule(m') && WritableModule(m')
    requires FuncNames(m') == NewFuncNames(m, env) && GlobalNames(m') == NewGlobalNames(m, env)
    requires forall i | 0 <= i < |m.globals| :: |m'.globals| == |m.globals| && m'.globals[i].ty == m.globals[i].ty
    requires forall i | 0 <= i < |m.funcs| ::
             |m'.funcs| == |m.funcs| && (LabelsApart(m'.funcs[i]) <==> GivenApart(m.funcs[i]))
    ensures WritableProgram(m', SourcesOf(m, env)) <==> NamesApart(m, env) && ImportsApart(m, env)
  {
    hide SameFunc, SameModule, LabelsApart, GivenApart, ValidModule, WritableModule, SameImport, NewFuncNames,
      NewGlobalNames, NewStorageNames,
      SourcesOf, AllNames;
    ModuleSize(m, m');
    SameSigs(m, m');
    EntitiesNamed(m, m', env);
    NameableExactly(m, m', env);
  }

  lemma NameableExactly(m: Module, m': Module, env: Surroundings)
    requires env.Fits(m) && |m'.funcs| == |m.funcs| && |m'.globals| == |m.globals|
    requires var es, es' := Entities(m, SourcesOf(m, env)), Entities(m', SourcesOf(m, env));
             |es'| == |es| == |AllNames(m, env)|
             && forall k | 0 <= k < |es| :: es'[k] == es[k].(name := AllNames(m, env)[k])
    ensures Nameable(Entities(m', SourcesOf(m, env))) <==> NoDuplicates(AllNames(m, env)) && ImportsApart(m, env)
  {
    hide Mangling.SameForm, AllNames, SourcesOf;
    var es, es', all := Entities(m, SourcesOf(m, env)), Entities(m', SourcesOf(m, env)), AllNames(m, env);
    forall i, j | 0 <= i < j < |es|
      ensures SameImport(es'[i], es'[j]) <==> SameImport(es[i], es[j])
      ensures Twice(es'[i], es'[j]) <==> Twice(es[i], es[j])
    {}
    if NoDuplicates(all) && ImportsApart(m, env) {
      forall i, j | 0 <= i < j < |es|
        ensures es'[i].name != es'[j].name && (SameImport(es'[i], es'[j]) ==> Twice(es'[i], es'[j]))
      {
        assert all[i] != all[j];
      }
    }
    if Nameable(es') {
      forall i, j | 0 <= i < j < |es| ensures all[i] != all[j] && (SameImport(es[i], es[j]) ==> Twice(es[i], es[j])) {
        assert es'[i].name != es'[j].name;
      }
    }
  }

  /** The entities under their new names. */
  function NamedEntities(m: Module, env: Surroundings): (es: seq<Entity>)
    requires env.Fits(m) && |AllNames(m, env)| == |Entities(m, SourcesOf(m, env))|
    ensures |es| == |AllNames(m, env)|
    ensures forall k | 0 <= k < |es| :: es[k] == Entities(m, SourcesOf(m, env))[k].(name := AllNames(m, env)[k])
  {
    var es := Entities(m, SourcesOf(m, env));
    seq(|es|, k requires 0 <= k < |es| => es[k].(name := AllNames(m, env)[k]))
  }

  /** As many names as entities. */
  lemma NamesCount(m: Module, env: Surroundings)
    requires env.Fits(m)
    ensures |AllNames(m, env)| == |Entities(m, SourcesOf(m, env))|
            == |m.funcs| + |m.globals| + |NewStorageNames(m, env)|
  {
    AllNamesAre(m, env);
  }

  /** What the program declares and exports, in terms of the module that was loaded: every import under
      its mangled symbol, everything else under an identifier derived from its new name. */
  ghost predicate Linkable(
    m: Module, env: Surroundings, q: CProg<string>, exports: seq<(string, string)>, reserved: set<string>)
    requires env.Fits(m) && |AllNames(m, env)| == |Entities(m, SourcesOf(m, env))|
  {
    var es, xs := NamedEntities(m, env), ExportsOf(m, env);
    && |es| == |Entities(m, SourcesOf(m, env))|
    && Declared(es, 0, |m.funcs|, q.fenv, reserved) && Declared(es, |m.funcs|, |m.globals|, q.genv, reserved)
    && (forall i | 0 <= i < |q.funcs| :: FuncIn(FreeIds(q, reserved), q.funcs[i]))
    && |exports| == |xs|
    && (forall k | 0 <= k < |xs| ::
          exports[k].0 == xs[k].Symbol(es) && ExportedAs(es, xs[k], exports[k].1, q, |m.funcs|, reserved))
  }

  /** A module as it was loaded, with its imports and exports, becomes a C program that runs exactly as
      it does, if the names it leads to are not shared and imports with the same symbol are the same.
      It is linked under the mangled symbols of its imports and exports. */
  method WasmToC(m: Module, env: Surroundings, reserved: set<string>)
    returns (q: CProg<string>, exports: seq<(string, string)>)
    requires ValidModule(m) && Loaded(m) && env.Fits(m) && NamesApart(m, env) && ImportsApart(m, env)
    ensures |q.funcs| == |m.funcs| && |AllNames(m, env)| == |Entities(m, SourcesOf(m, env))|
    ensures forall sem: Sem, i: nat, args: seq<nat>, world: World, fuel: nat
              | Linked(sem, m, SourcesOf(m, env)) && i < |m.funcs| && !m.funcs[i].imported
                && |args| == |m.funcs[i].sig.params| ::
              && RunC(sem, q, i, args, world, fuel) == RunFunc(sem, m, i, args, world, fuel)
              && !RunC(sem, q, i, args, world, fuel).out.Wrong?
    ensures Linkable(m, env, q, exports, reserved)
  {
    hide RunC, RunFunc, SameModule, ValidModule, WritableModule, Loaded, NamesApart, ImportsApart, WritableProgram,
      NewFuncNames, NewGlobalNames, NewStorageNames, LabelsApart, GivenApart, Linked, SourcesOf, ExportsOf, Entities,
      Mangling.ExportSymbol, Declared, ExportedAs, FuncIn, FreeIds, Linkable, AllNames, Twice;
    var named := NameModule(m, env);
    WritableExactly(m, named, env);
    var memories := NameEntities(env.memoryNames, env.memories.Outside(), "M");
    var tables := NameEntities(env.tableNames, env.tables.Outside(), "T");
    StorageNames(m, env, memories, tables);
    var storage := StoragesOf(memories + tables, env.memories.source + env.tables.source, |env.memoryNames|);
    var s := Sources(env.funcs.source, env.globals.source, storage);
    assert s == SourcesOf(m, env) by { SourcesAre(m, env, memories + tables); }
    ModuleSize(m, named);
    NamesCount(m, env);
    SameSigs(m, named);
    EntitiesNamed(m, named, env);
    assert NamedEntities(m, env) == Entities(named, s);
    var xs := ExportsOf(m, env);
    q, exports := WriteModule(named, s, xs, reserved);
    IsLinkable(m, env, named, s, q, exports, reserved);
    forall sem: Sem, i: nat, args: seq<nat>, world: World, fuel: nat
      | Linked(sem, m, SourcesOf(m, env)) && i < |m.funcs| && !m.funcs[i].imported && |args| == |m.funcs[i].sig.params|
      ensures RunC(sem, q, i, args, world, fuel) == RunFunc(sem, m, i, args, world, fuel)
      ensures !RunC(sem, q, i, args, world, fuel).out.Wrong?
    {
      LinkedNamed(sem, m, named, s);
      SameRunFunc(sem, m, named, i, args, world, fuel);
    }
  }

  lemma IsLinkable(
    m: Module, env: Surroundings, named: Module, s: Sources, q: CProg<string>, exports: seq<(string, string)>,
    reserved: set<string>)
    requires env.Fits(m) && |AllNames(m, env)| == |Entities(m, SourcesOf(m, env))|
    requires |named.funcs| == |m.funcs| == |s.funcs| && |named.globals| == |m.globals| == |s.globals|
    requires NamedEntities(m, env) == Entities(named, s)
    requires Declared(Entities(named, s), 0, |m.funcs|, q.fenv, reserved)
    requires Declared(Entities(named, s), |m.funcs|, |m.globals|, q.genv, reserved)
    requires forall i | 0 <= i < |q.funcs| :: FuncIn(FreeIds(q, reserved), q.funcs[i])
    requires |exports| == |ExportsOf(m, env)| && forall k | 0 <= k < |exports| ::
               && ExportsOf(m, env)[k].entity < |Entities(named, s)|
               && exports[k].0 == ExportsOf(m, env)[k].Symbol(Entities(named, s))
               && ExportedAs(Entities(named, s), ExportsOf(m, env)[k], exports[k].1, q, |m.funcs|, reserved)
    ensures Linkable(m, env, q, exports, reserved)
  {
    hide Declared, ExportedAs, FuncIn, FreeIds, ExportsOf, AllNames, Entities, SourcesOf, Mangling.ExportSymbol;
  }

  lemma SourcesAre(m: Module, env: Surroundings, names: seq<string>)
    requires env.Fits(m) && names == NewStorageNames(m, env)
    ensures SourcesOf(m, env)
         == Sources(env.funcs.source, env.globals.source,
                    StoragesOf(names, env.memories.source + env.tables.source, |env.memoryNames|))
  {}

  lemma SameSigs(m: Module, m': Module)
    requires SameModule(m, m') && |m'.funcs| == |m.funcs|
    ensures forall i | 0 <= i < |m.funcs| ::
            m'.funcs[i].sig == m.funcs[i].sig && m'.funcs[i].imported == m.funcs[i].imported
  {
    hide SameModule, SameFunc;
    forall i | 0 <= i < |m.funcs|
      ensures m'.funcs[i].sig == m.funcs[i].sig && m'.funcs[i].imported == m.funcs[i].imported
    {
      ModuleFunc(m, m', i);
      SameSig(m, m', m.funcs[i], m'.funcs[i]);
    }
  }

  lemma LinkedNamed(sem: Sem, m: Module, m': Module, s: Sources)
    requires |s.funcs| == |m.funcs| == |m'.funcs| && |s.globals| == |m.globals| == |m'.globals|
    requires forall i | 0 <= i < |m.funcs| :: m'.funcs[i].sig == m.funcs[i].sig
    requires forall i | 0 <= i < |m.globals| :: m'.globals[i].ty == m.globals[i].ty
    requires Linked(sem, m, s)
    ensures Linked(sem, m', s)
  {
    hide SameHost;
  }

  lemma StorageNames(m: Module, env: Surroundings, memories: seq<string>, tables: seq<string>)
    requires env.Fits(m) && memories == KindNames(env.memoryNames, env.memories.Outside(), "M")
    requires tables == KindNames(env.tableNames, env.tables.Outside(), "T")
    ensures memories + tables == NewStorageNames(m, env)
  {}
}

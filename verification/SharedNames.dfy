/** When the names GenerateNames invents can be shared by things of different kinds, which the C
    writer keeps in one map (src/generate-names.cc, src/c-writer.cc). */
module SharedNames {
  import opened Util
  import opened Wasm
  import opened CCompile
  import opened Decimals
  import opened GenerateNames
  import opened Pipeline
  import CModule
  import Mangling

  // ----- where a name comes from -----

  /** `name` is `base`, perhaps with a disambiguator. */
  ghost predicate Stem(name: string, base: string) {
    name == base || exists k: nat :: k > 0 && name == base + "_" + Decimal(k)
  }

  /** The names of a kind start from given names, outside names and numbers. */
  ghost predicate IsBase(names: seq<string>, outside: seq<(nat, string)>, prefix: string, b: string) {
    || (b in names && b != "")
    || (exists k :: 0 <= k < |outside| && b == "$" + CString(outside[k].1))
    || (exists i: nat :: i < |names| && b == "$" + prefix + Decimal(i))
  }

  lemma {:induction false} FirstFreeStem(taken: set<string>, prefix: string, index: Option<nat>, d: nat)
    ensures Stem(FirstFree(taken, prefix, index, d), "$" + prefix + IndexText(index))
    decreases |taken| - d
  {
    hide IndexText, Decimal;
    var base, name := "$" + prefix + IndexText(index), GeneratedName(prefix, index, d);
    if d == 0 {
      assert name == base + "" == base;
    } else {
      assert name == base + "_" + Decimal(d);
    }
    if name in taken && d < |taken| { FirstFreeStem(taken, prefix, index, d + 1); }
  }

  ghost predicate FromBases(names: seq<string>, outside: seq<(nat, string)>, prefix: string, r: seq<string>) {
    |r| == |names| && forall i | 0 <= i < |r| :: r[i] == "" || exists b ::
      IsBase(names, outside, prefix, b) && Stem(r[i], b)
  }

  lemma BoundFrom(
    names: seq<string>, outside: seq<(nat, string)>, prefix: string, r: seq<string>, p: string, index: Option<nat>,
    i: nat)
    requires FromBases(names, outside, prefix, r) && i < |r|
             && IsBase(names, outside, prefix, "$" + p + IndexText(index))
    ensures FromBases(names, outside, prefix, Bound(r, p, index, i))
  {
    hide FirstFree, Stem, IsBase;
    FirstFreeStem(Taken(r), p, index, 0);
  }

  lemma {:induction false} OutsideFrom(names: seq<string>, outside: seq<(nat, string)>, prefix: string, n: nat)
    requires Within(outside, |names|) && n <= |outside|
    ensures Within(outside[..n], |names|) && FromBases(names, outside, prefix, OutsideUsed(names, outside[..n]))
    decreases n
  {
    hide Stem, Bound, IsBase, CString;
    if n == 0 {
      GivenFrom(names, outside, prefix);
    } else {
      OutsideFrom(names, outside, prefix, n - 1);
      assert outside[..n][..n - 1] == outside[..n - 1];
      OutsideBase(names, outside, prefix, n - 1);
      BoundFrom(names, outside, prefix, OutsideUsed(names, outside[..n - 1]), CString(outside[n - 1].1), None,
        outside[n - 1].0);
    }
  }

  lemma GivenFrom(names: seq<string>, outside: seq<(nat, string)>, prefix: string)
    ensures FromBases(names, outside, prefix, names)
  {
    forall i | 0 <= i < |names| && names[i] != ""
      ensures IsBase(names, outside, prefix, names[i]) && Stem(names[i], names[i])
    {}
  }

  lemma OutsideBase(names: seq<string>, outside: seq<(nat, string)>, prefix: string, k: nat)
    requires k < |outside|
    ensures IsBase(names, outside, prefix, "$" + CString(outside[k].1) + IndexText(None))
  {
    hide CString;
    assert "$" + CString(outside[k].1) + "" == "$" + CString(outside[k].1);
  }

  lemma {:induction false} InventedFrom(
    names: seq<string>, outside: seq<(nat, string)>, prefix: string, r: seq<string>, end: nat)
    requires FromBases(names, outside, prefix, r) && end <= |names|
    ensures FromBases(names, outside, prefix, NamesInvented(r, prefix, 0, end))
    decreases end
  {
    hide Stem, Bound;
    if end > 0 {
      InventedFrom(names, outside, prefix, r, end - 1);
      assert IsBase(names, outside, prefix, "$" + prefix + IndexText(Some(end - 1)));
      BoundFrom(names, outside, prefix, NamesInvented(r, prefix, 0, end - 1), prefix, Some(end - 1), end - 1);
    }
  }

  lemma KindNamesFrom(names: seq<string>, outside: seq<(nat, string)>, prefix: string)
    requires Within(outside, |names|)
    ensures FromBases(names, outside, prefix, KindNames(names, outside, prefix))
  {
    hide FromBases, OutsideUsed, NamesInvented;
    OutsideFrom(names, outside, prefix, |outside|);
    assert outside[..|outside|] == outside;
    InventedFrom(names, outside, prefix, OutsideUsed(names, outside), |names|);
  }

  // ----- names of one kind -----

  /** A free name is found among one more candidates than names are taken. */
  lemma {:induction false} FirstFreeIsFree(
    taken: set<string>, prefix: string, index: Option<nat>, d: nat, tried: set<string>)
    requires tried <= taken && |tried| == d
    requires forall s | s in tried :: exists c: nat :: c < d && s == GeneratedName(prefix, index, c)
    ensures FirstFree(taken, prefix, index, d) !in taken
    decreases |taken| - d
  {
    hide GeneratedName;
    var name := GeneratedName(prefix, index, d);
    if name in taken {
      if name in tried {
        var c: nat :| c < d && name == GeneratedName(prefix, index, c);
        DisambiguatorInjective(prefix, index, c, d);
        assert false;
      }
      SubsetSize(tried, taken);
      FirstFreeIsFree(taken, prefix, index, d + 1, tried + {name});
    }
  }

  lemma BoundDistinct(names: seq<string>, prefix: string, index: Option<nat>, i: nat)
    requires NamedOnce(names) && i < |names|
    ensures var r := Bound(names, prefix, index, i);
            NamedOnce(r) && r[i] != "" && forall k | 0 <= k < |r| && names[k] != "" :: r[k] == names[k]
  {
    hide FirstFree;
    FirstFreeIsFree(Taken(names), prefix, index, 0, {});
    FirstFreeProper(Taken(names), prefix, index, 0);
  }

  lemma {:induction false} OutsideDistinct(names: seq<string>, outside: seq<(nat, string)>)
    requires NamedOnce(names) && Within(outside, |names|)
    ensures NamedOnce(OutsideUsed(names, outside))
    decreases |outside|
  {
    hide Bound, NamedOnce;
    if outside != [] {
      var init := outside[..|outside| - 1];
      OutsideDistinct(names, init);
      BoundDistinct(OutsideUsed(names, init), CString(outside[|outside| - 1].1), None, outside[|outside| - 1].0);
    }
  }

  lemma {:induction false} InventedDistinct(names: seq<string>, prefix: string, end: nat)
    requires NamedOnce(names) && end <= |names|
    ensures var r := NamesInvented(names, prefix, 0, end); NamedOnce(r) && forall k | 0 <= k < end :: r[k] != ""
    decreases end
  {
    hide Bound, NamedOnce;
    if end > 0 {
      InventedDistinct(names, prefix, end - 1);
      BoundDistinct(NamesInvented(names, prefix, 0, end - 1), prefix, Some(end - 1), end - 1);
    }
  }

  /** Within a kind all names differ. */
  lemma KindDistinct(names: seq<string>, outside: seq<(nat, string)>, prefix: string)
    requires NamedOnce(names) && Within(outside, |names|)
    ensures NoDuplicates(KindNames(names, outside, prefix)) && "" !in KindNames(names, outside, prefix)
  {
    OutsideDistinct(names, outside);
    InventedDistinct(OutsideUsed(names, outside), prefix, |names|);
  }

  // ----- names of two kinds -----

  lemma {:induction false} DigitsOnly(k: nat)
    ensures '_' !in Decimal(k)
  {
    if k >= 10 { DigitsOnly(k / 10); }
  }

  lemma LastCut(a: string, b: string, x: string, y: string)
    requires a + "_" + x == b + "_" + y && '_' !in x && '_' !in y
    ensures a == b
  {
    var s, t := a + "_" + x, b + "_" + y;
    assert s[|a|] == '_' && t[|b|] == '_';
    assert forall i | |a| < i < |s| :: s[i] == x[i - |a| - 1];
    assert forall i | |b| < i < |t| :: t[i] == y[i - |b| - 1];
    assert a == s[..|a|] && b == t[..|b|];
  }

  /** Two bases can lead to the same name exactly if they are equal or one is the other with a
      disambiguator. */
  lemma CommonName(a: string, b: string)
    ensures (exists n :: Stem(n, a) && Stem(n, b)) <==> Stem(a, b) || Stem(b, a)
  {
    if n :| Stem(n, a) && Stem(n, b) && n != a && n != b {
      var k: nat :| k > 0 && n == a + "_" + Decimal(k);
      var l: nat :| l > 0 && n == b + "_" + Decimal(l);
      DigitsOnly(k);
      DigitsOnly(l);
      LastCut(a, b, Decimal(k), Decimal(l));
    }
    assert Stem(a, a) && Stem(b, b);
  }

  /** No name of one kind can be shared with the other: something a caller can see from the given names
      and the outside names. */
  ghost predicate BasesApart(names: seq<string>, outside: seq<(nat, string)>, p: string,
                             others: seq<string>, outside': seq<(nat, string)>, q: string) {
    forall a, b | IsBase(names, outside, p, a) && IsBase(others, outside', q, b) :: !Stem(a, b) && !Stem(b, a)
  }

  lemma KindsApart(names: seq<string>, outside: seq<(nat, string)>, p: string,
                   others: seq<string>, outside': seq<(nat, string)>, q: string)
    requires NamedOnce(names) && Within(outside, |names|) && NamedOnce(others) && Within(outside', |others|)
    requires BasesApart(names, outside, p, others, outside', q)
    ensures forall n, k | n in KindNames(names, outside, p) && k in KindNames(others, outside', q) :: n != k
  {
    hide IsBase, Stem, KindNames;
    KindNamesFrom(names, outside, p);
    KindNamesFrom(others, outside', q);
    KindDistinct(names, outside, p);
    KindDistinct(others, outside', q);
    forall n, k | n in KindNames(names, outside, p) && k in KindNames(others, outside', q) ensures n != k {
      var a :| IsBase(names, outside, p, a) && Stem(n, a);
      var b :| IsBase(others, outside', q, b) && Stem(k, b);
      CommonName(a, b);
    }
  }

  /** The same for all four kinds of a module. */
  ghost predicate AllBasesApart(m: Module, env: Surroundings)
    requires env.Fits(m)
  {
    var f, g := env.funcs.Outside(), env.globals.Outside();
    var mem, tab := env.memories.Outside(), env.tables.Outside();
    && BasesApart(FuncNames(m), f, "f", GlobalNames(m), g, "g")
    && BasesApart(FuncNames(m), f, "f", env.memoryNames, mem, "M")
    && BasesApart(FuncNames(m), f, "f", env.tableNames, tab, "T")
    && BasesApart(GlobalNames(m), g, "g", env.memoryNames, mem, "M")
    && BasesApart(GlobalNames(m), g, "g", env.tableNames, tab, "T")
    && BasesApart(env.memoryNames, mem, "M", env.tableNames, tab, "T")
  }

  /** Then no global name is shared. */
  lemma NothingShared(m: Module, env: Surroundings)
    requires Loaded(m) && env.Fits(m) && AllBasesApart(m, env)
    ensures NoDuplicates(AllNames(m, env))
  {
    hide BasesApart, KindNames, LoadedFunc, ImportNames;
    var f, g := env.funcs.Outside(), env.globals.Outside();
    var mem, tab := env.memories.Outside(), env.tables.Outside();
    KindDistinct(FuncNames(m), f, "f");
    KindDistinct(GlobalNames(m), g, "g");
    KindDistinct(env.memoryNames, mem, "M");
    KindDistinct(env.tableNames, tab, "T");
    KindsApart(FuncNames(m), f, "f", GlobalNames(m), g, "g");
    KindsApart(FuncNames(m), f, "f", env.memoryNames, mem, "M");
    KindsApart(FuncNames(m), f, "f", env.tableNames, tab, "T");
    KindsApart(GlobalNames(m), g, "g", env.memoryNames, mem, "M");
    KindsApart(GlobalNames(m), g, "g", env.tableNames, tab, "T");
    KindsApart(env.memoryNames, mem, "M", env.tableNames, tab, "T");
    var a, b, c, d := NewFuncNames(m, env), NewGlobalNames(m, env),
      KindNames(env.memoryNames, mem, "M"), KindNames(env.tableNames, tab, "T");
    Joined(a, b);
    Joined(c, d);
    assert forall n, k | n in a + b && k in c + d :: n != k;
    Joined(a + b, c + d);
    assert AllNames(m, env) == (a + b) + (c + d);
  }

  lemma Joined(a: seq<string>, b: seq<string>)
    requires NoDuplicates(a) && NoDuplicates(b) && forall n, k | n in a && k in b :: n != k
    ensures NoDuplicates(a + b)
  {
    forall i, j | 0 <= i < j < |a + b| ensures (a + b)[i] != (a + b)[j] {
      if i < |a| <= j { assert a[i] in a && b[j - |a|] in b; }
    }
  }

  /** A module without any names, imports and exports, and with unnamed locals. */
  predicate Anonymous(m: Module, env: Surroundings) {
    && env.Fits(m)
    && (forall n | n in FuncNames(m) + GlobalNames(m) + env.memoryNames + env.tableNames :: n == "")
    && (forall i | 0 <= i < |m.funcs| :: forall n | n in m.funcs[i].localNames :: n == "")
    && env.funcs.Outside() == env.globals.Outside() == env.memories.Outside() == env.tables.Outside() == []
  }

  lemma NumbersApart(names: seq<string>, p: char, others: seq<string>, q: char)
    requires (forall n | n in names + others :: n == "") && p != q
    ensures BasesApart(names, [], [p], others, [], [q])
  {
    forall a, b | IsBase(names, [], [p], a) && IsBase(others, [], [q], b) ensures !Stem(a, b) && !Stem(b, a) {
      assert forall n | n in names :: n in names + others;
      assert forall n | n in others :: n in names + others;
      assert a[1] == p && b[1] == q;
    }
  }

  /** Such a module shares no names, and is written to C without any further condition. */
  lemma AnonymousApart(m: Module, env: Surroundings)
    requires Loaded(m) && Anonymous(m, env)
    ensures NamesApart(m, env)
  {
    hide BasesApart, LoadedFunc, AllNames;
    var f, g, mem, tab := FuncNames(m), GlobalNames(m), env.memoryNames, env.tableNames;
    assert forall n | n in f || n in g || n in mem || n in tab :: n in f + g + mem + tab;
    NumbersApart(f, 'f', g, 'g');
    NumbersApart(f, 'f', mem, 'M');
    NumbersApart(f, 'f', tab, 'T');
    NumbersApart(g, 'g', mem, 'M');
    NumbersApart(g, 'g', tab, 'T');
    NumbersApart(mem, 'M', tab, 'T');
    NothingShared(m, env);
  }

  // ----- a shared name -----

  function OuterName(s: CModule.ImportName): string { s.moduleName + "." + s.field }

  /** What a function and a global are called that are the only ones of their module, and imported. */
  lemma ImportedNames(m: Module, env: Surroundings, a: CModule.ImportName, b: CModule.ImportName)
    requires env.Fits(m) && FuncNames(m) == [""] && GlobalNames(m) == [""]
    requires env.funcs == Links([Some(a)], []) && env.globals == Links([Some(b)], [])
    ensures NewFuncNames(m, env) == ["$" + CString(OuterName(a))]
    ensures NewGlobalNames(m, env) == ["$" + CString(OuterName(b))]
    ensures CString(OuterName(a)) == CString(OuterName(b)) ==> !NamesApart(m, env)
  {
    hide CString, KindNames, NewStorageNames, GivenApart;
    var none: seq<Option<CModule.ImportName>> := [];
    assert [Some(a)][..0] == none && [Some(b)][..0] == none;
    assert ImportNames([Some(a)]) == [(0, OuterName(a))] && ImportNames([Some(b)]) == [(0, OuterName(b))];
    assert env.funcs.Outside() == [(0, OuterName(a))] && env.globals.Outside() == [(0, OuterName(b))];
    ImportedName("f", OuterName(a));
    ImportedName("g", OuterName(b));
    var all := AllNames(m, env);
    assert all[0] == "$" + CString(OuterName(a)) && all[1] == "$" + CString(OuterName(b));
  }

  lemma ImportedName(prefix: string, name: string)
    ensures KindNames([""], [(0, name)], prefix) == ["$" + CString(name)]
  {
    hide CString;
    var outside: seq<(nat, string)> := [(0, name)];
    var s := "$" + CString(name);
    assert outside[..0] == [];
    assert GeneratedName(CString(name), None, 0) == s;
    assert Taken([""]) == {};
    assert FirstFree({}, CString(name), None, 0) == s;
    assert OutsideUsed([""], outside) == Bound([""], CString(name), None, 0) == [s];
    assert NamesInvented([s], prefix, 0, 0) == [s];
    assert NamesInvented([s], prefix, 0, 1) == Bound([s], prefix, Some(0), 0);
  }

  /** A function and a global that are imported from the same place get the same name, in two tables;
      the C writer has one map, where the name of the global then stands for the function
      (CModule.SharedName). */
  lemma SharedByImports(m: Module, env: Surroundings)
    requires env.Fits(m) && FuncNames(m) == [""] && GlobalNames(m) == [""]
    requires env.funcs == env.globals == Links([Some(CModule.ImportName("a", "b"))], [])
    ensures NewFuncNames(m, env) == NewGlobalNames(m, env) == ["$a.b"] && !NamesApart(m, env)
  {
    hide KindNames, NamesApart;
    var source := CModule.ImportName("a", "b");
    assert OuterName(source) == "a.b" && CString("a.b") == "a.b";
    assert "$" + "a.b" == "$a.b";
    ImportedNames(m, env, source, source);
  }

  /** So do two that are imported from different places whose names are the same up to a NUL. */
  lemma SharedByNul(m: Module, env: Surroundings)
    requires env.Fits(m) && FuncNames(m) == [""] && GlobalNames(m) == [""]
    requires env.funcs == Links([Some(CModule.ImportName("a\0x", "b"))], [])
    requires env.globals == Links([Some(CModule.ImportName("a\0y", "b"))], [])
    ensures NewFuncNames(m, env) == NewGlobalNames(m, env) == ["$a"] && !NamesApart(m, env)
  {
    hide KindNames, NamesApart;
    assert "$" + "a" == "$a";
    var a, b := CModule.ImportName("a\0x", "b"), CModule.ImportName("a\0y", "b");
    assert OuterName(a) == "a\0x.b" && CString("a\0x.b") == "a";
    assert OuterName(b) == "a\0y.b" && CString("a\0y.b") == "a";
    ImportedNames(m, env, a, b);
  }
}

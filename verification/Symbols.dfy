/** Decimal numerals, as std::to_string writes them. */
module Decimals {
  function Digit(d: nat): (c: char)
    requires d < 10
    ensures '0' <= c <= '9'
  {
    '0' + d as char
  }

  function Decimal(n: nat): (s: string)
    ensures s != []
    ensures forall c | c in s :: '0' <= c <= '9'
  {
    if n < 10 then [Digit(n)] else Decimal(n / 10) + [Digit(n % 10)]
  }

  /** Different numbers have different numerals. */
  lemma {:induction false} DecimalInjective(m: nat, n: nat)
    requires Decimal(m) == Decimal(n)
    ensures m == n
    decreases m
  {
    var a, b := Decimal(m), Decimal(n);
    assert a[|a| - 1] == b[|b| - 1];
    assert m % 10 == n % 10;
    if m >= 10 && n >= 10 {
      assert a[..|a| - 1] == Decimal(m / 10) && b[..|b| - 1] == Decimal(n / 10);
      DecimalInjective(m / 10, n / 10);
    }
  }
}

/** How the C writer chooses identifiers (LegalizeName, DefineName). */
module Symbols {
  import opened Decimals

  predicate IsAlpha(c: char) { 'a' <= c <= 'z' || 'A' <= c <= 'Z' }
  predicate IsAlnum(c: char) { IsAlpha(c) || '0' <= c <= '9' }

  predicate IsIdentifier(s: string) {
    && s != []
    && (IsAlpha(s[0]) || s[0] == '_')
    && forall i | 0 <= i < |s| :: IsAlnum(s[i]) || s[i] == '_'
  }

  function LegalChar(name: string, i: nat): char
    requires i < |name|
  {
    if (if i == 0 then IsAlpha(name[0]) else IsAlnum(name[i])) then name[i] else '_'
  }

  function Legalized(name: string): (s: string)
    ensures IsIdentifier(s)
  {
    if name == [] then "_" else seq(|name|, i requires 0 <= i < |name| => LegalChar(name, i))
  }

  method LegalizeName(name: string) returns (result: string)
    ensures result == Legalized(name)
  {
    if name == [] {
      return "_";
    }
    result := [if IsAlpha(name[0]) then name[0] else '_'];
    var i := 1;
    while i < |name|
      invariant 1 <= i <= |name|
      invariant result == Legalized(name)[..i]
    {
      result := result + [if IsAlnum(name[i]) then name[i] else '_'];
      i := i + 1;
    }
  }

  /** Candidate number `c` for a name whose legal form `base` is taken. */
  function Candidate(base: string, c: nat): string { base + "_" + Decimal(c) }

  /** The identifier chosen for a name: its legal form, or the first candidate, that is not taken. */
  ghost predicate Chosen(taken: set<string>, name: string, unique: string) {
    var legal := Legalized(name);
    if legal !in taken then unique == legal
    else exists c: nat :: unique == Candidate(legal, c) && forall j: nat | j < c :: Candidate(legal, j) in taken
  }

  /** The name without the dollar sign that names of the text format start with. */
  function Stripped(name: string): string { if name != [] && name[0] == '$' then name[1..] else name }

  /** One dollar sign is taken away, if there is one. */
  lemma StrippedExactly(name: string, rest: string)
    ensures Stripped(name) == rest <==> name == "$" + rest || (name == rest && !("$" <= name))
  {
    if Stripped(name) == rest && name != rest { assert name == [name[0]] + rest; }
    if name == "$" + rest { assert name[1..] == rest; }
  }

  /** `id` is the legal form of `text`, perhaps with a number. */
  ghost predicate Derived(text: string, id: string) {
    var legal := Legalized(text);
    id == legal || exists c: nat :: id == Candidate(legal, c)
  }

  /** What is chosen for a name is derived from it, an identifier, and not taken. */
  lemma ChosenDerived(taken: set<string>, text: string, unique: string)
    requires Chosen(taken, text, unique)
    ensures Derived(text, unique)
  {}

  lemma DerivedIdentifier(text: string, id: string)
    requires Derived(text, id)
    ensures IsIdentifier(id)
  {
    hide IsIdentifier, Candidate;
    var legal := Legalized(text);
    if id != legal {
      var c: nat :| id == Candidate(legal, c);
      CandidateIdentifier(legal, c);
    }
  }

  lemma CandidateInjective(base: string, b: nat, c: nat)
    requires Candidate(base, b) == Candidate(base, c)
    ensures b == c
  {
    var n := |base| + 1;
    assert Candidate(base, b)[n..] == Decimal(b) && Candidate(base, c)[n..] == Decimal(c);
    DecimalInjective(b, c);
  }

  lemma CandidateIdentifier(base: string, c: nat)
    requires IsIdentifier(base)
    ensures IsIdentifier(Candidate(base, c))
  {
    var s := Candidate(base, c);
    forall i | 0 <= i < |s| ensures IsAlnum(s[i]) || s[i] == '_' {
      if i > |base| { assert s[i] == Decimal(c)[i - |base| - 1]; assert s[i] in Decimal(c); }
    }
  }

  /** DefineName.  The search for an unused candidate ends because the candidates tried so far are
      pairwise different and all in the finite set. */
  method DefineName(taken: set<string>, name: string) returns (unique: string, taken': set<string>)
    ensures unique !in taken && taken' == taken + {unique}
    ensures Chosen(taken, name, unique)
    ensures IsIdentifier(unique)
  {
    hide IsIdentifier, Decimal;
    var legal := LegalizeName(name);
    unique := legal;
    if legal in taken {
      var base := legal + "_";
      var count := 0;
      ghost var tried: set<string> := {};
      unique := base + Decimal(count);
      while unique in taken
        invariant unique == Candidate(legal, count)
        invariant forall j: nat | j < count :: Candidate(legal, j) in tried
        invariant forall s | s in tried :: exists j: nat :: j < count && s == Candidate(legal, j)
        invariant tried <= taken && |tried| == count
        decreases |taken - tried|
      {
        if unique in tried {
          var j: nat :| j < count && unique == Candidate(legal, j);
          CandidateInjective(legal, j, count);
          assert false;
        }
        assert taken - (tried + {unique}) < taken - tried;
        tried := tried + {unique};
        count := count + 1;
        unique := base + Decimal(count);
      }
      CandidateIdentifier(legal, count);
    }
    taken' := taken + {unique};
  }

  /** The names the binary reader tries: the one in the file, then with a counter behind a dot. */
  function Dotted(name: string, c: nat): string { if c == 0 then name else name + "." + Decimal(c) }

  lemma DottedInjective(name: string, b: nat, c: nat)
    requires Dotted(name, b) == Dotted(name, c)
    ensures b == c
  {
    hide Decimal;
    var n := |name| + 1;
    if b > 0 { assert Dotted(name, b)[n..] == Decimal(b); }
    if c > 0 { assert Dotted(name, c)[n..] == Decimal(c); }
    if b > 0 && c > 0 { DecimalInjective(b, c); }
  }

  /** GetUniqueName of the binary reader. */
  method GetUniqueName(bindings: set<string>, name: string) returns (unique: string)
    ensures unique !in bindings
    ensures exists c: nat :: unique == Dotted(name, c) && forall j: nat | j < c :: Dotted(name, j) in bindings
  {
    hide Decimal, Dotted;
    var counter := 1;
    unique := name;
    FirstDotted(name);
    ghost var tried: set<string> := {};
    while unique in bindings
      invariant counter >= 1 && unique == Dotted(name, counter - 1)
      invariant forall j: nat | j < counter - 1 :: Dotted(name, j) in tried
      invariant forall s | s in tried :: exists j: nat :: j < counter - 1 && s == Dotted(name, j)
      invariant tried <= bindings
      decreases |bindings - tried|
    {
      if unique in tried {
        var j: nat :| j < counter - 1 && unique == Dotted(name, j);
        DottedInjective(name, j, counter - 1);
        assert false;
      }
      assert bindings - (tried + {unique}) < bindings - tried;
      tried := tried + {unique};
      NextDotted(name, counter);
      unique := name + "." + Decimal(counter);
      counter := counter + 1;
    }
  }

  lemma FirstDotted(name: string)
    ensures Dotted(name, 0) == name
  {}

  lemma NextDotted(name: string, c: nat)
    requires c > 0
    ensures Dotted(name, c) == name + "." + Decimal(c)
  {}
}

/** Name mangling of the C writer (MangleName and its callers).

    An escape is 'Z' followed by two upper-case hexadecimal digits, and a name starts with "Z_"; an
    underscore is not a hexadecimal digit, so the parts of a mangled symbol can be told apart. */
module Mangling {
  import opened Wasm
  import opened Symbols

  /** One byte of a name.  Names are byte strings; beyond ASCII `isalnum` depends on the locale. */
  type Ascii = c: char | c < 128 as char witness 'a'
  type AsciiString = seq<Ascii>

  function HexDigit(d: nat): (c: char)
    requires d < 16
    ensures c in "0123456789ABCDEF"
  {
    if d < 10 then '0' + d as char else 'A' + (d - 10) as char
  }

  predicate IsPlain(c: char) { (IsAlnum(c) && c != 'Z') || c == '_' }

  function Escape(c: Ascii): (s: string)
    ensures s != []
  {
    if IsPlain(c) then [c] else ['Z', HexDigit(c as nat / 16), HexDigit(c as nat % 16)]
  }

  function EscapeAll(name: AsciiString): string {
    if name == [] then "" else Escape(name[0]) + EscapeAll(name[1..])
  }

  function Mangled(name: AsciiString): string {
    "Z_" + EscapeAll(name)
  }

  method MangleName(name: AsciiString) returns (result: string)
    ensures result == Mangled(name)
  {
    result := "Z_";
    for i := 0 to |name|
      invariant Mangled(name) == result + EscapeAll(name[i..])
    {
      ghost var before := result;
      var c := name[i];
      if IsPlain(c) {
        result := result + [c];
      } else {
        result := result + ['Z'] + [HexDigit(c as nat / 16), HexDigit(c as nat % 16)];
      }
      assert result == before + Escape(c);
      EscapeCons(name[i..], "");
      assert name[i..][1..] == name[i + 1..];
      Associate(before, Escape(c), EscapeAll(name[i + 1..]));
    }
  }

  lemma Associate(a: string, b: string, c: string)
    ensures (a + b) + c == a + (b + c)
  {}

  lemma EscapeCons(a: AsciiString, x: string)
    requires a != []
    ensures EscapeAll(a) + x == Escape(a[0]) + (EscapeAll(a[1..]) + x)
    ensures EscapeAll(a) == Escape(a[0]) + EscapeAll(a[1..])
  {
    Associate(Escape(a[0]), EscapeAll(a[1..]), x);
  }

  function MangleType(t: ValType): Ascii {
    match t case I32 => 'i' case I64 => 'j' case F32 => 'f' case F64 => 'd'
  }

  function MangleTypes(ts: seq<ValType>): AsciiString {
    if ts == [] then "v" else seq(|ts|, i requires 0 <= i < |ts| => MangleType(ts[i]))
  }

  datatype StorageKind = MemoryKind | TableKind

  /** What an import or export is. */
  datatype Item = FuncItem(sig: FuncSig) | GlobalItem(ty: ValType) | StorageItem(kind: StorageKind)

  function Signature(item: Item): AsciiString {
    match item
    case FuncItem(sig) => MangleTypes(sig.results) + MangleTypes(sig.params)
    case GlobalItem(ty) => [MangleType(ty)]
    case StorageItem(_) => ""
  }

  /** The symbol of an imported item: MangleName of the module, then MangleFuncName,
      MangleGlobalName or MangleName of the field. */
  function ImportSymbol(moduleName: AsciiString, field: AsciiString, item: Item): string {
    Mangled(moduleName) + (Mangled(field) + SignaturePart(item))
  }

  function SignaturePart(item: Item): (s: string)
    ensures Stops(s)
  {
    if item.StorageItem? then "" else Mangled(Signature(item))
  }

  // ----- unique reading -----

  /** Where the escaped text of a name stops: at the end or at a "Z_". */
  predicate Stops(rest: string) {
    rest == "" || (|rest| >= 2 && rest[0] == 'Z' && rest[1] == '_')
  }

  lemma HexInjective(a: Ascii, b: Ascii)
    requires HexDigit(a as nat / 16) == HexDigit(b as nat / 16) && HexDigit(a as nat % 16) == HexDigit(b as nat % 16)
    ensures a == b
  {
    assert forall d: nat, e: nat | d < 16 && e < 16 && HexDigit(d) == HexDigit(e) :: d == e;
  }

  lemma EscapeNotStop(c: Ascii, rest: string)
    ensures !Stops(Escape(c) + rest)
  {
    if !IsPlain(c) { assert (Escape(c) + rest)[1] == HexDigit(c as nat / 16); }
  }

  lemma EscapePrefixFree(c: Ascii, d: Ascii, x: string, y: string)
    requires Escape(c) + x == Escape(d) + y
    ensures c == d && x == y
  {
    var s, t := Escape(c) + x, Escape(d) + y;
    assert s[0] == t[0];
    if IsPlain(c) {
      assert x == s[1..] && y == t[1..];
    } else {
      assert !IsPlain(d);
      assert s[1] == t[1] && s[2] == t[2];
      HexInjective(c, d);
      assert x == s[3..] && y == t[3..];
    }
  }

  /** Escaped text followed by a stop determines the name and what follows. */
  lemma {:induction false} EscapeReadsBack(a: AsciiString, b: AsciiString, x: string, y: string)
    requires Stops(x) && Stops(y) && EscapeAll(a) + x == EscapeAll(b) + y
    ensures a == b && x == y
  {
    hide Escape;
    if a == [] && b == [] {
      assert "" + x == x && "" + y == y;
    } else if a == [] {
      assert "" + x == x;
      EscapeCons(b, y);
      EscapeNotStop(b[0], EscapeAll(b[1..]) + y);
    } else if b == [] {
      assert "" + y == y;
      EscapeCons(a, x);
      EscapeNotStop(a[0], EscapeAll(a[1..]) + x);
    } else {
      EscapeCons(a, x);
      EscapeCons(b, y);
      EscapePrefixFree(a[0], b[0], EscapeAll(a[1..]) + x, EscapeAll(b[1..]) + y);
      EscapeReadsBack(a[1..], b[1..], x, y);
      assert a == [a[0]] + a[1..] && b == [b[0]] + b[1..];
    }
  }

  /** A mangled name followed by a stop determines the name and what follows. */
  lemma MangledReadsBack(a: AsciiString, b: AsciiString, x: string, y: string)
    requires Stops(x) && Stops(y) && Mangled(a) + x == Mangled(b) + y
    ensures a == b && x == y
  {
    hide EscapeAll;
    Associate("Z_", EscapeAll(a), x);
    Associate("Z_", EscapeAll(b), y);
    assert ("Z_" + (EscapeAll(a) + x))[2..] == EscapeAll(a) + x;
    assert ("Z_" + (EscapeAll(b) + y))[2..] == EscapeAll(b) + y;
    EscapeReadsBack(a, b, x, y);
  }

  lemma TypesReadBack(a: seq<ValType>, b: seq<ValType>)
    requires MangleTypes(a) == MangleTypes(b)
    ensures a == b
  {
    var s, t := MangleTypes(a), MangleTypes(b);
    assert s[0] == t[0];
    if a != [] && b != [] {
      assert |a| == |b|;
      forall i | 0 <= i < |a| ensures a[i] == b[i] {
        assert s[i] == t[i];
      }
    }
  }

  /** A signature whose letters can be divided differently: the last results of one are the first
      parameters of the other. */
  predicate Clashes(a: FuncSig, b: FuncSig) {
    && a != b && a.results + a.params == b.results + b.params
    && a.results != [] && a.params != [] && b.results != [] && b.params != []
  }

  /** Items whose symbols have the same ending: equal ones, clashing signatures, a memory and a table. */
  predicate SameForm(a: Item, b: Item) {
    a == b || (a.FuncItem? && b.FuncItem? && Clashes(a.sig, b.sig)) || (a.StorageItem? && b.StorageItem?)
  }

  /** The letters of types, without the "v" for none. */
  function Letters(ts: seq<ValType>): (s: AsciiString)
    ensures |s| == |ts| && 'v' !in s
  {
    seq(|ts|, i requires 0 <= i < |ts| => MangleType(ts[i]))
  }

  lemma LettersJoin(a: seq<ValType>, b: seq<ValType>)
    ensures Letters(a + b) == Letters(a) + Letters(b)
  {}

  lemma LettersReadBack(a: seq<ValType>, b: seq<ValType>)
    requires Letters(a) == Letters(b)
    ensures a == b
  {
    assert |a| == |Letters(a)| == |b|;
    forall i | 0 <= i < |a| ensures a[i] == b[i] {
      assert Letters(a)[i] == Letters(b)[i];
    }
  }

  /** A leading or a trailing "v" tells that there are no results, or no parameters. */
  lemma EndsTell(a: FuncSig)
    ensures var s := Signature(FuncItem(a));
            && |s| >= 2 && (s[0] == 'v' <==> a.results == []) && (s[|s| - 1] == 'v' <==> a.params == [])
            && (a.results != [] && a.params != [] ==> s == Letters(a.results + a.params))
  {
    var s := Signature(FuncItem(a));
    LettersJoin(a.results, a.params);
    if a.results != [] { assert s[0] == Letters(a.results)[0]; }
    if a.params != [] { assert s[|s| - 1] == Letters(a.params)[|a.params| - 1]; }
  }

  /** Two signatures have the same text exactly if they are the same or clash. */
  lemma SignatureTexts(a: FuncSig, b: FuncSig)
    ensures Signature(FuncItem(a)) == Signature(FuncItem(b)) <==> a == b || Clashes(a, b)
  {
    EndsTell(a);
    EndsTell(b);
    var s, t := Signature(FuncItem(a)), Signature(FuncItem(b));
    if s == t {
      if a.results == [] {
        assert s[1..] == MangleTypes(a.params) && t[1..] == MangleTypes(b.params);
        TypesReadBack(a.params, b.params);
      } else if a.params == [] {
        assert s[..|s| - 1] == MangleTypes(a.results) && t[..|t| - 1] == MangleTypes(b.results);
        TypesReadBack(a.results, b.results);
      } else {
        LettersReadBack(a.results + a.params, b.results + b.params);
      }
    }
  }

  /** A signature that shares its text with no other. */
  predicate Unambiguous(a: FuncSig) { a.results == [] || a.params == [] || |a.results| + |a.params| == 2 }

  /** Another division of the letters of an ambiguous signature. */
  function OtherDivision(a: FuncSig): FuncSig
    requires !Unambiguous(a)
  {
    if |a.results| > 1 then FuncSig([a.results[|a.results| - 1]] + a.params, a.results[..|a.results| - 1])
    else FuncSig(a.params[1..], a.results + [a.params[0]])
  }

  lemma SameDivision(a: FuncSig, b: FuncSig)
    requires a.results + a.params == b.results + b.params
    ensures |a.results| == |b.results| ==> a == b
  {
    var all, n := a.results + a.params, |b.results|;
    assert b.results == all[..n] && b.params == all[n..];
    assert a.results == all[..|a.results|] && a.params == all[|a.results|..];
  }

  /** Exactly the signatures without results, without parameters, or with one of each are unique. */
  lemma UniqueExactly(a: FuncSig)
    ensures (forall b :: Signature(FuncItem(b)) == Signature(FuncItem(a)) ==> b == a) <==> Unambiguous(a)
  {
    if Unambiguous(a) {
      forall b | Signature(FuncItem(b)) == Signature(FuncItem(a)) ensures b == a {
        SignatureTexts(b, a);
        if b.results + b.params == a.results + a.params { SameDivision(b, a); }
      }
    } else {
      var b := OtherDivision(a);
      assert |b.results| != |a.results|;
      assert b.results + b.params == a.results + a.params;
      SignatureTexts(b, a);
    }
  }

  /** The text after a field's name tells kind and type, but for clashing signatures. */
  lemma SignatureReadsBack(a: Item, b: Item)
    requires !a.StorageItem? && !b.StorageItem?
    ensures Signature(a) == Signature(b) <==> SameForm(a, b)
  {
    if a.FuncItem? && b.FuncItem? {
      SignatureTexts(a.sig, b.sig);
    } else if a.FuncItem? {
      EndsTell(a.sig);
    } else if b.FuncItem? {
      EndsTell(b.sig);
    } else if Signature(a) == Signature(b) {
      assert Signature(a)[0] == Signature(b)[0];
    }
  }

  /** Two imports have the same symbol exactly if they have the same module and field, and the same
      kind and type, or are functions with clashing signatures, or a memory and a table. */
  lemma ImportSymbolsEqual(
    m1: AsciiString, f1: AsciiString, i1: Item, m2: AsciiString, f2: AsciiString, i2: Item)
    ensures ImportSymbol(m1, f1, i1) == ImportSymbol(m2, f2, i2) <==> m1 == m2 && f1 == f2 && SameForm(i1, i2)
  {
    hide Signature, Mangled, SameForm;
    SameForms(i1, i2);
    var s1, s2 := SignaturePart(i1), SignaturePart(i2);
    if ImportSymbol(m1, f1, i1) == ImportSymbol(m2, f2, i2) {
      StopsHere(f1, s1);
      StopsHere(f2, s2);
      MangledReadsBack(m1, m2, Mangled(f1) + s1, Mangled(f2) + s2);
      MangledReadsBack(f1, f2, s1, s2);
    }
  }

  lemma StopsHere(field: AsciiString, rest: string)
    ensures Stops(Mangled(field) + rest)
  {}

  lemma SameForms(a: Item, b: Item)
    ensures SignaturePart(a) == SignaturePart(b) <==> SameForm(a, b)
  {
    if !a.StorageItem? && !b.StorageItem? {
      SignatureReadsBack(a, b);
      if SignaturePart(a) == SignaturePart(b) {
        assert SignaturePart(a) + "" == SignaturePart(a) && SignaturePart(b) + "" == SignaturePart(b);
        MangledReadsBack(Signature(a), Signature(b), "", "");
      }
    }
  }

  /** The symbol of an import determines it, unless another import of the same module and field has
      a clashing signature: at most one result on both sides rules that out, and so does a signature
      that is unambiguous.  A memory and a table are not told apart. */
  lemma ImportSymbolInjective(
    m1: AsciiString, f1: AsciiString, i1: Item, m2: AsciiString, f2: AsciiString, i2: Item)
    requires i1.FuncItem? && i2.FuncItem? ==>
               || Unambiguous(i1.sig) || Unambiguous(i2.sig) || |i1.sig.results| == |i2.sig.results|
               || (|i1.sig.results| <= 1 && |i2.sig.results| <= 1)
    requires ImportSymbol(m1, f1, i1) == ImportSymbol(m2, f2, i2)
    ensures m1 == m2 && f1 == f2 && (i1 == i2 || (i1.StorageItem? && i2.StorageItem?))
  {
    hide ImportSymbol;
    ImportSymbolsEqual(m1, f1, i1, m2, f2, i2);
    if i1 != i2 && i1.FuncItem? {
      var a, b := i1.sig, i2.sig;
      SignatureTexts(a, b);
      if Unambiguous(a) || Unambiguous(b) {
        UniqueExactly(a);
        UniqueExactly(b);
      } else {
        SameDivision(a, b);
      }
    }
  }

  /** An import pair that is accepted and clashes: WriteImports does not look at the number of
      results, and only the first result type is printed. */
  lemma TwoResultsClash(moduleName: AsciiString, field: AsciiString)
    ensures ImportSymbol(moduleName, field, FuncItem(FuncSig([F32, I64], [I32])))
         == ImportSymbol(moduleName, field, FuncItem(FuncSig([I64], [I32, F32])))
  {
    var a, b := FuncSig([F32, I64], [I32]), FuncSig([I64], [I32, F32]);
    assert a.results + a.params == [I32, F32, I64] == b.results + b.params;
    ImportSymbolsEqual(moduleName, field, FuncItem(a), moduleName, field, FuncItem(b));
  }

  // ----- exports -----

  /** The symbol of an export: as that of an import, without a module.  The prefix that can be put
      before all exports of a program is empty unless it is defined. */
  function ExportSymbol(name: AsciiString, item: Item): string {
    Mangled(name) + SignaturePart(item)
  }

  /** Two exports have the same symbol exactly if they have the same name and the same form. */
  lemma ExportSymbolsEqual(n1: AsciiString, i1: Item, n2: AsciiString, i2: Item)
    ensures ExportSymbol(n1, i1) == ExportSymbol(n2, i2) <==> n1 == n2 && SameForm(i1, i2)
  {
    hide Mangled, SameForm, Signature;
    SameForms(i1, i2);
    if ExportSymbol(n1, i1) == ExportSymbol(n2, i2) {
      MangledReadsBack(n1, n2, SignaturePart(i1), SignaturePart(i2));
    }
  }

  /** An import and an export have the same symbol exactly if the import is a memory or a table, whose
      field is the text of the signature of the function or of the type of the global that is exported
      under the name of the import's module. */
  lemma ImportIsExport(moduleName: AsciiString, field: AsciiString, i: Item, name: AsciiString, e: Item)
    ensures ImportSymbol(moduleName, field, i) == ExportSymbol(name, e)
       <==> i.StorageItem? && !e.StorageItem? && moduleName == name && field == Signature(e)
  {
    hide Mangled, Signature;
    var s, t := Mangled(field) + SignaturePart(i), SignaturePart(e);
    StopsHere(field, SignaturePart(i));
    assert !e.StorageItem? ==> t == Mangled(Signature(e)) + "";
    assert i.StorageItem? ==> s == Mangled(field) + "";
    NotNothing(field, SignaturePart(i));
    if ImportSymbol(moduleName, field, i) == ExportSymbol(name, e) {
      MangledReadsBack(moduleName, name, s, t);
      assert !e.StorageItem?;
      MangledReadsBack(field, Signature(e), SignaturePart(i), "");
      if !i.StorageItem? { NotNothing(Signature(i), ""); }
    }
  }

  lemma NotNothing(name: AsciiString, rest: string)
    ensures Mangled(name) + rest != ""
  {
    assert (Mangled(name) + rest)[0] == 'Z';
  }

  /** A memory imported as "foo" "vv" and a function without parameters and results exported as "foo". */
  lemma MemoryIsExport()
    ensures ImportSymbol("foo", "vv", StorageItem(MemoryKind)) == ExportSymbol("foo", FuncItem(FuncSig([], [])))
  {
    ImportIsExport("foo", "vv", StorageItem(MemoryKind), "foo", FuncItem(FuncSig([], [])));
  }

  // ----- the format of symbols -----

  /** The value of an upper-case hexadecimal digit. */
  predicate HexValue(c: char, v: nat) { v < 16 && "0123456789ABCDEF"[v] == c }

  /** `text` is `name` with every character other than letters, digits and the underscore, and every
      'Z', written as 'Z' and two hexadecimal digits. */
  predicate Escaped(name: AsciiString, text: string) {
    if name == "" then text == ""
    else
      var c := name[0];
      if 'a' <= c <= 'z' || 'A' <= c <= 'Y' || '0' <= c <= '9' || c == '_' then
        text != "" && text[0] == c && Escaped(name[1..], text[1..])
      else
        && |text| >= 3 && text[0] == 'Z' && HexValue(text[1], c as nat / 16) && HexValue(text[2], c as nat % 16)
        && Escaped(name[1..], text[3..])
  }

  lemma HexDigitIs(c: char, v: nat)
    requires v < 16
    ensures HexValue(c, v) <==> c == HexDigit(v)
  {
    assert "0123456789ABCDEF"[v] == HexDigit(v);
  }

  lemma EscapedHead(name: AsciiString, text: string)
    requires name != ""
    ensures var e := Escape(name[0]);
            Escaped(name, text) <==> e <= text && Escaped(name[1..], text[|e|..])
  {
    hide HexDigit, HexValue;
    var c := name[0];
    if !IsPlain(c) && |text| >= 3 {
      HexDigitIs(text[1], c as nat / 16);
      HexDigitIs(text[2], c as nat % 16);
    }
  }

  lemma {:induction false} EscapedExactly(name: AsciiString, text: string)
    ensures Escaped(name, text) <==> text == EscapeAll(name)
    decreases |name|
  {
    hide Escape, Escaped;
    if name == "" {
      NothingEscaped(text);
    } else {
      var e, tail := Escape(name[0]), EscapeAll(name[1..]);
      EscapedHead(name, text);
      if e <= text {
        EscapedExactly(name[1..], text[|e|..]);
        assert text == e + text[|e|..];
      }
      assert (e + tail)[|e|..] == tail && e <= e + tail;
    }
  }

  lemma NothingEscaped(text: string)
    ensures Escaped("", text) <==> text == ""
  {}

  predicate TypeLetter(t: ValType, c: char) {
    (t == I32 && c == 'i') || (t == I64 && c == 'j') || (t == F32 && c == 'f') || (t == F64 && c == 'd')
  }

  /** One letter for each type, or "v" for none. */
  predicate TypesText(ts: seq<ValType>, s: string) {
    if ts == [] then s == "v" else |s| == |ts| && forall i | 0 <= i < |ts| :: TypeLetter(ts[i], s[i])
  }

  lemma TypesExactly(ts: seq<ValType>, s: string)
    ensures TypesText(ts, s) <==> s == MangleTypes(ts)
  {}

  /** What follows the field's name: nothing, the type of a global, or results and parameters. */
  ghost predicate ItemText(item: Item, s: string) {
    match item
    case StorageItem(_) => s == ""
    case GlobalItem(ty) => |s| == 3 && s[..2] == "Z_" && TypeLetter(ty, s[2])
    case FuncItem(sig) => exists a, b :: TypesText(sig.results, a) && TypesText(sig.params, b) && s == "Z_" + a + b
  }

  ghost predicate SymbolText(moduleName: AsciiString, field: AsciiString, item: Item, s: string) {
    exists a, b, c :: Escaped(moduleName, a) && Escaped(field, b) && ItemText(item, c) && s == "Z_" + a + "Z_" + b + c
  }

  lemma {:induction false} PlainStays(s: AsciiString)
    requires forall i | 0 <= i < |s| :: IsPlain(s[i])
    ensures EscapeAll(s) == s
    decreases |s|
  {
    if s != "" {
      PlainStays(s[1..]);
      assert s == [s[0]] + s[1..];
    }
  }

  lemma ItemExactly(item: Item, s: string)
    ensures ItemText(item, s) <==> s == SignaturePart(item)
  {
    match item
    case StorageItem(_) =>
    case GlobalItem(ty) =>
      PlainStays([MangleType(ty)]);
      assert "Z_" + [MangleType(ty)] == ['Z', '_', MangleType(ty)];
      assert |s| == 3 ==> s == s[..2] + [s[2]];
    case FuncItem(sig) =>
      var x, y := MangleTypes(sig.results), MangleTypes(sig.params);
      PlainStays(x + y);
      assert "Z_" + (x + y) == "Z_" + x + y;
      TypesExactly(sig.results, x);
      TypesExactly(sig.params, y);
      if ItemText(item, s) {
        var a, b :| TypesText(sig.results, a) && TypesText(sig.params, b) && s == "Z_" + a + b;
        TypesExactly(sig.results, a);
        TypesExactly(sig.params, b);
      }
  }

  /** The symbol of an import, written out. */
  lemma SymbolExactly(moduleName: AsciiString, field: AsciiString, item: Item, s: string)
    ensures SymbolText(moduleName, field, item, s) <==> s == ImportSymbol(moduleName, field, item)
  {
    hide Escaped, ItemText, EscapeAll, SignaturePart;
    var x, y, z := EscapeAll(moduleName), EscapeAll(field), SignaturePart(item);
    EscapedExactly(moduleName, x);
    EscapedExactly(field, y);
    ItemExactly(item, z);
    assert ("Z_" + x) + (("Z_" + y) + z) == "Z_" + x + "Z_" + y + z;
    if SymbolText(moduleName, field, item, s) {
      var a, b, c :| Escaped(moduleName, a) && Escaped(field, b) && ItemText(item, c) && s == "Z_" + a + "Z_" + b + c;
      EscapedExactly(moduleName, a);
      EscapedExactly(field, b);
      ItemExactly(item, c);
    }
  }

  /** The function "print" of "env", with one parameter and no result. */
  lemma PrintSymbol()
    ensures ImportSymbol("env", "print", FuncItem(FuncSig([I32], []))) == "Z_envZ_printZ_vi"
  {
    hide EscapeAll, MangleTypes;
    PlainStays("env");
    PlainStays("print");
    PlainStays("vi");
    assert MangleTypes([I32]) == "i" && MangleTypes([]) == "v" by { TypesExactly([I32], "i"); TypesExactly([], "v"); }
    assert "v" + "i" == "vi";
  }

  /** Symbols are identifiers. */
  lemma {:induction false} EscapedLegal(name: AsciiString)
    ensures forall i | 0 <= i < |EscapeAll(name)| :: IsAlnum(EscapeAll(name)[i]) || EscapeAll(name)[i] == '_'
    decreases |name|
  {
    if name != "" { EscapedLegal(name[1..]); }
  }

  lemma MangledLegal(name: AsciiString)
    ensures IsIdentifier(Mangled(name))
  {
    hide EscapeAll;
    EscapedLegal(name);
  }

  lemma SymbolIdentifier(moduleName: AsciiString, field: AsciiString, item: Item)
    ensures IsIdentifier(ImportSymbol(moduleName, field, item))
  {
    hide Mangled;
    MangledLegal(moduleName);
    MangledLegal(field);
    MangledLegal(Signature(item));
  }
}

/** The code section (src/binary-writer.cc, src/binary-reader.cc, ReadCodeSection): each function's
    entry has a size, declarations of locals and a body. */
module CodeSection {
  import opened Util
  import opened Powers
  import opened Leb128
  import opened BinaryFormat
  import opened BinaryCodec
  import opened BinaryReading
  import opened BinaryWriter

  // ----- the format -----

  /** Consecutive locals of one type, as they stand in the file: there may be none. */
  type Decl = (nat, ValType)

  ghost predicate DeclBytes(d: Decl, p: seq<Byte>) {
    exists a, b :: p == a + b && Unsigned(a, d.0) && ValueType(d.1, b)
  }

  ghost predicate DeclsBytes(ds: seq<Decl>, p: seq<Byte>)
    decreases |ds|
  {
    if ds == [] then p == [] else exists a, b :: p == a + b && DeclBytes(ds[0], a) && DeclsBytes(ds[1..], b)
  }

  function Total(ds: seq<Decl>): nat { if ds == [] then 0 else ds[0].0 + Total(ds[1..]) }

  /** Declarations of no locals declare nothing. */
  function Kept(ds: seq<Decl>): seq<LocalDecl> {
    if ds == [] then [] else (if ds[0].0 == 0 then [] else [LocalDecl(ds[0].0, ds[0].1)]) + Kept(ds[1..])
  }

  /** A body whose lists are all closed, as the format wants it, or one the reader takes all the same. */
  ghost predicate TreeBytes(types: seq<FuncSig>, closed: bool, es: seq<Expr>, p: seq<Byte>) {
    if closed then IsBody(types, es, p) else LooseBody(types, es, p)
  }

  ghost predicate EntryBytes(types: seq<FuncSig>, closed: bool, body: Body, p: seq<Byte>) {
    exists ds, a, b, c ::
      p == a + b + c && Unsigned(a, |ds|) && DeclsBytes(ds, b) && Total(ds) < 0xffff_ffff
      && body.locals == Kept(ds) && TreeBytes(types, closed, body.exprs, c)
  }

  /** One entry after the other, each behind its size. */
  ghost predicate EntriesBytes(types: seq<FuncSig>, closed: bool, bs: seq<Body>, p: seq<Byte>)
    decreases |bs|
  {
    if bs == [] then p == []
    else
      exists a, b, c ::
        p == a + b + c && Unsigned(a, |b|) && EntryBytes(types, closed, bs[0], b)
        && EntriesBytes(types, closed, bs[1..], c)
  }

  /** The payload of the code section. */
  ghost predicate CodeBytes(types: seq<FuncSig>, closed: bool, bs: seq<Body>, p: seq<Byte>) {
    exists a, b :: p == a + b && Unsigned(a, |bs|) && EntriesBytes(types, closed, bs, b)
  }

  // ----- the reader -----

  function GetDecl(p: seq<Byte>): (g: Got<Decl>)
    ensures g.Got? ==> IsRest(g.rest, p)
  {
    match GetU32(p)
    case Bad => Bad
    case Got(count, r1) =>
      match GetS32(r1)
      case Bad => Bad
      case Got(v, r2) => match TypeOf(v) case None => Bad case Some(ty) => Got((count, ty), r2)
  }

  /** Too many locals are refused. */
  function GetDecls(n: nat, total: nat, p: seq<Byte>): (g: Got<seq<Decl>>)
    ensures g.Got? ==> IsRest(g.rest, p)
    decreases n
  {
    if n == 0 then Got([], p)
    else
      match GetDecl(p)
      case Bad => Bad
      case Got(d, r) =>
        if total + d.0 >= 0xffff_ffff then Bad
        else match GetDecls(n - 1, total + d.0, r) case Bad => Bad case Got(ds, r') => Got([d] + ds, r')
  }

  /** A function's entry: local declarations, then its instructions up to the final `end`. */
  function ReadEntry(types: seq<FuncSig>, p: seq<Byte>): Option<Body> {
    match GetU32(p)
    case Bad => None
    case Got(n, r1) =>
      match GetDecls(n, 0, r1)
      case Bad => None
      case Got(ds, r2) =>
        match ReadTree(types, r2) case None => None case Some(es) => Some(Body(Kept(ds), es))
  }

  function ReadEntries(types: seq<FuncSig>, n: nat, p: seq<Byte>): Option<seq<Body>>
    decreases n
  {
    if n == 0 then (if p == [] then Some([]) else None)
    else
      match GetU32(p)
      case Bad => None
      case Got(size, rest) =>
        if size > |rest| then None
        else
          match ReadEntry(types, rest[..size])
          case None => None
          case Some(b) =>
            match ReadEntries(types, n - 1, rest[size..])
            case None => None
            case Some(bs) => Some([b] + bs)
  }

  /** ReadCodeSection: the number of entries, then the entries, each as long as its size says. */
  function ReadCode(types: seq<FuncSig>, p: seq<Byte>): Option<seq<Body>> {
    match GetU32(p) case Bad => None case Got(n, rest) => ReadEntries(types, n, rest)
  }

  // ----- the reader takes what is in the format -----

  lemma DeclIn(d: Decl, p: seq<Byte>, rest: seq<Byte>)
    requires DeclBytes(d, p)
    ensures GetDecl(p + rest) == Got(d, rest)
  {
    hide GetU32, GetS32, Unsigned, ValueType, TypeOf;
    var a, b :| p == a + b && Unsigned(a, d.0) && ValueType(d.1, b);
    assert p + rest == a + (b + rest);
    U32In(a, d.0, b + rest);
    TypeIn(d.1, b, rest);
  }

  lemma {:induction false} DeclsIn(ds: seq<Decl>, total: nat, p: seq<Byte>, rest: seq<Byte>)
    requires DeclsBytes(ds, p) && (ds == [] || total + Total(ds) < 0xffff_ffff)
    ensures GetDecls(|ds|, total, p + rest) == Got(ds, rest)
    decreases |ds|
  {
    hide GetDecl, GetDecls, DeclBytes, IsRest;
    if ds == [] {
      assert p + rest == rest;
      DeclsNone(total, rest);
    } else {
      var a, b :| p == a + b && DeclBytes(ds[0], a) && DeclsBytes(ds[1..], b);
      assert p + rest == a + (b + rest);
      DeclIn(ds[0], a, b + rest);
      DeclsIn(ds[1..], total + ds[0].0, b, rest);
      DeclsMore(ds[0], ds[1..], total, p + rest, b + rest, rest);
      assert [ds[0]] + ds[1..] == ds;
    }
  }

  lemma DeclsNone(total: nat, rest: seq<Byte>)
    ensures GetDecls(0, total, rest) == Got([], rest)
  {}

  lemma DeclsMore(d: Decl, ds: seq<Decl>, total: nat, p: seq<Byte>, q: seq<Byte>, rest: seq<Byte>)
    requires GetDecl(p) == Got(d, q) && total + d.0 < 0xffff_ffff
    requires GetDecls(|ds|, total + d.0, q) == Got(ds, rest)
    ensures GetDecls(1 + |ds|, total, p) == Got([d] + ds, rest)
  {
    hide GetDecl, IsRest;
  }

  lemma TreeIn(types: seq<FuncSig>, closed: bool, es: seq<Expr>, p: seq<Byte>)
    requires TreeBytes(types, closed, es, p)
    ensures ReadTree(types, p) == Some(es)
  {
    hide ReadTree, LooseBody, IsBody;
    if closed { Closed(types, es, p); }
    TreeExactly(types, p, es);
  }

  lemma Closed(types: seq<FuncSig>, es: seq<Expr>, p: seq<Byte>)
    requires IsBody(types, es, p)
    ensures LooseBody(types, es, p)
  {
    hide ListBytes;
    var q := p[..|p| - 1];
    assert p == q + [0x0b] && Unfinished(types, es, 0, q);
  }

  lemma EntryIn(types: seq<FuncSig>, closed: bool, body: Body, p: seq<Byte>)
    requires EntryBytes(types, closed, body, p)
    ensures ReadEntry(types, p) == Some(body)
  {
    hide GetU32, GetDecls, ReadTree, Unsigned, DeclsBytes, TreeBytes, Total, Kept, IsRest;
    var ds, a, b, c :|
      p == a + b + c && Unsigned(a, |ds|) && DeclsBytes(ds, b) && Total(ds) < 0xffff_ffff
      && body.locals == Kept(ds) && TreeBytes(types, closed, body.exprs, c);
    assert p == a + (b + c);
    U32In(a, |ds|, b + c);
    DeclsIn(ds, 0, b, c);
    TreeIn(types, closed, body.exprs, c);
  }

  lemma {:induction false} EntriesIn(types: seq<FuncSig>, closed: bool, bs: seq<Body>, p: seq<Byte>)
    requires EntriesBytes(types, closed, bs, p)
    ensures ReadEntries(types, |bs|, p) == Some(bs)
    decreases |bs|
  {
    hide GetU32, ReadEntry, Unsigned, EntryBytes, IsRest;
    if bs != [] {
      var a, b, c :| p == a + b + c && Unsigned(a, |b|) && EntryBytes(types, closed, bs[0], b)
        && EntriesBytes(types, closed, bs[1..], c);
      assert p == a + (b + c);
      U32In(a, |b|, b + c);
      assert (b + c)[..|b|] == b && (b + c)[|b|..] == c;
      EntryIn(types, closed, bs[0], b);
      EntriesIn(types, closed, bs[1..], c);
      assert [bs[0]] + bs[1..] == bs;
    }
  }

  // ----- and nothing else -----

  lemma DeclOut(p: seq<Byte>)
    ensures var g := GetDecl(p); g.Got? ==> DeclBytes(g.value, Taken(p, g.rest))
  {
    hide GetU32, GetS32, Unsigned, ValueType, TypeOf;
    var g, h := GetDecl(p), GetU32(p);
    if g.Got? {
      U32Out(p);
      TypeOut(h.rest);
      RestOfRest(p, h.rest, g.rest);
    }
  }

  lemma {:induction false} DeclsOut(n: nat, total: nat, p: seq<Byte>)
    ensures var g := GetDecls(n, total, p);
            g.Got? ==> |g.value| == n && DeclsBytes(g.value, Taken(p, g.rest))
                       && (n == 0 || total + Total(g.value) < 0xffff_ffff)
    decreases n
  {
    hide GetDecl, DeclBytes;
    var g := GetDecls(n, total, p);
    if n > 0 && g.Got? {
      var h := GetDecl(p);
      DeclOut(p);
      DeclsOut(n - 1, total + h.value.0, h.rest);
      RestOfRest(p, h.rest, g.rest);
      assert g.value[1..] == GetDecls(n - 1, total + h.value.0, h.rest).value;
    }
  }

  lemma EntryOut(types: seq<FuncSig>, p: seq<Byte>)
    ensures var r := ReadEntry(types, p); r.Some? ==> EntryBytes(types, false, r.value, p)
  {
    hide GetU32, GetDecls, ReadTree, Unsigned, DeclsBytes, LooseBody, Total, Kept;
    var r := ReadEntry(types, p);
    if r.Some? {
      var g := GetU32(p);
      var h := GetDecls(g.value, 0, g.rest);
      U32Out(p);
      DeclsOut(g.value, 0, g.rest);
      NoLocals(h.value);
      TreeExactly(types, h.rest, r.value.exprs);
      assert p == Taken(p, g.rest) + Taken(g.rest, h.rest) + h.rest;
    }
  }

  lemma NoLocals(ds: seq<Decl>)
    ensures ds == [] ==> Total(ds) == 0
  {}

  lemma NothingThere(types: seq<FuncSig>)
    ensures EntriesBytes(types, false, [], [])
  {}

  lemma {:induction false} EntriesOut(types: seq<FuncSig>, n: nat, p: seq<Byte>)
    ensures var r := ReadEntries(types, n, p); r.Some? ==> |r.value| == n && EntriesBytes(types, false, r.value, p)
    decreases n
  {
    hide GetU32, ReadEntry, Unsigned, EntryBytes, EntriesBytes;
    var r := ReadEntries(types, n, p);
    if n == 0 {
      NothingThere(types);
    } else if r.Some? {
      var g := GetU32(p);
      U32Out(p);
      var b, c := g.rest[..g.value], g.rest[g.value..];
      EntryOut(types, b);
      EntriesOut(types, n - 1, c);
      assert p == Taken(p, g.rest) + b + c;
      EntriesMore(types, ReadEntry(types, b).value, ReadEntries(types, n - 1, c).value, Taken(p, g.rest), b, c);
    }
  }

  lemma EntriesMore(types: seq<FuncSig>, body: Body, bs: seq<Body>, a: seq<Byte>, b: seq<Byte>, c: seq<Byte>)
    requires Unsigned(a, |b|) && EntryBytes(types, false, body, b) && EntriesBytes(types, false, bs, c)
    ensures EntriesBytes(types, false, [body] + bs, a + b + c)
  {
    hide Unsigned, EntryBytes;
    assert ([body] + bs)[1..] == bs;
  }

  /** The reader accepts exactly the payloads in the format, where the last lists of a body need not be
      closed, and returns the functions they encode. */
  lemma CodeExactly(types: seq<FuncSig>, p: seq<Byte>, bs: seq<Body>)
    ensures ReadCode(types, p) == Some(bs) <==> CodeBytes(types, false, bs, p)
  {
    hide GetU32, ReadEntries, Unsigned, EntriesBytes;
    if ReadCode(types, p) == Some(bs) {
      var g := GetU32(p);
      U32Out(p);
      EntriesOut(types, g.value, g.rest);
      assert p == Taken(p, g.rest) + g.rest;
    }
    if CodeBytes(types, false, bs, p) { CodeIn(types, false, bs, p); }
  }

  lemma CodeIn(types: seq<FuncSig>, closed: bool, bs: seq<Body>, p: seq<Byte>)
    requires CodeBytes(types, closed, bs, p)
    ensures ReadCode(types, p) == Some(bs)
  {
    hide GetU32, ReadEntries, Unsigned, EntriesBytes;
    var a, b :| p == a + b && Unsigned(a, |bs|) && EntriesBytes(types, closed, bs, b);
    U32In(a, |bs|, b);
    EntriesIn(types, closed, bs, b);
  }

  // ----- what is written is in the format -----

  /** The source's limits: 32-bit numbers and sizes, and not too many locals. */
  predicate ValidBody(types: seq<FuncSig>, b: Body) {
    ValidList(types, b.exprs) && |b.locals| < Pow2(32) && |BodyBytes(types, b)| < Pow2(32)
      && Total(Raw(b.locals)) < 0xffff_ffff
  }

  function Raw(ds: seq<LocalDecl>): (r: seq<Decl>)
    ensures |r| == |ds|
  {
    if ds == [] then [] else [(ds[0].count, ds[0].ty)] + Raw(ds[1..])
  }

  lemma {:induction false} RawKept(ds: seq<LocalDecl>)
    ensures Kept(Raw(ds)) == ds
    decreases |ds|
  {
    if ds != [] {
      RawKept(ds[1..]);
      KeptMore((ds[0].count, ds[0].ty), Raw(ds[1..]));
      assert [LocalDecl(ds[0].count, ds[0].ty)] + ds[1..] == ds;
    }
  }

  lemma KeptMore(d: Decl, ds: seq<Decl>)
    requires d.0 > 0
    ensures Kept([d] + ds) == [LocalDecl(d.0, d.1)] + Kept(ds)
  {
    assert ([d] + ds)[1..] == ds;
  }

  lemma SizeForm(canon: bool, size: nat)
    requires size < Pow2(32)
    ensures Unsigned(SizeLeb(canon, size), size)
  {
    hide Pow2, EncodeU, FixedU32, ReadU32, DecodeU;
    if canon {
      UnsignedForm(size);
    } else {
      FixedReadsBack(size, []);
      assert FixedU32(size) + [] == FixedU32(size);
      ReadU32Exact(FixedU32(size));
    }
  }

  lemma {:induction false} DeclsFront(ds: seq<LocalDecl>)
    requires ds != []
    ensures EncodeDecls(ds) == EncodeDecl(ds[0]) + EncodeDecls(ds[1..])
    decreases |ds|
  {
    hide EncodeDecl;
    var n := |ds| - 1;
    if n == 0 {
      assert ds[..0] == [] && ds[1..] == [];
      assert [] + EncodeDecl(ds[0]) == EncodeDecl(ds[0]) + [];
    } else {
      DeclsFront(ds[..n]);
      assert ds[..n][1..] == ds[1..][..n - 1];
      assert EncodeDecl(ds[0]) + EncodeDecls(ds[1..][..n - 1]) + EncodeDecl(ds[n])
          == EncodeDecl(ds[0]) + (EncodeDecls(ds[1..][..n - 1]) + EncodeDecl(ds[n]));
    }
  }

  lemma {:induction false} DeclsForm(ds: seq<LocalDecl>)
    requires Total(Raw(ds)) < 0xffff_ffff
    ensures DeclsBytes(Raw(ds), EncodeDecls(ds))
    decreases |ds|
  {
    hide Pow2, EncodeU, EncodeS, Unsigned, ValueType, EncodeDecls;
    if ds == [] {
      NoDecls();
    } else {
      DeclsFront(ds);
      Word32();
      UnsignedForm(ds[0].count);
      TypeForm(ds[0].ty);
      assert DeclBytes(Raw(ds)[0], EncodeDecl(ds[0]));
      assert Raw(ds)[1..] == Raw(ds[1..]);
      DeclsForm(ds[1..]);
    }
  }

  lemma NoDecls()
    ensures EncodeDecls([]) == []
  {}

  lemma EntryForm(types: seq<FuncSig>, b: Body)
    requires ValidBody(types, b)
    ensures EntryBytes(types, true, b, BodyBytes(types, b))
  {
    hide Pow2, EncodeU, EncodeDecls, Unsigned, DeclsBytes, IsBody, EncodeList, ValidList, Total, Kept, Raw;
    var code := EncodeList(types, b.exprs) + [END];
    assert BodyBytes(types, b) == EncodeU(|b.locals|) + EncodeDecls(b.locals) + code;
    UnsignedForm(|b.locals|);
    DeclsForm(b.locals);
    RawKept(b.locals);
    WrittenForm(types, b.exprs);
    assert TreeBytes(types, true, b.exprs, code);
  }

  lemma {:induction false} BodiesFront(canon: bool, types: seq<FuncSig>, bs: seq<Body>)
    requires bs != []
    ensures FlatBodies(canon, types, bs) == Sized(canon, BodyBytes(types, bs[0])) + FlatBodies(canon, types, bs[1..])
    decreases |bs|
  {
    hide Sized, BodyBytes;
    var n := |bs| - 1;
    var first, last := Sized(canon, BodyBytes(types, bs[0])), Sized(canon, BodyBytes(types, bs[n]));
    if n == 0 {
      assert bs[..0] == [] && bs[1..] == [];
      assert [] + first == first + [];
    } else {
      BodiesFront(canon, types, bs[..n]);
      assert bs[..n][1..] == bs[1..][..n - 1];
      assert first + FlatBodies(canon, types, bs[1..][..n - 1]) + last
        == first + (FlatBodies(canon, types, bs[1..][..n - 1]) + last);
    }
  }

  lemma {:induction false} EntriesForm(canon: bool, types: seq<FuncSig>, bs: seq<Body>)
    requires forall i | 0 <= i < |bs| :: ValidBody(types, bs[i])
    ensures EntriesBytes(types, true, bs, FlatBodies(canon, types, bs))
    decreases |bs|
  {
    hide Pow2, SizeLeb, BodyBytes, ValidBody, FlatBodies, EntryBytes, Unsigned;
    if bs == [] {
      NoEntries(canon, types);
    } else {
      var bytes, tail := BodyBytes(types, bs[0]), FlatBodies(canon, types, bs[1..]);
      BodiesFront(canon, types, bs);
      assert ValidBody(types, bs[0]);
      SizeFits(types, bs[0]);
      SizeForm(canon, |bytes|);
      EntryForm(types, bs[0]);
      forall i | 0 <= i < |bs[1..]| ensures ValidBody(types, bs[1..][i]) { assert ValidBody(types, bs[i + 1]); }
      EntriesForm(canon, types, bs[1..]);
    }
  }

  lemma NoEntries(canon: bool, types: seq<FuncSig>)
    ensures FlatBodies(canon, types, []) == []
  {}

  lemma SizeFits(types: seq<FuncSig>, b: Body)
    requires ValidBody(types, b)
    ensures |BodyBytes(types, b)| < Pow2(32)
  {}

  /** The payload of the code section that WriteModule wrote is in the format, whichever form its sizes
      have, and reads back into the functions written. */
  lemma CodeSectionBack(canon: bool, c: Contents)
    requires |c.bodies| < Pow2(32) && forall i | 0 <= i < |c.bodies| :: ValidBody(c.types, c.bodies[i])
    ensures CodeBytes(c.types, true, c.bodies, CodePayload(canon, c))
    ensures ReadCode(c.types, CodePayload(canon, c)) == Some(c.bodies)
  {
    hide Pow2, EncodeU, Unsigned, FlatBodies, EntriesBytes, ReadCode, ValidBody;
    UnsignedForm(|c.bodies|);
    EntriesForm(canon, c.types, c.bodies);
    assert CodePayload(canon, c) == EncodeU(|c.bodies|) + FlatBodies(canon, c.types, c.bodies);
    CodeIn(c.types, true, c.bodies, CodePayload(canon, c));
  }
}

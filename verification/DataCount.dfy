/** When a file has a DataCount section: src/binary-writer.cc keeps it only if some instruction needs it. */
module DataCount {
  import opened Util
  import opened Powers
  import opened Leb128
  import opened BinaryFormat
  import opened BinaryCodec
  import opened BinaryWriter
  import opened CodeSection
  import opened SectionReader
  import opened FileRoundTrip

  /** `x` occurs in `e`, at whatever depth. */
  predicate Occurs(x: Expr, e: Expr)
    decreases e
  {
    x == e ||
    match e
    case Block(_, body) => OccursIn(x, body)
    case Loop(_, body) => OccursIn(x, body)
    case If(_, then_, else_) => OccursIn(x, then_) || OccursIn(x, else_)
    case Try(_, body, catch_) => OccursIn(x, body) || OccursIn(x, catch_)
    case _ => false
  }

  predicate OccursIn(x: Expr, es: seq<Expr>)
    decreases es
  {
    exists i :: 0 <= i < |es| && Occurs(x, es[i])
  }

  /** memory.init or data.drop, with whatever immediates. */
  predicate NeedsCount(x: Expr) { x.Instr? && (x.op == Prefixed(0xfc, 8) || x.op == Prefixed(0xfc, 9)) }

  lemma {:induction false} UsesOccurs(e: Expr) returns (x: Expr)
    requires UsesData(e)
    ensures NeedsCount(x) && Occurs(x, e)
    decreases e, 0
  {
    hide UsesDataList, OccursIn;
    match e
    case Instr(_, _) => x := e;
    case Block(_, body) => x := UsesOccursIn(body);
    case Loop(_, body) => x := UsesOccursIn(body);
    case If(_, then_, else_) =>
      if UsesDataList(then_) { x := UsesOccursIn(then_); } else { x := UsesOccursIn(else_); }
    case Try(_, body, catch_) =>
      if UsesDataList(body) { x := UsesOccursIn(body); } else { x := UsesOccursIn(catch_); }
  }

  lemma {:induction false} UsesOccursIn(es: seq<Expr>) returns (x: Expr)
    requires UsesDataList(es)
    ensures NeedsCount(x) && OccursIn(x, es)
    decreases es, 1
  {
    hide UsesData, Occurs;
    var i :| 0 <= i < |es| && UsesData(es[i]);
    x := UsesOccurs(es[i]);
  }

  lemma {:induction false} OccursUses(x: Expr, e: Expr)
    requires NeedsCount(x) && Occurs(x, e)
    ensures UsesData(e)
    decreases e, 0
  {
    hide UsesDataList, OccursIn;
    if x != e {
      match e
      case Block(_, body) => OccursUsesIn(x, body);
      case Loop(_, body) => OccursUsesIn(x, body);
      case If(_, then_, else_) =>
        if OccursIn(x, then_) { OccursUsesIn(x, then_); } else { OccursUsesIn(x, else_); }
      case Try(_, body, catch_) =>
        if OccursIn(x, body) { OccursUsesIn(x, body); } else { OccursUsesIn(x, catch_); }
    }
  }

  lemma {:induction false} OccursUsesIn(x: Expr, es: seq<Expr>)
    requires NeedsCount(x) && OccursIn(x, es)
    ensures UsesDataList(es)
    decreases es, 1
  {
    hide UsesData, Occurs;
    var i :| 0 <= i < |es| && Occurs(x, es[i]);
    OccursUses(x, es[i]);
  }

  /** The section with code 10 reads back into functions of which one needs the count. */
  ghost predicate CodeNeedsCount(types: seq<FuncSig>, data: seq<Byte>, spans: seq<Span>)
    requires InFile(data, spans)
  {
    exists k: nat, bs: seq<Body>, b: Body, x: Expr ::
      && 0 <= k < |spans| && spans[k].code == 10 && ReadCode(types, Payload(data, spans[k])) == Some(bs)
      && b in bs && OccursIn(x, b.exprs) && NeedsCount(x)
  }

  /** In the finished file there is a section with code 12 if and only if bulk memory is on, there are
      data segments, and the code section read back holds memory.init or data.drop at some depth; its
      payload is the number of segments. */
  lemma CountExactly(canon: bool, bulkMemory: bool, c: Contents, spans: seq<Span>)
    requires InOrder(c) && |FlatModule(canon, bulkMemory, c)| < Pow2(32) && c.dataSegments < Pow2(32)
    requires |c.bodies| < Pow2(32) && forall i | 0 <= i < |c.bodies| :: ValidBody(c.types, c.bodies[i])
    requires Tiles(FlatModule(canon, bulkMemory, c), 8, |FlatModule(canon, bulkMemory, c)|, spans)
    ensures var data := FlatModule(canon, bulkMemory, c);
            && InFile(data, spans)
            && ((exists k :: 0 <= k < |spans| && spans[k].code == 12)
                  <==> bulkMemory && c.dataSegments > 0 && CodeNeedsCount(c.types, data, spans))
            && forall k | 0 <= k < |spans| && spans[k].code == 12 :: Unsigned(Payload(data, spans[k]), c.dataSegments)
  {
    hide FlatModule, Placed, Tiles, InOrder, Pow2, ValidBody, AnyUsesData, ReadCode, IsSection, Payload, EncodeU,
      CodePayload, Parts, UsesDataList, OccursIn, CodeBytes, Unsigned;
    var data, ps := FlatModule(canon, bulkMemory, c), Written(canon, bulkMemory, c);
    AllFit(canon, bulkMemory, c);
    LayoutRoundTrip(canon, bulkMemory, c, spans);
    TilesInFile(data, 8, |data|, spans);
    CodeSectionBack(canon, c);
    UnsignedForm(c.dataSegments);
    WhichParts(canon, bulkMemory, c);
    forall k | 0 <= k < |spans| && spans[k].code == 10
      ensures ReadCode(c.types, Payload(data, spans[k])) == Some(c.bodies)
    {
      assert ps[k].code == 10;
    }
    if c.bodies != [] {
      var k :| 0 <= k < |ps| && ps[k] == Part(10, CodePayload(canon, c));
      assert spans[k].code == 10;
    }
    NeedsExactly(c, data, spans);
  }

  /** The functions read back are those written. */
  lemma NeedsExactly(c: Contents, data: seq<Byte>, spans: seq<Span>)
    requires InFile(data, spans)
    requires forall k | 0 <= k < |spans| && spans[k].code == 10 ::
               ReadCode(c.types, Payload(data, spans[k])) == Some(c.bodies)
    requires c.bodies != [] ==> exists k :: 0 <= k < |spans| && spans[k].code == 10
    ensures CodeNeedsCount(c.types, data, spans) <==> AnyUsesData(c.bodies)
  {
    hide AnyUsesData, ReadCode, IsSection, Payload, UsesDataList, OccursIn;
    if CodeNeedsCount(c.types, data, spans) {
      var k: nat, bs: seq<Body>, b: Body, x: Expr :| 0 <= k < |spans| && spans[k].code == 10
        && ReadCode(c.types, Payload(data, spans[k])) == Some(bs) && b in bs && OccursIn(x, b.exprs) && NeedsCount(x);
      var i :| 0 <= i < |c.bodies| && c.bodies[i] == b;
      OccursUsesIn(x, b.exprs);
      assert AnyUsesData(c.bodies) by { Somewhere(c.bodies, i); }
    }
    if AnyUsesData(c.bodies) {
      var i := Where(c.bodies);
      var x := UsesOccursIn(c.bodies[i].exprs);
      var k :| 0 <= k < |spans| && spans[k].code == 10;
      assert ReadCode(c.types, Payload(data, spans[k])) == Some(c.bodies) && c.bodies[i] in c.bodies;
      assert CodeNeedsCount(c.types, data, spans);
    }
  }

  lemma Somewhere(bs: seq<Body>, i: nat)
    requires i < |bs| && UsesDataList(bs[i].exprs)
    ensures AnyUsesData(bs)
  {}

  lemma Where(bs: seq<Body>) returns (i: nat)
    requires AnyUsesData(bs)
    ensures i < |bs| && UsesDataList(bs[i].exprs)
  {
    hide UsesDataList;
    var k :| 0 <= k < |bs| && UsesDataList(bs[k].exprs);
    i := k;
  }

  /** Which sections with codes 10 and 12 are written. */
  lemma WhichParts(canon: bool, bulkMemory: bool, c: Contents)
    requires InOrder(c)
    ensures var ps := Written(canon, bulkMemory, c);
            && (forall k | 0 <= k < |ps| && ps[k].code == 12 :: ps[k].payload == EncodeU(c.dataSegments))
            && (forall k | 0 <= k < |ps| && ps[k].code == 10 :: ps[k].payload == CodePayload(canon, c))
            && ((exists k :: 0 <= k < |ps| && ps[k].code == 12)
                  <==> bulkMemory && c.dataSegments > 0 && AnyUsesData(c.bodies))
            && (c.bodies != [] ==> exists k :: 0 <= k < |ps| && ps[k] == Part(10, CodePayload(canon, c)))
            && (AnyUsesData(c.bodies) ==> c.bodies != [])
  {
    hide Before, Parts, CodePayload, EncodeU, UsesDataList;
    var before, after := Parts(canon, c.before), Parts(canon, c.after);
    var ps := Written(canon, bulkMemory, c);
    PartsAt(canon, c.before);
    PartsAt(canon, c.after);
    forall x: nat ensures Before(x, 12) ==> x != 10 && x != 12 {
      if Before(x, 12) {
        BeforeIsStrict(x, 12);
        Around(x);
      }
    }
    forall x: nat ensures Before(10, x) ==> x == 11 { Around(x); }
    var n := |before|;
    if bulkMemory && c.dataSegments > 0 && AnyUsesData(c.bodies) {
      assert ps[n] == Part(12, EncodeU(c.dataSegments));
      n := n + 1;
    }
    if c.bodies != [] { assert ps[n] == Part(10, CodePayload(canon, c)); }
  }

  /** data.drop alone keeps the section, memory.fill alone does not. */
  lemma DropOrFill(canon: bool, c: Contents, spans: seq<Span>)
    requires InOrder(c) && |FlatModule(canon, true, c)| < Pow2(32) && 0 < c.dataSegments < Pow2(32)
    requires Tiles(FlatModule(canon, true, c), 8, |FlatModule(canon, true, c)|, spans)
    requires |c.bodies| == 1 && ValidBody(c.types, c.bodies[0])
    ensures c.bodies[0].exprs == [Instr(Prefixed(0xfc, 9), [U32(0)])] ==>
              exists k :: 0 <= k < |spans| && spans[k].code == 12
    ensures c.bodies[0].exprs == [Instr(Prefixed(0xfc, 11), [Reserved])] ==>
              forall k | 0 <= k < |spans| :: spans[k].code != 12
  {
    hide FlatModule, Placed, Tiles, InOrder, Pow2, ReadCode, IsSection, Payload, EncodeU, CodePayload, Parts,
      ValidBody;
    AllFit(canon, true, c);
    LayoutRoundTrip(canon, true, c, spans);
    WhichParts(canon, true, c);
    var es := c.bodies[0].exprs;
    if es == [Instr(Prefixed(0xfc, 9), [U32(0)])] {
      assert UsesData(es[0]);
      Somewhere(c.bodies, 0);
    }
    if es == [Instr(Prefixed(0xfc, 11), [Reserved])] {
      assert !UsesData(es[0]);
    }
  }
}

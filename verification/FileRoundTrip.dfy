/** What the writer writes, the reader finds: the file WriteModule leaves in its stream is tiled by
    exactly the sections that were written. */
module FileRoundTrip {
  import opened Util
  import opened Powers
  import opened Leb128
  import opened BinaryCodec
  import opened BinaryFormat
  import opened BinaryWriter
  import opened SectionReader

  /** A section as it was written. */
  datatype Part = Part(code: Byte, payload: seq<Byte>)

  function Parts(canon: bool, ss: seq<Section>): seq<Part> {
    if ss == [] then []
    else Parts(canon, ss[..|ss| - 1]) + [Part(ss[|ss| - 1].code, FlatPieces(canon, ss[|ss| - 1].pieces))]
  }

  /** The sections of a file, the DataCount section only when it is needed. */
  function Written(canon: bool, bulkMemory: bool, c: Contents): seq<Part> {
    Parts(canon, c.before)
    + (if bulkMemory && c.dataSegments > 0 && AnyUsesData(c.bodies) then [Part(12, EncodeU(c.dataSegments))]
      else [])
    + (if c.bodies == [] then [] else [Part(10, CodePayload(canon, c))])
    + Parts(canon, c.after)
  }

  function FlatParts(canon: bool, ps: seq<Part>): seq<Byte> {
    if ps == [] then []
      else FlatParts(canon, ps[..|ps| - 1]) + FlatSection(canon, ps[|ps| - 1].code, ps[|ps| - 1].payload)
  }

  lemma {:induction false} FlatJoin(canon: bool, a: seq<Part>, b: seq<Part>)
    ensures FlatParts(canon, a + b) == FlatParts(canon, a) + FlatParts(canon, b)
    decreases |b|
  {
    hide FlatSection;
    if b == [] {
      assert a + b == a;
    } else {
      assert (a + b)[..|a + b| - 1] == a + b[..|b| - 1];
      FlatJoin(canon, a, b[..|b| - 1]);
    }
  }

  lemma {:induction false} FlatSectionsAre(canon: bool, ss: seq<Section>)
    ensures FlatParts(canon, Parts(canon, ss)) == FlatSections(canon, ss)
    decreases |ss|
  {
    hide FlatSection;
    if ss != [] {
      FlatSectionsAre(canon, ss[..|ss| - 1]);
      var last := Part(ss[|ss| - 1].code, FlatPieces(canon, ss[|ss| - 1].pieces));
      assert Parts(canon, ss)[..|Parts(canon, ss)| - 1] == Parts(canon, ss[..|ss| - 1]);
    }
  }

  lemma FlatOne(canon: bool, p: Part)
    ensures FlatParts(canon, [p]) == FlatSection(canon, p.code, p.payload)
  {
    hide FlatSection;
    assert [p][..0] == [];
  }

  lemma FlatJoinFour(canon: bool, a: seq<Part>, b: seq<Part>, c: seq<Part>, d: seq<Part>)
    ensures FlatParts(canon, a + b + c + d)
         == FlatParts(canon, a) + FlatParts(canon, b) + FlatParts(canon, c) + FlatParts(canon, d)
  {
    hide FlatParts;
    FlatJoin(canon, a + b + c, d);
    FlatJoin(canon, a + b, c);
    FlatJoin(canon, a, b);
  }

  lemma {:induction false} FlatIsWritten(canon: bool, bulkMemory: bool, c: Contents)
    ensures FlatModule(canon, bulkMemory, c) == PREAMBLE + FlatParts(canon, Written(canon, bulkMemory, c))
  {
    hide FlatSection, FlatSections, Parts, AnyUsesData, EncodeU, CodePayload, FlatParts;
    var before, after := Parts(canon, c.before), Parts(canon, c.after);
    var count := if bulkMemory && c.dataSegments > 0 && AnyUsesData(c.bodies)
      then [Part(DATA_COUNT, EncodeU(c.dataSegments))] else [];
    var code := if c.bodies == [] then [] else [Part(CODE, CodePayload(canon, c))];
    FlatJoinFour(canon, before, count, code, after);
    FlatSectionsAre(canon, c.before);
    FlatSectionsAre(canon, c.after);
    FlatNone(canon);
    FlatOne(canon, Part(DATA_COUNT, EncodeU(c.dataSegments)));
    FlatOne(canon, Part(CODE, CodePayload(canon, c)));
    Regroup(PREAMBLE, FlatSections(canon, c.before), FlatDataCount(canon, bulkMemory, c), FlatCode(canon, c),
      FlatSections(canon, c.after));
  }

  lemma Regroup(p: seq<Byte>, a: seq<Byte>, b: seq<Byte>, c: seq<Byte>, d: seq<Byte>)
    ensures p + a + b + c + d == p + (a + b + c + d)
  {}

  lemma FlatNone(canon: bool)
    ensures FlatParts(canon, []) == []
  {}

  // ----- reading the layout back -----

  function SpanAt(canon: bool, at: nat, p: Part): Span {
    var start := at + 1 + |SizeLeb(canon, |p.payload|)|;
    Span(p.code, at, start, start + |p.payload|)
  }

  /** Where the sections of a file lie. */
  function Placed(canon: bool, from: nat, ps: seq<Part>): (r: seq<Span>)
    ensures |r| == |ps|
  {
    if ps == [] then []
    else
      var init := ps[..|ps| - 1];
      Placed(canon, from, init) + [SpanAt(canon, from + |FlatParts(canon, init)|, ps[|ps| - 1])]
  }

  lemma SizeBack(canon: bool, size: nat, rest: seq<Byte>)
    requires size < Pow2(32)
    ensures GetU32(SizeLeb(canon, size) + rest) == Got(size, rest)
  {
    hide Pow2, EncodeU, FixedU32;
    if canon {
      U32Back(size, rest);
    } else {
      FixedReadsBack(size, rest);
      assert (FixedU32(size) + rest)[5..] == rest;
    }
  }

  lemma CodeBack(code: Byte, rest: seq<Byte>)
    requires code < 128
    ensures GetU32([code] + rest) == Got(code, rest)
  {
    hide Pow2, GetU32;
    assert EncodeU(code) == [code];
    Small(32);
    U32Back(code, rest);
  }

  /** A written section is found where it was put, with its code and its payload. */
  lemma SectionBack(canon: bool, data: seq<Byte>, pre: seq<Byte>, p: Part, tail: seq<Byte>)
    requires p.code < 128 && |p.payload| < Pow2(32) && data == pre + FlatSection(canon, p.code, p.payload) + tail
    ensures var s := SpanAt(canon, |pre|, p);
            IsSection(data, s) && Payload(data, s) == p.payload
              && s.end == |pre| + |FlatSection(canon, p.code, p.payload)|
  {
    hide Pow2, GetU32, SizeLeb;
    var leb := SizeLeb(canon, |p.payload|);
    var r2 := p.payload + tail;
    var r1 := leb + r2;
    assert data[|pre|..] == [p.code] + r1;
    CodeBack(p.code, r1);
    SizeBack(canon, |p.payload|, r2);
    var s := SpanAt(canon, |pre|, p);
    assert data[s.start..] == r2 && data[s.start..s.end] == p.payload;
  }

  predicate Fits(p: Part) { p.code < SECTION_COUNT && |p.payload| < Pow2(32) }

  lemma {:induction false} PartsBack(canon: bool, pre: seq<Byte>, ps: seq<Part>, tail: seq<Byte>)
    requires forall i | 0 <= i < |ps| :: Fits(ps[i])
    ensures var data, spans := pre + FlatParts(canon, ps) + tail, Placed(canon, |pre|, ps);
            && Tiles(data, |pre|, |pre| + |FlatParts(canon, ps)|, spans)
            && forall i | 0 <= i < |ps| ::
                 spans[i].code == ps[i].code && IsSection(data, spans[i]) && Payload(data, spans[i]) == ps[i].payload
    decreases |ps|
  {
    hide IsSection, FlatSection, Pow2, SpanAt, Payload;
    if ps != [] {
      var init, last := ps[..|ps| - 1], ps[|ps| - 1];
      var one := FlatSection(canon, last.code, last.payload);
      var data := pre + FlatParts(canon, ps) + tail;
      PartsBack(canon, pre, init, one + tail);
      assert data == pre + FlatParts(canon, init) + (one + tail);
      assert data == (pre + FlatParts(canon, init)) + one + tail;
      assert Fits(last);
      SectionBack(canon, data, pre + FlatParts(canon, init), last, tail);
      var s := SpanAt(canon, |pre| + |FlatParts(canon, init)|, last);
      SpanIs(canon, |pre| + |FlatParts(canon, init)|, last);
      TilesSnoc(data, |pre|, Placed(canon, |pre|, init), s);
      forall i | 0 <= i < |ps| - 1
        ensures var t := Placed(canon, |pre|, ps)[i];
                t.code == ps[i].code && IsSection(data, t) && Payload(data, t) == ps[i].payload
      {
        assert init[i] == ps[i] && Placed(canon, |pre|, ps)[i] == Placed(canon, |pre|, init)[i];
      }
    }
  }

  lemma SpanIs(canon: bool, at: nat, p: Part)
    ensures SpanAt(canon, at, p).header == at && SpanAt(canon, at, p).code == p.code
  {}

  /** The file that WriteModule leaves is tiled, from behind the preamble to its end, by exactly the
      sections written: in that order, with those codes and those payloads, whatever the form of
      their sizes.  No other tiling exists. */
  lemma LayoutRoundTrip(canon: bool, bulkMemory: bool, c: Contents, b: seq<Span>)
    requires forall p | p in Written(canon, bulkMemory, c) :: Fits(p)
    ensures var data, spans := FlatModule(canon, bulkMemory, c), Placed(canon, 8, Written(canon, bulkMemory, c));
            && [0x00, 0x61, 0x73, 0x6d, 0x01, 0x00, 0x00, 0x00] <= data
            && Tiles(data, 8, |data|, spans)
            && (forall i | 0 <= i < |spans| ::
                  spans[i].code == Written(canon, bulkMemory, c)[i].code
                  && IsSection(data, spans[i]) && Payload(data, spans[i]) == Written(canon, bulkMemory, c)[i].payload)
            && (Tiles(data, 8, |data|, b) ==> b == spans)
  {
    hide IsSection, FlatParts, Pow2, Payload, Placed, Written, FlatModule, Fits, Tiles;
    var data, ps := FlatModule(canon, bulkMemory, c), Written(canon, bulkMemory, c);
    FlatIsWritten(canon, bulkMemory, c);
    forall i | 0 <= i < |ps| ensures Fits(ps[i]) {}
    PartsBack(canon, PREAMBLE, ps, []);
    assert data == PREAMBLE + FlatParts(canon, ps) + [];
    var spans := Placed(canon, 8, ps);
    if Tiles(data, 8, |data|, b) {
      TilesUnique(data, 8, |data|, spans, b);
      TilesUnique(data, 8, |data|, b, spans);
      assert b[..|b|] == b;
    }
  }

  // ----- the order of the sections -----

  predicate Rising(ss: seq<Section>) {
    forall i, j | 0 <= i < j < |ss| && ss[i].code != 0 && ss[j].code != 0 :: Before(ss[i].code, ss[j].code)
  }

  /** The sections before the data count and behind the code are in order and belong there. */
  predicate InOrder(c: Contents) {
    && Rising(c.before) && (forall i | 0 <= i < |c.before| && c.before[i].code != 0 :: Before(c.before[i].code, 12))
    && Rising(c.after) && (forall i | 0 <= i < |c.after| && c.after[i].code != 0 :: Before(10, c.after[i].code))
  }

  predicate RisingParts(ps: seq<Part>) {
    forall i, j | 0 <= i < j < |ps| && ps[i].code != 0 && ps[j].code != 0 :: Before(ps[i].code, ps[j].code)
  }

  lemma RisingJoin(a: seq<Part>, b: seq<Part>)
    requires RisingParts(a) && RisingParts(b)
    requires forall i, j | 0 <= i < |a| && 0 <= j < |b| && a[i].code != 0 && b[j].code != 0 ::
             Before(a[i].code, b[j].code)
    ensures RisingParts(a + b)
  {
    hide Before;
  }

  lemma {:induction false} PartsAt(canon: bool, ss: seq<Section>)
    ensures |Parts(canon, ss)| == |ss| && forall i | 0 <= i < |ss| :: Parts(canon, ss)[i].code == ss[i].code
    decreases |ss|
  {
    if ss != [] { PartsAt(canon, ss[..|ss| - 1]); }
  }

  lemma PlacesDecide(code: nat)
    ensures forall b: nat | b in {10, 11, 12} ::
              (Before(code, b) <==> 0 < code < SECTION_COUNT && Order(code) < Order(b))
              && (Before(b, code) <==> 0 < code < SECTION_COUNT && Order(b) < Order(code))
  {
    hide Before, Order;
    forall b: nat | b in {10, 11, 12}
      ensures (Before(code, b) <==> 0 < code < SECTION_COUNT && Order(code) < Order(b))
      ensures (Before(b, code) <==> 0 < code < SECTION_COUNT && Order(b) < Order(code))
    {
      if 0 < code < SECTION_COUNT {
        OrderIsPlace(code, b);
        OrderIsPlace(b, code);
      } else {
        if Before(code, b) { BeforeIsStrict(code, b); }
        if Before(b, code) { BeforeIsStrict(b, code); }
      }
    }
  }

  /** What comes before the data count comes before the code too, and only the data segments come
      behind it. */
  lemma Around(code: nat)
    ensures Before(code, 12) ==> Before(code, 10) && Before(code, 11)
    ensures Before(10, code) ==> code == 11
    ensures Before(12, 10) && Before(12, 11) && Before(10, 11)
  {
    hide Before;
    PlacesDecide(code);
    PlacesDecide(10);
    PlacesDecide(12);
  }

  /** What WriteModule writes is in order when the sections around the code are. */
  lemma WrittenRising(canon: bool, bulkMemory: bool, c: Contents)
    requires InOrder(c)
    ensures RisingParts(Written(canon, bulkMemory, c))
    ensures forall p | p in Written(canon, bulkMemory, c) :: p.code <= 13
  {
    hide Before, Parts, CodePayload, AnyUsesData, EncodeU;
    var before, after := Parts(canon, c.before), Parts(canon, c.after);
    var count := if bulkMemory && c.dataSegments > 0 && AnyUsesData(c.bodies)
      then [Part(DATA_COUNT, EncodeU(c.dataSegments))] else [];
    var code := if c.bodies == [] then [] else [Part(CODE, CodePayload(canon, c))];
    PartsAt(canon, c.before);
    PartsAt(canon, c.after);
    forall x: nat {
      Around(x);
    }
    RisingJoin(before, count);
    RisingJoin(before + count, code);
    RisingJoin(before + count + code, after);
    forall x: nat | Before(x, 12) ensures x <= 13 { BeforeIsStrict(x, 12); }
  }

  // ----- writing and reading a file -----

  /** A known section's reader takes its payload whole; a custom section's reader does, or may fail. */
  predicate Readable(o: Options, p: Part, start: nat) {
    if p.code == 0 then
      var v := Custom(o, start, p.payload).v;
      if v.ok then v.used == |p.payload| else !o.failOnCustomSectionError
    else
      Run(o.utf8, o.known(p.code, start), [], p.payload) == Verdict(true, |p.payload|)
  }

  predicate IsNames(o: Options, p: Part, start: nat) { p.code == 0 && Custom(o, start, p.payload).names }

  /** All sections readable, none that is not enabled, and no known one behind the names. */
  predicate Acceptable(o: Options, canon: bool, ps: seq<Part>) {
    var spans := Placed(canon, 8, ps);
    && (forall i | 0 <= i < |ps| ::
          && Readable(o, ps[i], spans[i].start)
          && (ps[i].code == 13 ==> o.exceptions) && (ps[i].code == 12 ==> o.bulkMemory))
    && forall i, j | 0 <= i < j < |ps| && ps[j].code != 0 :: !IsNames(o, ps[i], spans[i].start)
  }

  lemma {:induction false} PayloadsFit(canon: bool, ps: seq<Part>)
    ensures forall i | 0 <= i < |ps| :: |ps[i].payload| <= |FlatParts(canon, ps)|
    decreases |ps|
  {
    hide SizeLeb;
    if ps != [] { PayloadsFit(canon, ps[..|ps| - 1]); }
  }

  lemma AllFit(canon: bool, bulkMemory: bool, c: Contents)
    requires InOrder(c) && |FlatModule(canon, bulkMemory, c)| < Pow2(32)
    ensures forall p | p in Written(canon, bulkMemory, c) :: Fits(p)
  {
    hide FlatModule, Written, InOrder, FlatParts, Pow2;
    FlatIsWritten(canon, bulkMemory, c);
    PayloadsFit(canon, Written(canon, bulkMemory, c));
    WrittenRising(canon, bulkMemory, c);
  }

  /** What was written is a good file exactly for a reader that takes its sections one by one; their
      order never stands in the way. */
  lemma WrittenGood(o: Options, canon: bool, bulkMemory: bool, c: Contents)
    requires InOrder(c) && |FlatModule(canon, bulkMemory, c)| < Pow2(32)
    ensures GoodFile(o, FlatModule(canon, bulkMemory, c), 8, Placed(canon, 8, Written(canon, bulkMemory, c)))
       <==> Acceptable(o, canon, Written(canon, bulkMemory, c))
  {
    hide IsSection, FlatModule, Written, Placed, Tiles, Custom, Run, Before, Pow2, InOrder;
    var data, ps := FlatModule(canon, bulkMemory, c), Written(canon, bulkMemory, c);
    var spans := Placed(canon, 8, ps);
    AllFit(canon, bulkMemory, c);
    WrittenRising(canon, bulkMemory, c);
    LayoutRoundTrip(canon, bulkMemory, c, spans);
    TilesInFile(data, 8, |data|, spans);
    forall i | 0 <= i < |spans|
      ensures ContentsOk(o, data, spans[i]) <==> Readable(o, ps[i], spans[i].start)
      ensures HasNames(o, data, spans[i]) <==> IsNames(o, ps[i], spans[i].start)
    {
      SpanSize(data, spans[i]);
    }
    OrderAside(o, canon, data, ps, spans);
  }

  /** Sections in order belong to the file if they are enabled and not behind the names. */
  lemma OrderAside(o: Options, canon: bool, data: seq<Byte>, ps: seq<Part>, spans: seq<Span>)
    requires |spans| == |ps| && InFile(data, spans) && RisingParts(ps) && spans == Placed(canon, 8, ps)
    requires forall i | 0 <= i < |ps| :: ps[i].code <= 13 && spans[i].code == ps[i].code
    requires forall i | 0 <= i < |ps| :: ContentsOk(o, data, spans[i]) <==> Readable(o, ps[i], spans[i].start)
    requires forall i | 0 <= i < |ps| :: HasNames(o, data, spans[i]) <==> IsNames(o, ps[i], spans[i].start)
    ensures Sound(o, data, spans) <==> Acceptable(o, canon, ps)
  {
    hide IsSection, Placed, Readable, IsNames, ContentsOk, HasNames, Before;
    if Sound(o, data, spans) {
      forall i, j | 0 <= i < j < |ps| && ps[j].code != 0 ensures !IsNames(o, ps[i], spans[i].start) {
        assert Belongs(o, data, spans[..j], spans[j]) && spans[..j][i] == spans[i];
      }
      forall i | 0 <= i < |ps|
        ensures Readable(o, ps[i], spans[i].start)
        ensures (ps[i].code == 13 ==> o.exceptions) && (ps[i].code == 12 ==> o.bulkMemory)
      {
        assert Belongs(o, data, spans[..i], spans[i]);
      }
    }
    if Acceptable(o, canon, ps) {
      forall i | 0 <= i < |spans| ensures Belongs(o, data, spans[..i], spans[i]) && ContentsOk(o, data, spans[i]) {
        assert Readable(o, ps[i], spans[i].start);
      }
    }
  }

  lemma SpanSize(data: seq<Byte>, s: Span)
    requires IsSection(data, s)
    ensures |Payload(data, s)| == s.end - s.start
  {}

  /** A file is written and read.  If its sections were given in order, the reader accepts it exactly if
      it takes the sections one by one, and finds exactly the sections written. */
  method WriteAndRead(c: Contents, canon: bool, bulkMemory: bool, o: Options) returns (ok: bool, spans: seq<Span>)
    requires |FlatModule(canon, bulkMemory, c)| < Pow2(32) && c.dataSegments < Pow2(32) && InOrder(c)
    ensures ok <==> Acceptable(o, canon, Written(canon, bulkMemory, c))
    ensures ok ==> spans == Placed(canon, 8, Written(canon, bulkMemory, c))
  {
    hide FlatModule, Written, Placed, Tiles, Fits, Acceptable, Pow2, InOrder;
    var stream := new Stream();
    var writer := new BinaryWriter(stream, canon, bulkMemory, c.types);
    writer.WriteModule(c);
    AllFit(canon, bulkMemory, c);
    LayoutRoundTrip(canon, bulkMemory, c, []);
    var reader := new BinaryReader(stream.data, o, 8);
    ok, spans := reader.ReadSections();
    WrittenGood(o, canon, bulkMemory, c);
    LayoutRoundTrip(canon, bulkMemory, c, spans);
  }
}

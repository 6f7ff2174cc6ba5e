/** The binary writer's output stream and its in-place size fixups (src/stream.cc,
    src/binary-writer.cc): sizes are guessed, payloads moved when a size needs more bytes, and a
    whole section is deleted when it turns out not to be needed.  The finished buffer is what a
    flat encoder would have produced. */
module BinaryWriter {
  import opened Util
  import Wasm
  import opened Powers
  import opened Leb128
  import opened BinaryCodec
  import opened BinaryFormat

  function ZeroBytes(n: nat): (p: seq<Byte>)
    ensures |p| == n
  {
    seq(n, _ => 0)
  }

  /** `src` in place of what is at `at`; the data grows when `src` reaches beyond its end. */
  function Overlay(data: seq<Byte>, at: nat, src: seq<Byte>): seq<Byte>
    requires at <= |data|
  {
    data[..at] + src + (if at + |src| <= |data| then data[at + |src|..] else [])
  }

  /** A growable byte buffer with a position to write at. */
  class Stream {
    var data: seq<Byte>
    var offset: nat

    constructor ()
      ensures data == [] && offset == 0
    {
      data, offset := [], 0;
    }

    method WriteDataAt(at: nat, src: seq<Byte>)
      requires at <= |data|
      modifies this`data
      ensures data == Overlay(old(data), at, src)
    {
      data := data[..at] + src + (if at + |src| <= |data| then data[at + |src|..] else []);
    }

    method WriteData(src: seq<Byte>)
      requires offset <= |data|
      modifies this
      ensures data == Overlay(old(data), old(offset), src) && offset == old(offset) + |src|
    {
      WriteDataAt(offset, src);
      offset := offset + |src|;
    }

    /** memmove within the buffer, which grows as needed. */
    method MoveData(dst: nat, src: nat, size: nat)
      requires src + size <= |data|
      modifies this`data
      ensures var grown := old(data) + ZeroBytes(if dst + size > |old(data)| then dst + size - |old(data)| else 0);
              data == Overlay(grown, dst, old(data)[src..src + size])
    {
      var moved := data[src..src + size];
      if dst + size > |data| {
        data := data + ZeroBytes(dst + size - |data|);
      } else {
        assert data + ZeroBytes(0) == data;
      }
      data := data[..dst] + moved + data[dst + size..];
    }

    method AddOffset(delta: int)
      requires offset + delta >= 0
      modifies this`offset
      ensures offset == old(offset) + delta
    {
      offset := offset + delta;
    }

    method Truncate(size: nat)
      requires size <= |data|
      modifies this
      ensures data == old(data)[..size] && offset == if old(offset) > size then size else old(offset)
    {
      data := data[..size];
      if offset > size {
        offset := size;
      }
    }
  }

  // ----- the flat encoder -----

  /** A size field: as short as possible, or always five bytes. */
  function SizeLeb(canonicalize: bool, size: nat): seq<Byte> {
    if canonicalize then EncodeU(size) else FixedU32(size)
  }

  function Sized(canonicalize: bool, payload: seq<Byte>): seq<Byte> { SizeLeb(canonicalize, |payload|) + payload }

  /** A part of a section's payload: bytes, or a subsection with its number. */
  datatype Piece = Raw(bytes: seq<Byte>) | Subsection(id: nat, bytes: seq<Byte>)

  datatype Section = Section(code: Byte, pieces: seq<Piece>)

  type Positive = n: nat | n > 0 witness 1

  /** Consecutive locals of one type. */
  datatype LocalDecl = LocalDecl(count: Positive, ty: ValType)

  datatype Body = Body(locals: seq<LocalDecl>, exprs: seq<Expr>)

  /** A module, as far as the layout of the file is concerned. */
  datatype Contents = Contents(
    types: seq<FuncSig>, before: seq<Section>, dataSegments: nat, bodies: seq<Body>, after: seq<Section>)

  const DATA_COUNT: Byte := 12
  const CODE: Byte := 10
  const PREAMBLE: seq<Byte> := [0x00, 0x61, 0x73, 0x6d, 0x01, 0x00, 0x00, 0x00]

  function FlatPiece(canon: bool, p: Piece): seq<Byte> {
    match p
    case Raw(bytes) => bytes
    case Subsection(id, bytes) => EncodeU(id) + Sized(canon, bytes)
  }

  function FlatPieces(canon: bool, ps: seq<Piece>): seq<Byte> {
    if ps == [] then [] else FlatPieces(canon, ps[..|ps| - 1]) + FlatPiece(canon, ps[|ps| - 1])
  }

  function FlatSection(canon: bool, code: Byte, payload: seq<Byte>): seq<Byte> { [code] + Sized(canon, payload) }

  function FlatSections(canon: bool, ss: seq<Section>): seq<Byte> {
    if ss == [] then []
    else FlatSections(canon, ss[..|ss| - 1])
         + FlatSection(canon, ss[|ss| - 1].code, FlatPieces(canon, ss[|ss| - 1].pieces))
  }

  function EncodeDecls(ds: seq<LocalDecl>): seq<Byte> {
    if ds == [] then [] else EncodeDecls(ds[..|ds| - 1]) + EncodeDecl(ds[|ds| - 1])
  }

  function EncodeDecl(d: LocalDecl): seq<Byte> { EncodeU(d.count) + EncodeS(TypeCode(d.ty)) }

  function EncodeLocals(ds: seq<LocalDecl>): seq<Byte> { EncodeU(|ds|) + EncodeDecls(ds) }

  function BodyBytes(types: seq<FuncSig>, b: Body): seq<Byte> {
    EncodeLocals(b.locals) + EncodeList(types, b.exprs) + [END]
  }

  function FlatBodies(canon: bool, types: seq<FuncSig>, bs: seq<Body>): seq<Byte> {
    if bs == [] then [] else FlatBodies(canon, types, bs[..|bs| - 1]) + Sized(canon, BodyBytes(types, bs[|bs| - 1]))
  }

  function CodePayload(canon: bool, c: Contents): seq<Byte> {
    EncodeU(|c.bodies|) + FlatBodies(canon, c.types, c.bodies)
  }

  /** memory.init or data.drop occurs. */
  predicate UsesData(e: Expr)
    decreases e
  {
    match e
    case Instr(op, _) => UsesDataSegment(op)
    case BrTable(_, _) => false
    case TypedSelect(_) => false
    case Block(_, body) => UsesDataList(body)
    case Loop(_, body) => UsesDataList(body)
    case If(_, then_, else_) => UsesDataList(then_) || UsesDataList(else_)
    case Try(_, body, catch_) => UsesDataList(body) || UsesDataList(catch_)
  }

  predicate UsesDataList(es: seq<Expr>)
    decreases es
  {
    exists i :: 0 <= i < |es| && UsesData(es[i])
  }

  predicate AnyUsesData(bs: seq<Body>) { exists i :: 0 <= i < |bs| && UsesDataList(bs[i].exprs) }

  /** A DataCount section is there exactly when bulk memory is on, there are data segments, and some
      function needs it. */
  function FlatDataCount(canon: bool, bulkMemory: bool, c: Contents): seq<Byte> {
    if bulkMemory && c.dataSegments > 0 && AnyUsesData(c.bodies)
      then FlatSection(canon, DATA_COUNT, EncodeU(c.dataSegments)) else []
  }

  function FlatCode(canon: bool, c: Contents): seq<Byte> {
    if c.bodies == [] then [] else FlatSection(canon, CODE, CodePayload(canon, c))
  }

  function FlatModule(canon: bool, bulkMemory: bool, c: Contents): seq<Byte> {
    PREAMBLE + FlatSections(canon, c.before) + FlatDataCount(canon, bulkMemory, c) + FlatCode(canon, c)
    + FlatSections(canon, c.after)
  }

  // ----- the writer -----

  const LEB_SECTION_SIZE_GUESS := 1

  class BinaryWriter {
    const stream: Stream
    const canonicalizeLebs: bool
    const bulkMemory: bool
    const types: seq<FuncSig>

    var lastSectionOffset: nat
    var lastSectionLebSizeGuess: nat
    var lastSubsectionOffset: nat
    var lastSubsectionLebSizeGuess: nat
    var dataCountStart: nat
    var dataCountEnd: nat
    var hasDataSegmentInstruction: bool

    constructor (stream: Stream, canonicalizeLebs: bool, bulkMemory: bool, types: seq<FuncSig>)
      ensures this.stream == stream && this.canonicalizeLebs == canonicalizeLebs && this.bulkMemory == bulkMemory
      ensures this.types == types && Closed() && !hasDataSegmentInstruction && dataCountStart == dataCountEnd == 0
    {
      this.stream, this.canonicalizeLebs, this.bulkMemory, this.types := stream, canonicalizeLebs, bulkMemory, types;
      lastSectionOffset, lastSectionLebSizeGuess, lastSubsectionOffset, lastSubsectionLebSizeGuess := 0, 0, 0, 0;
      dataCountStart, dataCountEnd, hasDataSegmentInstruction := 0, 0, false;
    }

    /** No section is open. */
    predicate Closed()
      reads this
    {
      lastSectionLebSizeGuess == 0 && lastSubsectionLebSizeGuess == 0
    }

    /** The stream holds exactly `bytes`, and writing goes on at their end. */
    predicate Holds(bytes: seq<Byte>)
      reads stream
    {
      stream.data == bytes && stream.offset == |bytes|
    }

    method Emit(bytes: seq<Byte>)
      requires Holds(stream.data)
      modifies stream
      ensures Holds(old(stream.data) + bytes)
    {
      stream.WriteData(bytes);
    }

    /** How many bytes are reserved for a size. */
    function Space(): nat { if canonicalizeLebs then LEB_SECTION_SIZE_GUESS else 5 }

    method WriteU32Leb128Space(lebSizeGuess: nat) returns (result: nat)
      requires Holds(stream.data) && lebSizeGuess == LEB_SECTION_SIZE_GUESS
      modifies stream
      ensures result == |old(stream.data)| && Holds(old(stream.data) + ZeroBytes(Space()))
    {
      result := stream.offset;
      Emit(ZeroBytes(if canonicalizeLebs then lebSizeGuess else 5));
    }

    /** The size before `payload` is filled in; the payload moves when the size is longer than
        guessed. */
    method WriteFixupU32Leb128Size(offset: nat, lebSizeGuess: nat, ghost pre: seq<Byte>, ghost payload: seq<Byte>)
      returns (delta: int)
      requires lebSizeGuess == LEB_SECTION_SIZE_GUESS && offset == |pre|
      requires Holds(pre + ZeroBytes(Space()) + payload)
      modifies stream
      ensures Holds(pre + Sized(canonicalizeLebs, payload))
    {
      if canonicalizeLebs {
        var size := stream.offset - offset - lebSizeGuess;
        var lebSize := U32Leb128Length(size);
        delta := lebSize - lebSizeGuess;
        if delta != 0 {
          MovePayload(offset, lebSize, size, pre, payload);
        }
        FillIn(offset, EncodeU(size), pre, payload, lebSize);
        stream.AddOffset(delta);
      } else {
        var size := stream.offset - offset - 5;
        FillIn(offset, FixedU32(size), pre, payload, 5);
        delta := 0;
      }
    }

    method MovePayload(offset: nat, lebSize: nat, size: nat, ghost pre: seq<Byte>, ghost payload: seq<Byte>)
      requires offset == |pre| && size == |payload| && lebSize > 1 && stream.data == pre + ZeroBytes(1) + payload
      modifies stream`data
      ensures |stream.data| == |pre| + lebSize + size && stream.data[..offset] == pre
              && stream.data[offset + lebSize..] == payload
    {
      ghost var was := stream.data;
      assert was[offset + 1..offset + 1 + size] == payload;
      stream.MoveData(offset + lebSize, offset + 1, size);
      assert stream.data[..offset] == was[..offset] == pre;
    }

    /** The bytes of a size go where space was made for them. */
    method FillIn(offset: nat, leb: seq<Byte>, ghost pre: seq<Byte>, ghost payload: seq<Byte>, ghost space: nat)
      requires offset == |pre| && |leb| == space && |stream.data| == |pre| + space + |payload|
      requires stream.data[..offset] == pre && stream.data[offset + space..] == payload
      modifies stream`data
      ensures stream.data == pre + (leb + payload)
    {
      stream.WriteDataAt(offset, leb);
      assert pre + leb + payload == pre + (leb + payload);
    }

    // ----- sections -----

    method BeginKnownSection(code: Byte)
      requires Holds(stream.data) && lastSectionLebSizeGuess == 0
      modifies stream, this`lastSectionOffset, this`lastSectionLebSizeGuess
      ensures Holds(old(stream.data) + [code] + ZeroBytes(Space()))
      ensures lastSectionOffset == |old(stream.data)| + 1 && lastSectionLebSizeGuess == LEB_SECTION_SIZE_GUESS
    {
      Emit([code]);
      lastSectionLebSizeGuess := LEB_SECTION_SIZE_GUESS;
      lastSectionOffset := WriteU32Leb128Space(LEB_SECTION_SIZE_GUESS);
    }

    method EndSection(ghost pre: seq<Byte>, ghost payload: seq<Byte>)
      requires lastSectionLebSizeGuess == LEB_SECTION_SIZE_GUESS && lastSectionOffset == |pre|
      requires Holds(pre + ZeroBytes(Space()) + payload)
      modifies stream, this`lastSectionLebSizeGuess
      ensures Holds(pre + Sized(canonicalizeLebs, payload)) && lastSectionLebSizeGuess == 0
    {
      var delta := WriteFixupU32Leb128Size(lastSectionOffset, lastSectionLebSizeGuess, pre, payload);
      lastSectionLebSizeGuess := 0;
    }

    method BeginSubsection()
      requires Holds(stream.data) && lastSubsectionLebSizeGuess == 0
      modifies stream, this`lastSubsectionOffset, this`lastSubsectionLebSizeGuess
      ensures Holds(old(stream.data) + ZeroBytes(Space()))
      ensures lastSubsectionOffset == |old(stream.data)| && lastSubsectionLebSizeGuess == LEB_SECTION_SIZE_GUESS
    {
      lastSubsectionLebSizeGuess := LEB_SECTION_SIZE_GUESS;
      lastSubsectionOffset := WriteU32Leb128Space(LEB_SECTION_SIZE_GUESS);
    }

    method EndSubsection(ghost pre: seq<Byte>, ghost payload: seq<Byte>)
      requires lastSubsectionLebSizeGuess == LEB_SECTION_SIZE_GUESS && lastSubsectionOffset == |pre|
      requires Holds(pre + ZeroBytes(Space()) + payload)
      modifies stream, this`lastSubsectionLebSizeGuess
      ensures Holds(pre + Sized(canonicalizeLebs, payload)) && lastSubsectionLebSizeGuess == 0
    {
      var delta := WriteFixupU32Leb128Size(lastSubsectionOffset, lastSubsectionLebSizeGuess, pre, payload);
      lastSubsectionLebSizeGuess := 0;
    }

    method WritePiece(p: Piece)
      requires Holds(stream.data) && lastSubsectionLebSizeGuess == 0
      modifies stream, this`lastSubsectionOffset, this`lastSubsectionLebSizeGuess
      ensures Holds(old(stream.data) + FlatPiece(canonicalizeLebs, p)) && lastSubsectionLebSizeGuess == 0
    {
      match p
      case Raw(bytes) => Emit(bytes);
      case Subsection(id, bytes) =>
        Emit(EncodeU(id));
        ghost var pre := stream.data;
        BeginSubsection();
        Emit(bytes);
        EndSubsection(pre, bytes);
        assert pre + Sized(canonicalizeLebs, bytes)
          == old(stream.data) + (EncodeU(id) + Sized(canonicalizeLebs, bytes));
    }

    method WriteSection(s: Section)
      requires Holds(stream.data) && Closed()
      modifies stream, this`lastSectionOffset, this`lastSectionLebSizeGuess, this`lastSubsectionOffset,
               this`lastSubsectionLebSizeGuess
      ensures Holds(old(stream.data) + FlatSection(canonicalizeLebs, s.code, FlatPieces(canonicalizeLebs, s.pieces)))
              && Closed()
    {
      hide FlatPiece, Sized;
      ghost var pre := stream.data + [s.code];
      BeginKnownSection(s.code);
      ghost var start := stream.data;
      assert start + [] == start;
      for i := 0 to |s.pieces|
        invariant Holds(start + FlatPieces(canonicalizeLebs, s.pieces[..i])) && lastSubsectionLebSizeGuess == 0
        invariant lastSectionLebSizeGuess == LEB_SECTION_SIZE_GUESS && lastSectionOffset == |pre|
      {
        WritePiece(s.pieces[i]);
        PiecesSnoc(s.pieces, i);
        assert start + (FlatPieces(canonicalizeLebs, s.pieces[..i]) + FlatPiece(canonicalizeLebs, s.pieces[i]))
            == start + FlatPieces(canonicalizeLebs, s.pieces[..i]) + FlatPiece(canonicalizeLebs, s.pieces[i]);
      }
      assert s.pieces[..|s.pieces|] == s.pieces;
      EndSection(pre, FlatPieces(canonicalizeLebs, s.pieces));
      assert pre + Sized(canonicalizeLebs, FlatPieces(canonicalizeLebs, s.pieces))
          == old(stream.data) + ([s.code] + Sized(canonicalizeLebs, FlatPieces(canonicalizeLebs, s.pieces)));
    }

    lemma PiecesSnoc(ps: seq<Piece>, i: nat)
      requires i < |ps|
      ensures FlatPieces(canonicalizeLebs, ps[..i + 1])
              == FlatPieces(canonicalizeLebs, ps[..i]) + FlatPiece(canonicalizeLebs, ps[i])
    {
      assert ps[..i + 1][..i] == ps[..i];
    }

    method WriteSections(ss: seq<Section>)
      requires Holds(stream.data) && Closed()
      modifies stream, this`lastSectionOffset, this`lastSectionLebSizeGuess, this`lastSubsectionOffset,
               this`lastSubsectionLebSizeGuess
      ensures Holds(old(stream.data) + FlatSections(canonicalizeLebs, ss)) && Closed()
    {
      hide FlatSection, FlatPieces;
      ghost var start := stream.data;
      assert start + [] == start;
      for i := 0 to |ss|
        invariant Holds(start + FlatSections(canonicalizeLebs, ss[..i])) && Closed()
      {
        WriteSection(ss[i]);
        ghost var one := FlatSection(canonicalizeLebs, ss[i].code, FlatPieces(canonicalizeLebs, ss[i].pieces));
        assert ss[..i + 1][..i] == ss[..i];
        assert start + (FlatSections(canonicalizeLebs, ss[..i]) + one)
          == start + FlatSections(canonicalizeLebs, ss[..i]) + one;
      }
      assert ss[..|ss|] == ss;
    }

    // ----- expressions -----

    method WriteInstr(op: Opcode, imms: seq<Imm>)
      requires Holds(stream.data)
      modifies stream, this`hasDataSegmentInstruction
      ensures Holds(old(stream.data) + EncodeExpr(types, Instr(op, imms)))
      ensures hasDataSegmentInstruction == (old(hasDataSegmentInstruction) || UsesDataSegment(op))
    {
      hide EncodeOpcode, EncodeImms;
      ghost var start := stream.data;
      Emit(EncodeOpcode(op));
      Emit(EncodeImms(imms));
      if UsesDataSegment(op) {
        hasDataSegmentInstruction := true;
      }
      assert stream.data == start + (EncodeOpcode(op) + EncodeImms(imms));
    }

    method WriteBrTable(targets: seq<nat>, default_: nat)
      requires Holds(stream.data)
      modifies stream
      ensures Holds(old(stream.data) + EncodeExpr(types, BrTable(targets, default_)))
    {
      hide EncodeTargets, EncodeU;
      ghost var start := stream.data;
      Emit([BR_TABLE]);
      Emit(EncodeU(|targets|));
      Emit(EncodeTargets(targets));
      Emit(EncodeU(default_));
      assert stream.data == start + ([BR_TABLE] + EncodeU(|targets|) + EncodeTargets(targets) + EncodeU(default_));
    }

    method WriteTypedSelect(ty: ValType)
      requires Holds(stream.data)
      modifies stream
      ensures Holds(old(stream.data) + EncodeExpr(types, TypedSelect(ty)))
    {
      hide EncodeU, EncodeS;
      ghost var start := stream.data;
      Emit([SELECT_T]);
      Emit(EncodeU(1));
      Emit(EncodeS(TypeCode(ty)));
      assert stream.data == start + ([SELECT_T] + EncodeU(1) + EncodeS(TypeCode(ty)));
    }

    method WriteExpr(e: Expr)
      requires Holds(stream.data)
      modifies stream, this`hasDataSegmentInstruction
      ensures Holds(old(stream.data) + EncodeExpr(types, e))
      ensures hasDataSegmentInstruction == (old(hasDataSegmentInstruction) || UsesData(e))
      decreases e, 1
    {
      hide EncodeExpr, UsesDataList, UsesDataSegment;
      match e
      case Instr(op, imms) => WriteInstr(op, imms);
      case BrTable(targets, default_) => WriteBrTable(targets, default_);
      case TypedSelect(ty) => WriteTypedSelect(ty);
      case _ => WriteNested(e);
    }

    method WriteNested(e: Expr)
      requires Holds(stream.data) && (e.Block? || e.Loop? || e.If? || e.Try?)
      modifies stream, this`hasDataSegmentInstruction
      ensures Holds(old(stream.data) + EncodeExpr(types, e))
      ensures hasDataSegmentInstruction == (old(hasDataSegmentInstruction) || UsesData(e))
      decreases e, 0
    {
      hide EncodeExpr, EncodeList, UsesDataList, EncodeS, SigCode;
      ghost var start := stream.data;
      NestedIs(start, e);
      var op := if e.Block? then BLOCK else if e.Loop? then LOOP else if e.If? then IF else TRY;
      Emit([op]);
      Emit(EncodeS(SigCode(types, e.sig)));
      WriteExprList(if e.If? then e.then_ else e.body);
      if e.If? {
        if e.else_ != [] {
          Emit([ELSE]);
          WriteExprList(e.else_);
        } else {
          NoUse();
        }
      } else if e.Try? {
        Emit([CATCH]);
        WriteExprList(e.catch_);
      }
      Emit([END]);
    }

    /** The bytes of an expression with lists, in the order in which they are emitted. */
    lemma NestedIs(start: seq<Byte>, e: Expr)
      requires e.Block? || e.Loop? || e.If? || e.Try?
      ensures var op := if e.Block? then BLOCK else if e.Loop? then LOOP else if e.If? then IF else TRY;
              var first := start + [op] + EncodeS(SigCode(types, e.sig))
                           + EncodeList(types, if e.If? then e.then_ else e.body);
              var both := if e.If? then (if e.else_ != [] then first + [ELSE] + EncodeList(types, e.else_) else first)
                else if e.Try? then first + [CATCH] + EncodeList(types, e.catch_) else first;
              start + EncodeExpr(types, e) == both + [END]
    {
      hide EncodeList, EncodeS, SigCode;
    }

    lemma NoUse()
      ensures !UsesDataList([])
    {}

    method WriteExprList(es: seq<Expr>)
      requires Holds(stream.data)
      modifies stream, this`hasDataSegmentInstruction
      ensures Holds(old(stream.data) + EncodeList(types, es))
      ensures hasDataSegmentInstruction == (old(hasDataSegmentInstruction) || UsesDataList(es))
      decreases es, 2
    {
      hide EncodeExpr, UsesData;
      if es == [] {
        assert stream.data + [] == stream.data;
      } else {
        ghost var start := stream.data;
        WriteExpr(es[0]);
        WriteExprList(es[1..]);
        assert start + (EncodeExpr(types, es[0]) + EncodeList(types, es[1..]))
          == start + EncodeExpr(types, es[0]) + EncodeList(types, es[1..]);
        UsesFirst(es);
      }
    }

    lemma UsesFirst(es: seq<Expr>)
      requires es != []
      ensures UsesDataList(es) <==> UsesData(es[0]) || UsesDataList(es[1..])
    {
      if UsesDataList(es) {
        var i :| 0 <= i < |es| && UsesData(es[i]);
        if i > 0 { assert es[1..][i - 1] == es[i]; }
      }
      if UsesDataList(es[1..]) {
        var i :| 0 <= i < |es[1..]| && UsesData(es[1..][i]);
        assert es[i + 1] == es[1..][i];
      }
    }

    // ----- modules -----

    method WriteFuncLocals(ds: seq<LocalDecl>)
      requires Holds(stream.data)
      modifies stream
      ensures Holds(old(stream.data) + EncodeLocals(ds))
    {
      hide EncodeU, EncodeS;
      ghost var before := stream.data;
      Emit(EncodeU(|ds|));
      ghost var start := stream.data;
      assert start + [] == start;
      for i := 0 to |ds|
        invariant Holds(start + EncodeDecls(ds[..i]))
      {
        ghost var was := stream.data;
        Emit(EncodeU(ds[i].count));
        Emit(EncodeS(TypeCode(ds[i].ty)));
        assert stream.data == was + EncodeDecl(ds[i]);
        assert ds[..i + 1][..i] == ds[..i];
        assert start + (EncodeDecls(ds[..i]) + EncodeDecl(ds[i])) == was + EncodeDecl(ds[i]);
      }
      assert ds[..|ds|] == ds;
      assert before + (EncodeU(|ds|) + EncodeDecls(ds)) == start + EncodeDecls(ds);
    }

    method WriteFunc(b: Body)
      requires Holds(stream.data)
      modifies stream, this`hasDataSegmentInstruction
      ensures Holds(old(stream.data) + BodyBytes(types, b))
      ensures hasDataSegmentInstruction == (old(hasDataSegmentInstruction) || UsesDataList(b.exprs))
    {
      hide EncodeList, UsesDataList, EncodeLocals;
      ghost var start := stream.data;
      WriteFuncLocals(b.locals);
      WriteExprList(b.exprs);
      Emit([END]);
      assert stream.data == start + BodyBytes(types, b);
    }

    /** One entry of the code section, with a size of its own to fix up. */
    method WriteFuncBody(b: Body)
      requires Holds(stream.data)
      modifies stream, this`hasDataSegmentInstruction
      ensures Holds(old(stream.data) + Sized(canonicalizeLebs, BodyBytes(types, b)))
      ensures hasDataSegmentInstruction == (old(hasDataSegmentInstruction) || UsesDataList(b.exprs))
    {
      hide Sized, BodyBytes, UsesDataList;
      ghost var pre := stream.data;
      var bodySizeOffset := WriteU32Leb128Space(LEB_SECTION_SIZE_GUESS);
      WriteFunc(b);
      var delta := WriteFixupU32Leb128Size(bodySizeOffset, LEB_SECTION_SIZE_GUESS, pre, BodyBytes(types, b));
    }

    method WriteCodeSection(bodies: seq<Body>)
      requires Holds(stream.data) && Closed() && bodies != [] && !hasDataSegmentInstruction
      modifies stream, this`lastSectionOffset, this`lastSectionLebSizeGuess, this`hasDataSegmentInstruction
      ensures Holds(old(stream.data)
              + FlatSection(canonicalizeLebs, CODE, EncodeU(|bodies|) + FlatBodies(canonicalizeLebs, types, bodies)))
      ensures Closed() && hasDataSegmentInstruction == AnyUsesData(bodies)
    {
      hide Sized, BodyBytes, EncodeU, UsesDataList;
      ghost var pre := stream.data + [CODE];
      BeginKnownSection(CODE);
      ghost var space := stream.data;
      Emit(EncodeU(|bodies|));
      ghost var start := stream.data;
      assert start + [] == start;
      for i := 0 to |bodies|
        invariant Holds(start + FlatBodies(canonicalizeLebs, types, bodies[..i]))
        invariant lastSectionLebSizeGuess == LEB_SECTION_SIZE_GUESS && lastSectionOffset == |pre|
        invariant hasDataSegmentInstruction == AnyUsesData(bodies[..i])
      {
        WriteFuncBody(bodies[i]);
        BodiesSnoc(bodies, i, start);
      }
      assert bodies[..|bodies|] == bodies;
      ghost var payload := EncodeU(|bodies|) + FlatBodies(canonicalizeLebs, types, bodies);
      assert stream.data == space + payload;
      EndSection(pre, payload);
      assert pre + Sized(canonicalizeLebs, payload) == old(stream.data) + ([CODE] + Sized(canonicalizeLebs, payload));
    }

    lemma BodiesSnoc(bodies: seq<Body>, i: nat, start: seq<Byte>)
      requires i < |bodies|
      ensures start + FlatBodies(canonicalizeLebs, types, bodies[..i + 1])
           == start + FlatBodies(canonicalizeLebs, types, bodies[..i])
             + Sized(canonicalizeLebs, BodyBytes(types, bodies[i]))
      ensures AnyUsesData(bodies[..i + 1]) <==> AnyUsesData(bodies[..i]) || UsesDataList(bodies[i].exprs)
    {
      hide Sized, BodyBytes, UsesDataList;
      assert bodies[..i + 1][..i] == bodies[..i];
      if AnyUsesData(bodies[..i]) {
        var k :| 0 <= k < i && UsesDataList(bodies[..i][k].exprs);
        assert bodies[..i + 1][k] == bodies[..i][k];
      }
      if UsesDataList(bodies[i].exprs) { assert bodies[..i + 1][i] == bodies[i]; }
      if AnyUsesData(bodies[..i + 1]) {
        var k :| 0 <= k < i + 1 && UsesDataList(bodies[..i + 1][k].exprs);
        if k < i { assert bodies[..i][k] == bodies[..i + 1][k]; }
      }
    }

    /** The DataCount section, remembered so that it can be removed again. */
    method WriteDataCount(count: nat)
      requires Holds(stream.data) && Closed()
      modifies stream, this`lastSectionOffset, this`lastSectionLebSizeGuess, this`dataCountStart, this`dataCountEnd
      ensures Holds(old(stream.data) + FlatSection(canonicalizeLebs, DATA_COUNT, EncodeU(count))) && Closed()
      ensures dataCountStart == |old(stream.data)| && dataCountEnd == |stream.data|
    {
      hide Sized;
      dataCountStart := stream.offset;
      ghost var pre := stream.data + [DATA_COUNT];
      BeginKnownSection(DATA_COUNT);
      Emit(EncodeU(count));
      EndSection(pre, EncodeU(count));
      assert pre + Sized(canonicalizeLebs, EncodeU(count))
        == old(stream.data) + ([DATA_COUNT] + Sized(canonicalizeLebs, EncodeU(count)));
      dataCountEnd := stream.offset;
    }

    /** Deletes the bytes between the two marks by moving the rest down. */
    method RemoveDataCount(ghost pre: seq<Byte>, ghost count: seq<Byte>, ghost code: seq<Byte>)
      requires Holds(pre + count + code)
      requires dataCountStart == |pre| && dataCountEnd == |pre| + |count|
      modifies stream
      ensures Holds(pre + code)
    {
      var size := stream.offset - dataCountEnd;
      ghost var was := stream.data;
      assert was[dataCountEnd..dataCountEnd + size] == code;
      if dataCountStart != dataCountEnd {
        stream.MoveData(dataCountStart, dataCountEnd, size);
      }
      assert stream.data[..dataCountStart + size] == pre + code;
      stream.Truncate(dataCountStart + size);
    }

    /** WriteModule, to an empty stream. */
    method WriteModule(c: Contents)
      requires Holds([]) && Closed() && !hasDataSegmentInstruction && dataCountStart == dataCountEnd == 0
               && c.types == types
      requires |FlatModule(canonicalizeLebs, bulkMemory, c)| < Pow2(32) && c.dataSegments < Pow2(32)
      modifies this, stream
      ensures Holds(FlatModule(canonicalizeLebs, bulkMemory, c))
    {
      hide FlatSections, FlatSection, FlatBodies, EncodeU, Pow2, AnyUsesData;
      Emit(PREAMBLE);
      WriteSections(c.before);
      ghost var pre := stream.data;
      assert pre == PREAMBLE + FlatSections(canonicalizeLebs, c.before);
      if bulkMemory && c.dataSegments > 0 {
        WriteDataCount(c.dataSegments);
      }
      ghost var count := stream.data[|pre|..];
      assert stream.data == pre + count;
      if c.bodies != [] {
        WriteCodeSection(c.bodies);
      } else {
        NoBodies();
        assert stream.data + [] == stream.data;
      }
      assert stream.data == pre + count + FlatCode(canonicalizeLebs, c);
      if bulkMemory && !hasDataSegmentInstruction {
        if c.dataSegments > 0 {
          RemoveDataCount(pre, count, FlatCode(canonicalizeLebs, c));
        } else {
          NothingToRemove();
          assert count == [] && pre + [] == pre;
        }
      }
      assert stream.data == pre + FlatDataCount(canonicalizeLebs, bulkMemory, c) + FlatCode(canonicalizeLebs, c);
      WriteSections(c.after);
    }

    lemma NoBodies()
      ensures !AnyUsesData([])
    {}

    /** Without a DataCount section both marks are at zero, and truncating changes nothing. */
    method NothingToRemove()
      requires dataCountStart == dataCountEnd == 0 && Holds(stream.data)
      modifies stream
      ensures Holds(old(stream.data))
    {
      var size := stream.offset - dataCountEnd;
      stream.Truncate(dataCountStart + size);
    }
  }
}

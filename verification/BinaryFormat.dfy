/** The binary format of instructions and function bodies: section 5.4 of the WebAssembly Core
    Specification and the opcodes of src/opcode.def, as a relation between trees and bytes.  Numbers may
    be encoded at any length section 5.2.2 allows. */
module BinaryFormat {
  import opened Util
  import Wasm
  import opened Powers
  import opened Leb128

  type ValType = Wasm.ValType
  type FuncSig = Wasm.FuncSig

  // ----- instructions -----

  datatype Opcode = Op(byte: Byte) | Prefixed(prefix: Byte, code: nat)

  /** Immediates.  Constants are kept as bit patterns; `Align` is the alignment itself. */
  datatype Imm = U32(v: nat) | S32(bits: nat) | S64(bits: nat) | Bits32(v: nat) | Bits64(v: nat) | Align(bytes: nat)
    | Reserved

  datatype Expr =
    | Instr(op: Opcode, imms: seq<Imm>)
    | BrTable(targets: seq<nat>, default_: nat)
    | TypedSelect(ty: ValType)
    | Block(sig: FuncSig, body: seq<Expr>)
    | Loop(sig: FuncSig, body: seq<Expr>)
    | If(sig: FuncSig, then_: seq<Expr>, else_: seq<Expr>)
    | Try(sig: FuncSig, body: seq<Expr>, catch_: seq<Expr>)

  // ----- numbers and types -----

  /** An unsigned 32-bit number. */
  predicate Unsigned(p: seq<Byte>, v: nat) { DecodeU(32, p) == Some(Read(v, |p|)) }

  /** A signed number of `N` bits. */
  predicate SignedOf(N: nat, p: seq<Byte>, v: int)
    requires N > 0
  {
    DecodeS(N, p) == Some(Read(v, |p|))
  }

  /** A number whose one-byte encoding is `b`. */
  predicate CodeByte(b: Byte, p: seq<Byte>)
    requires 64 <= b < 128
  {
    p == [b] || (|p| > 1 && SignedOf(32, p, b as int - 128))
  }

  predicate ValueType(t: ValType, p: seq<Byte>) {
    match t
    case I32 => CodeByte(0x7f, p)
    case I64 => CodeByte(0x7e, p)
    case F32 => CodeByte(0x7d, p)
    case F64 => CodeByte(0x7c, p)
  }

  /** Nothing, one result, or the index of a function type. */
  ghost predicate BlockType(types: seq<FuncSig>, sig: FuncSig, p: seq<Byte>) {
    || (sig.params == [] && sig.results == [] && CodeByte(0x40, p))
    || (sig.params == [] && |sig.results| == 1 && ValueType(sig.results[0], p))
    || (exists i :: 0 <= i < |types| && types[i] == sig && SignedOf(32, p, i))
  }

  // ----- immediates -----

  function Number(b: Byte): nat { b }

  /** Least significant byte first. */
  predicate Word4(p: seq<Byte>, v: nat) {
    |p| == 4 && v == Number(p[0]) + 0x100 * Number(p[1]) + 0x1_0000 * Number(p[2]) + 0x100_0000 * Number(p[3])
  }

  ghost predicate Word8(p: seq<Byte>, v: nat) {
    |p| == 8 && exists a: nat, b: nat :: Word4(p[..4], a) && Word4(p[4..], b) && v == a + 0x1_0000_0000 * b
  }

  ghost predicate ImmBytes(i: Imm, p: seq<Byte>) {
    match i
    case U32(v) => Unsigned(p, v)
    case S32(bits) => exists n :: SignedOf(32, p, n) && bits == if n < 0 then n + 0x1_0000_0000 else n
    case S64(bits) => exists n :: SignedOf(64, p, n) && bits == if n < 0 then n + 0x1_0000_0000_0000_0000 else n
    case Bits32(v) => Word4(p, v)
    case Bits64(v) => Word8(p, v)
    case Align(bytes) => exists k: nat :: Unsigned(p, k) && bytes == Pow2(k)
    case Reserved => p == [0x00]
  }

  /** One immediate after the other. */
  ghost predicate Immediates(imms: seq<Imm>, p: seq<Byte>)
    decreases |imms|
  {
    if imms == [] then p == []
    else exists a, b :: p == a + b && ImmBytes(imms[0], a) && Immediates(imms[1..], b)
  }

  ghost predicate Targets(xs: seq<nat>, p: seq<Byte>)
    decreases |xs|
  {
    if xs == [] then p == [] else exists a, b :: p == a + b && Unsigned(a, xs[0]) && Targets(xs[1..], b)
  }

  // ----- instructions without nested lists -----

  predicate OneByteForm(c: Byte, imms: seq<Imm>) {
    if c in {0x00, 0x01} then imms == [] // unreachable, nop
    else if c == 0x08 then |imms| == 1 && imms[0].U32? // throw
    else if c == 0x09 then imms == [] // rethrow
    else if c == 0x0a then |imms| == 2 && imms[0].U32? && imms[1].U32? // br_on_exn
    else if c in {0x0c, 0x0d} then |imms| == 1 && imms[0].U32? // br, br_if
    else if c == 0x0f then imms == [] // return
    else if c in {0x10, 0x12} then |imms| == 1 && imms[0].U32? // call, return_call
    else if c in {0x11, 0x13} then |imms| == 2 && imms[0].U32? && imms[1].U32? // through a table: type and table
    else if c in {0x1a, 0x1b} then imms == [] // drop, select
    else if c in {0x20, 0x21, 0x22, 0x23, 0x24} then |imms| == 1 && imms[0].U32? // locals and globals
    else if c in {0x25, 0x26} then |imms| == 1 && imms[0].U32? // table.get, table.set
    else if 0x28 <= c <= 0x3e then |imms| == 2 && imms[0].Align? && imms[1].U32? // alignment and offset
    else if c in {0x3f, 0x40} then imms == [Reserved] // memory.size, memory.grow
    else if c == 0x41 then |imms| == 1 && imms[0].S32? // i32.const
    else if c == 0x42 then |imms| == 1 && imms[0].S64? // i64.const
    else if c == 0x43 then |imms| == 1 && imms[0].Bits32? // f32.const
    else if c == 0x44 then |imms| == 1 && imms[0].Bits64? // f64.const
    else if 0x45 <= c <= 0xc4 then imms == [] // operators
    else if c in {0xd0, 0xd1} then imms == [] // ref.null, ref.is_null
    else c == 0xd2 && |imms| == 1 && imms[0].U32? // ref.func
  }

  /** Behind the byte 0xfc. */
  predicate PrefixedForm(c: nat, imms: seq<Imm>) {
    if c <= 7 then imms == [] // saturating truncations
    else if c == 8 then |imms| == 2 && imms[0].U32? && imms[1].Reserved? // memory.init
    else if c == 9 then |imms| == 1 && imms[0].U32? // data.drop
    else if c == 10 then imms == [Reserved, Reserved] // memory.copy
    else if c == 11 then imms == [Reserved] // memory.fill
    else if c in {12, 14} then |imms| == 2 && imms[0].U32? && imms[1].U32? // table.init, table.copy
    else c in {13, 15, 16, 17} && |imms| == 1 && imms[0].U32? // elem.drop, table.grow, table.size, table.fill
  }

  ghost predicate InstrBytes(op: Opcode, imms: seq<Imm>, p: seq<Byte>) {
    match op
    case Op(c) => OneByteForm(c, imms) && exists a :: p == [c] + a && Immediates(imms, a)
    case Prefixed(f, c) =>
      f == 0xfc && PrefixedForm(c, imms)
      && exists a, b :: p == [0xfc] + a + b && Unsigned(a, c) && Immediates(imms, b)
  }

  // ----- trees -----

  /** `p` is an encoding of `e`.  `catch` may be left out when its list is empty. */
  ghost predicate ExprBytes(types: seq<FuncSig>, e: Expr, p: seq<Byte>)
    decreases e
  {
    match e
    case Instr(op, imms) => InstrBytes(op, imms, p)
    case BrTable(xs, d) =>
      exists a, b, c :: p == [0x0e] + a + b + c && Unsigned(a, |xs|) && Targets(xs, b) && Unsigned(c, d)
    case TypedSelect(t) => exists a, b :: p == [0x1c] + a + b && Unsigned(a, 1) && ValueType(t, b)
    case Block(sig, body) =>
      exists a, b :: p == [0x02] + a + b + [0x0b] && BlockType(types, sig, a) && ListBytes(types, body, b)
    case Loop(sig, body) =>
      exists a, b :: p == [0x03] + a + b + [0x0b] && BlockType(types, sig, a) && ListBytes(types, body, b)
    case If(sig, then_, else_) =>
      || (exists a, b :: else_ == [] && p == [0x04] + a + b + [0x0b] && BlockType(types, sig, a)
                         && ListBytes(types, then_, b))
      || (exists a, b, c :: p == [0x04] + a + b + [0x05] + c + [0x0b] && BlockType(types, sig, a)
                            && ListBytes(types, then_, b) && ListBytes(types, else_, c))
    case Try(sig, body, catch_) =>
      || (exists a, b :: catch_ == [] && p == [0x06] + a + b + [0x0b] && BlockType(types, sig, a)
                         && ListBytes(types, body, b))
      || (exists a, b, c :: p == [0x06] + a + b + [0x07] + c + [0x0b] && BlockType(types, sig, a)
                            && ListBytes(types, body, b) && ListBytes(types, catch_, c))
  }

  ghost predicate ListBytes(types: seq<FuncSig>, es: seq<Expr>, p: seq<Byte>)
    decreases es
  {
    if es == [] then p == []
    else
      exists a, b ::
        p == a + b && ListBytes(types, es[..|es| - 1], a) && ExprBytes(types, es[|es| - 1], b)
  }

  /** The instructions of a function up to its final `end`. */
  ghost predicate IsBody(types: seq<FuncSig>, es: seq<Expr>, p: seq<Byte>) {
    p != [] && p[|p| - 1] == 0x0b && ListBytes(types, es, p[..|p| - 1])
  }
}

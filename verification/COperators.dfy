/** The C text of integer operators (src/c-writer.cc, WriteInfixBinaryExpr and its neighbours, and the macros
    of src/wasm2c.c.tmpl), evaluated as section 6.5 of ISO/IEC 9899 says, against section 4.3.2 of the WebAssembly
    Core Specification. */
module COperators {
  import opened Util
  import opened Powers
  import opened Wasm
  import CLang
  import opened CCompile

  // ----- integers -----

  predicate IsInteger(t: ValType) { t == I32 || t == I64 }

  function Width(t: ValType): nat { if t == I32 || t == F32 then 32 else 64 }

  /** Two to the power of the width, and half of it. */
  function Modulus(t: ValType): nat { if Width(t) == 32 then 0x1_0000_0000 else 0x1_0000_0000_0000_0000 }

  function Half(t: ValType): nat { if Width(t) == 32 then 0x8000_0000 else 0x8000_0000_0000_0000 }

  /** A bit pattern as a signed number. */
  function Signed(t: ValType, x: nat): int { if x < Half(t) then x else x - Modulus(t) }

  /** The bit pattern of a number, modulo two to the power of the width. */
  function Wrapped(t: ValType, n: int): nat { n % Modulus(t) }

  /** The quotient truncated towards zero. */
  function Truncated(a: int, b: int): int
    requires b != 0
  {
    if (a < 0) == (b < 0) then Abs(a) / Abs(b) else -(Abs(a) / Abs(b))
  }

  function Abs(a: int): nat { if a < 0 then -a else a }

  datatype BitOp = BitAnd | BitOr | BitXor

  function Bit(op: BitOp, a: nat, b: nat): nat {
    match op
    case BitAnd => if a == 1 && b == 1 then 1 else 0
    case BitOr => if a == 1 || b == 1 then 1 else 0
    case BitXor => if a != b then 1 else 0
  }

  /** Bit by bit. */
  function Bitwise(op: BitOp, x: nat, y: nat): nat
    decreases x + y
  {
    if x == 0 && y == 0 then 0 else Bit(op, x % 2, y % 2) + 2 * Bitwise(op, x / 2, y / 2)
  }

  // ----- what the operators of WebAssembly do -----

  function ShiftedLeft(t: ValType, x: nat, k: nat): nat { (x * Pow2(k)) % Modulus(t) }

  /** Rounded down. */
  function Quotient(a: int, p: nat): (q: int)
    requires p > 0
    ensures a >= 0 ==> q >= 0
  {
    a / p
  }

  function Remainder(a: nat, p: nat): nat
    requires p > 0
  {
    a % p
  }

  /** The quotient that is too large traps. */
  function SignedQuotient(t: ValType, i: int, j: int): Option<nat> {
    if j == 0 || Truncated(i, j) == Half(t) then None else Some(Wrapped(t, Truncated(i, j)))
  }

  function SignedRemainder(t: ValType, i: int, j: int): Option<nat> {
    if j == 0 then None else Some(Wrapped(t, i - j * Truncated(i, j)))
  }

  function Bool(b: bool): nat { if b then 1 else 0 }

  /** A trap is `None`. */
  function WasmBinary(op: BinaryOp, t: ValType, x: nat, y: nat): Option<nat> {
    match op
    case Add => Some((x + y) % Modulus(t))
    case Sub => Some((x - y + Modulus(t)) % Modulus(t))
    case Mul => Some(Wrapped(t, x * y))
    case DivU => if y == 0 then None else Some(Quotient(x, y))
    case RemU => if y == 0 then None else Some(Remainder(x, y))
    case DivS => SignedQuotient(t, Signed(t, x), Signed(t, y))
    case RemS => SignedRemainder(t, Signed(t, x), Signed(t, y))
    case And => Some(Bitwise(BitAnd, x, y))
    case Or => Some(Bitwise(BitOr, x, y))
    case Xor => Some(Bitwise(BitXor, x, y))
    case Shl => Some(ShiftedLeft(t, x, y % Width(t)))
    case ShrU => Some(Quotient(x, Pow2(y % Width(t))))
    case ShrS => Some(Wrapped(t, Quotient(Signed(t, x), Pow2(y % Width(t)))))
    case Rotl => Some(ShiftedLeft(t, x, y % Width(t)) + Quotient(x, Pow2(Width(t) - y % Width(t))))
    case Rotr => Some(Quotient(x, Pow2(y % Width(t))) + ShiftedLeft(t, x, Width(t) - y % Width(t)))
    case _ => None
  }

  function WasmCompare(op: CompareOp, t: ValType, x: nat, y: nat): Option<nat> {
    var i, j := Signed(t, x), Signed(t, y);
    match op
    case Eq => Some(Bool(x == y))
    case Ne => Some(Bool(x != y))
    case LtS => Some(Bool(i < j))
    case LtU => Some(Bool(x < y))
    case LeS => Some(Bool(i <= j))
    case LeU => Some(Bool(x <= y))
    case GtS => Some(Bool(i > j))
    case GtU => Some(Bool(x > y))
    case GeS => Some(Bool(i >= j))
    case GeU => Some(Bool(x >= y))
    case _ => None
  }

  function WasmOp2(op: Op2, x: nat, y: nat): Option<nat> {
    match op
    case Binary(bin, t) => WasmBinary(bin, t, x, y)
    case Compare(cmp, t) => WasmCompare(cmp, t, x, y)
  }

  /** The operators on integers. */
  predicate OnIntegers(op: Op2) {
    match op
    case Binary(bin, t) => IsInteger(t) && bin !in {FDiv, Min, Max, Copysign}
    case Compare(cmp, t) => IsInteger(t) && cmp !in {FLt, FLe, FGt, FGe}
  }

  // ----- what C expressions do -----

  /** The types s32, u32, s64 and u64. */
  datatype CType = CType(width: nat, signed: bool)

  /** The infix operators, by the names of their characters. */
  datatype Token =
    | Plus | Minus | Star | Slash | Percent | Amp | Pipe | Caret | LessLess | GreaterGreater
    | EqualEqual | NotEqual | Less | LessEqual | Greater | GreaterEqual | Comma

  /** Expressions over two variables, as the text of the emitted statement and its macros has them. */
  datatype Term =
    | X
    | Y
    | Int(n: int)
    | Cast(ty: CType, e: Term)
    | Infix(token: Token, a: Term, b: Term)
    | Both(a: Term, b: Term)
    | Cond(c: Term, a: Term, b: Term)
    | TrapCall

  datatype Outcome = Is(n: int, ty: CType) | Traps | Undefined

  function Range(ty: CType): nat { if ty.width == 32 then 0x1_0000_0000 else 0x1_0000_0000_0000_0000 }

  predicate Fits(ty: CType, n: int) {
    if ty.signed then -(Range(ty) / 2) <= n < Range(ty) / 2 else 0 <= n < Range(ty)
  }

  /** Conversion to a type; to a signed one, numbers out of range keep their bits. */
  function ConvertTo(ty: CType, n: int): int {
    var r := n % Range(ty);
    if ty.signed && r >= Range(ty) / 2 then r - Range(ty) else r
  }

  /** The usual arithmetic conversions. */
  function Common(a: CType, b: CType): CType {
    if a.width > b.width then a else if b.width > a.width then b else CType(a.width, a.signed && b.signed)
  }

  /** Signed arithmetic is undefined when it overflows, unsigned arithmetic is modulo the range. */
  function Arithmetic(ty: CType, n: int): Outcome {
    if !ty.signed then Is(n % Range(ty), ty) else if Fits(ty, n) then Is(n, ty) else Undefined
  }

  const INT := CType(32, true)

  function Truth(b: bool): Outcome { Is(if b then 1 else 0, INT) }

  /** A shift by the width or more, or of a negative number to the left, is undefined; to the right it is
      arithmetic. */
  function Shift(token: Token, a: int, ty: CType, k: int): Outcome {
    if k < 0 || k >= ty.width then Undefined
    else if token == GreaterGreater then Is(Quotient(a, Pow2(k)), ty)
    else if a < 0 then Undefined
    else Arithmetic(ty, a * Pow2(k))
  }

  function Operate(token: Token, a: int, b: int, ty: CType): Outcome {
    match token
    case Plus => Arithmetic(ty, a + b)
    case Minus => Arithmetic(ty, a - b)
    case Star => Arithmetic(ty, a * b)
    case Slash => if b == 0 then Undefined else Arithmetic(ty, Truncated(a, b))
    case Percent => if b == 0 || !Fits(ty, Truncated(a, b)) then Undefined else Arithmetic(ty, a - Truncated(a, b) * b)
    case Amp => if a < 0 || b < 0 then Undefined else Is(Bitwise(BitAnd, a, b), ty)
    case Pipe => if a < 0 || b < 0 then Undefined else Is(Bitwise(BitOr, a, b), ty)
    case Caret => if a < 0 || b < 0 then Undefined else Is(Bitwise(BitXor, a, b), ty)
    case EqualEqual => Truth(a == b)
    case NotEqual => Truth(a != b)
    case Less => Truth(a < b)
    case LessEqual => Truth(a <= b)
    case Greater => Truth(a > b)
    case GreaterEqual => Truth(a >= b)
    case _ => Undefined
  }

  function Converted(ty: CType, o: Outcome): Outcome { if o.Is? then Is(ConvertTo(ty, o.n), ty) else o }

  function Tested(o: Outcome): Outcome { if o.Is? then Truth(o.n != 0) else o }

  function Infixed(token: Token, o: Outcome, p: Outcome): Outcome {
    if !o.Is? then o
    else if !p.Is? then p
    else if token in {LessLess, GreaterGreater} then Shift(token, o.n, o.ty, p.n)
    else
      var ty := Common(o.ty, p.ty);
      Operate(token, ConvertTo(ty, o.n), ConvertTo(ty, p.n), ty)
  }

  function Evaluate(e: Term, t: ValType, x: nat, y: nat): Outcome {
    match e
    case X => Is(x, CType(Width(t), false))
    case Y => Is(y, CType(Width(t), false))
    case Int(n) => Is(n, if Fits(INT, n) then INT else CType(64, true))
    case Cast(ty, a) => Converted(ty, Evaluate(a, t, x, y))
    case Infix(token, a, b) => Infixed(token, Evaluate(a, t, x, y), Evaluate(b, t, x, y))
    case Both(a, b) =>
      (match Evaluate(a, t, x, y)
       case Is(m, _) => if m == 0 then Truth(false) else Tested(Evaluate(b, t, x, y))
       case o => o)
    case Cond(c, a, b) =>
      (match Evaluate(c, t, x, y)
       case Is(n, _) => if n != 0 then Evaluate(a, t, x, y) else Evaluate(b, t, x, y)
       case o => o)
    case TrapCall => Traps
  }

  // ----- what the writer writes -----

  /** The infix operator of C that each operator is written with. */
  function TokenOf(op: Op2): Token {
    match op
    case Binary(bin, _) =>
      (match bin
       case Add => Plus case Sub => Minus case Mul => Star case And => Amp case Or => Pipe case Xor => Caret
       case DivS => Slash case DivU => Slash case FDiv => Slash case RemS => Percent case RemU => Percent
       case Shl => LessLess case ShrS => GreaterGreater case ShrU => GreaterGreater case _ => Comma)
    case Compare(cmp, _) =>
      (match cmp
       case Eq => EqualEqual case Ne => NotEqual
       case LtS => Less case LtU => Less case FLt => Less case LeS => LessEqual case LeU => LessEqual case FLe =>
         LessEqual
       case GtS => Greater case GtU => Greater case FGt => Greater case GeS => GreaterEqual case GeU =>
         GreaterEqual case FGe => GreaterEqual)
  }

  function TypeOf(t: ValType): CType { CType(Width(t), false) }

  function SignedType(t: ValType): CType { CType(Width(t), true) }

  function GetShiftMask(t: ValType): Term { Int(if Width(t) == 32 then 31 else 63) }

  function Minimum(t: ValType): Term { Int(-(Half(t) as int)) }

  // The macros of src/wasm2c.c.tmpl.

  function DivSMacro(t: ValType, x: Term, y: Term): Term {
    Cond(Infix(EqualEqual, y, Int(0)), TrapCall,
      Cond(Both(Infix(EqualEqual, x, Minimum(t)), Infix(EqualEqual, y, Int(-1))), TrapCall,
        Cast(TypeOf(t), Infix(Slash, x, y))))
  }

  function RemSMacro(t: ValType, x: Term, y: Term): Term {
    Cond(Infix(EqualEqual, y, Int(0)), TrapCall,
      Cond(Both(Infix(EqualEqual, x, Minimum(t)), Infix(EqualEqual, y, Int(-1))), Int(0),
        Cast(TypeOf(t), Infix(Percent, x, y))))
  }

  function DivRemUMacro(token: Token, x: Term, y: Term): Term {
    Cond(Infix(EqualEqual, y, Int(0)), TrapCall, Infix(token, x, y))
  }

  function RotlMacro(x: Term, y: Term, mask: Term): Term {
    Infix(Pipe, Infix(LessLess, x, Infix(Amp, y, mask)),
      Infix(GreaterGreater, x, Infix(Amp, Infix(Plus, Infix(Minus, mask, y), Int(1)), mask)))
  }

  function RotrMacro(x: Term, y: Term, mask: Term): Term {
    Infix(Pipe, Infix(GreaterGreater, x, Infix(Amp, y, mask)),
      Infix(LessLess, x, Infix(Amp, Infix(Plus, Infix(Minus, mask, y), Int(1)), mask)))
  }

  /** The right-hand side of `dst op= y`, when that is how the operator is written. */
  function Operand(op: Op2): Term {
    if TokenOf(op) in {LessLess, GreaterGreater} then Infix(Amp, Y, GetShiftMask(op.Param())) else Y
  }

  /** What is assigned: `x op= y` assigns `x op y`. */
  function Text(op: Op2): Term {
    var t := op.Param();
    if WrittenAsAssignOp(op) then Infix(TokenOf(op), X, Operand(op))
    else
      match op
      case Binary(DivS, _) => DivSMacro(t, Cast(SignedType(t), X), Cast(SignedType(t), Y))
      case Binary(RemS, _) => RemSMacro(t, Cast(SignedType(t), X), Cast(SignedType(t), Y))
      case Binary(DivU, _) => DivRemUMacro(Slash, X, Y)
      case Binary(RemU, _) => DivRemUMacro(Percent, X, Y)
      case Binary(ShrS, _) => Cast(TypeOf(t), Infix(GreaterGreater, Cast(SignedType(t), X), Operand(op)))
      case Binary(Rotl, _) => RotlMacro(X, Y, GetShiftMask(t))
      case Binary(Rotr, _) => RotrMacro(X, Y, GetShiftMask(t))
      case Binary(_, _) => Infix(TokenOf(op), X, Y)
      case Compare(LtS, _) => SignedText(t, TokenOf(op))
      case Compare(LeS, _) => SignedText(t, TokenOf(op))
      case Compare(GtS, _) => SignedText(t, TokenOf(op))
      case Compare(GeS, _) => SignedText(t, TokenOf(op))
      case Compare(_, _) => Infix(TokenOf(op), X, Y)
  }

  /** WriteSignedBinaryExpr. */
  function SignedText(t: ValType, token: Token): Term {
    Cast(TypeOf(t), Infix(token, Cast(SignedType(t), X), Cast(SignedType(t), Y)))
  }

  /** What is stored in a variable of the result's type. */
  function Stored(op: Op2, o: Outcome): CLang.CValue {
    match o
    case Is(n, _) => CLang.Got(Wrapped(op.Result(), n))
    case Traps => CLang.Traps
    case Undefined => CLang.Undefined
  }

  // ----- bits -----

  lemma {:induction false} BitsBelow(op: BitOp, x: nat, y: nat, n: nat)
    requires x < Pow2(n) && y < Pow2(n)
    ensures Bitwise(op, x, y) < Pow2(n)
    decreases n
  {
    if n > 0 && (x > 0 || y > 0) { BitsBelow(op, x / 2, y / 2, n - 1); }
  }

  /** Masking with n ones keeps the last n bits. */
  lemma {:induction false} Masked(y: nat, n: nat)
    ensures Bitwise(BitAnd, y, Pow2(n) - 1) == y % Pow2(n)
    decreases n
  {
    hide Bitwise, Pow2;
    if n == 0 {
      Doubled(0);
      NoMask(y);
    } else {
      Masked(y / 2, n - 1);
      Doubled(n);
      AndStep(y, Pow2(n - 1) - 1);
      LastBit(y, Pow2(n - 1));
    }
  }

  lemma Doubled(n: nat)
    ensures Pow2(n) == if n == 0 then 1 else 2 * Pow2(n - 1)
  {}

  lemma AndStep(y: nat, m: nat)
    ensures Bitwise(BitAnd, y, 2 * m + 1) == y % 2 + 2 * Bitwise(BitAnd, y / 2, m)
  {
    assert (2 * m + 1) / 2 == m && (2 * m + 1) % 2 == 1;
  }

  lemma {:induction false} NoMask(y: nat)
    ensures Bitwise(BitAnd, y, 0) == 0
    decreases y
  {
    if y > 0 { NoMask(y / 2); }
  }

  lemma LastBit(y: nat, p: nat)
    requires p > 0
    ensures y % (2 * p) == y % 2 + 2 * ((y / 2) % p)
  {
    var a := y / 2;
    var q, r := a / p, a % p;
    assert a == p * q + r && y == 2 * a + y % 2;
    assert y == q * (2 * p) + (y % 2 + 2 * r) by { assert 2 * (p * q) == q * (2 * p); }
    ModOf(q, 2 * p, y % 2 + 2 * r);
  }

  /** Numbers without a common bit are added. */
  lemma {:induction false} Disjoint(a: nat, k: nat, b: nat)
    requires b < Pow2(k)
    ensures Bitwise(BitOr, a * Pow2(k), b) == a * Pow2(k) + b && Bitwise(BitOr, b, a * Pow2(k)) == a * Pow2(k) + b
    decreases k
  {
    if k == 0 {
      assert a * Pow2(0) == a;
      OrNothing(a);
    } else {
      Disjoint(a, k - 1, b / 2);
      var c := a * Pow2(k - 1);
      assert a * Pow2(k) == 2 * c by { DoubleProduct(a, Pow2(k - 1)); }
      OrStep(c, b);
    }
  }

  lemma DoubleProduct(a: nat, p: nat)
    ensures a * (2 * p) == 2 * (a * p)
  {}

  lemma OrStep(c: nat, b: nat)
    ensures Bitwise(BitOr, 2 * c, b) == b % 2 + 2 * Bitwise(BitOr, c, b / 2)
    ensures Bitwise(BitOr, b, 2 * c) == b % 2 + 2 * Bitwise(BitOr, b / 2, c)
  {
    assert (2 * c) / 2 == c && (2 * c) % 2 == 0;
    assert Bit(BitOr, 0, b % 2) == b % 2 == Bit(BitOr, b % 2, 0);
  }

  lemma {:induction false} OrNothing(a: nat)
    ensures Bitwise(BitOr, a, 0) == a && Bitwise(BitOr, 0, a) == a
    decreases a
  {
    if a > 0 { OrNothing(a / 2); }
  }

  lemma {:induction false} OrItself(a: nat)
    ensures Bitwise(BitOr, a, a) == a
    decreases a
  {
    if a > 0 { OrItself(a / 2); }
  }

  lemma Words()
    ensures Pow2(5) == 32 && Pow2(6) == 64 && Pow2(32) == 0x1_0000_0000 && Pow2(64) == 0x1_0000_0000_0000_0000
  {
    assert Pow2(4) == 16;
    assert Pow2(6) == 4 * Pow2(4);
    assert Pow2(8) == 4 * Pow2(6);
    Pow2Add(8, 8);
    Pow2Add(16, 16);
    Pow2Add(32, 32);
  }

  lemma ShiftCount(t: ValType, y: nat)
    requires IsInteger(t)
    ensures Bitwise(BitAnd, y, Width(t) - 1) == y % Width(t) && Modulus(t) == Pow2(Width(t))
  {
    hide Bitwise;
    Words();
    Masked(y, if t == I32 then 5 else 6);
  }

  // ----- the operators -----

  predicate TextRight(op: Op2, x: nat, y: nat) {
    Stored(op, Evaluate(Text(op), op.Param(), x, y)) == CLang.FromOption(WasmOp2(op, x, y))
  }

  lemma Twice(t: ValType, n: int)
    ensures Wrapped(t, n % Modulus(t)) == Wrapped(t, n) == (n + Modulus(t)) % Modulus(t)
  {}

  /** A plain infix operator on the two variables. */
  lemma OnVariables(token: Token, t: ValType, x: nat, y: nat)
    requires x < Modulus(t) && y < Modulus(t) && token !in {LessLess, GreaterGreater}
    ensures Evaluate(Infix(token, X, Y), t, x, y) == Operate(token, x, y, TypeOf(t))
  {
    hide Operate, Infixed;
    VariableIs(t, x, y);
    SameType(token, x, TypeOf(t), y);
  }

  lemma SumsRight(bin: BinaryOp, t: ValType, x: nat, y: nat)
    requires IsInteger(t) && x < Modulus(t) && y < Modulus(t) && bin in {Add, Sub, Mul}
    ensures TextRight(Binary(bin, t), x, y)
  {
    hide Bitwise, Pow2, Evaluate;
    OnVariables(TokenOf(Binary(bin, t)), t, x, y);
    assert x * y >= 0;
    Twice(t, if bin == Add then x + y else if bin == Sub then x - y else x * y);
  }

  lemma BitsRight(bin: BinaryOp, t: ValType, x: nat, y: nat)
    requires IsInteger(t) && x < Modulus(t) && y < Modulus(t) && bin in {And, Or, Xor}
    ensures TextRight(Binary(bin, t), x, y)
  {
    hide Bitwise, Pow2, Evaluate;
    OnVariables(TokenOf(Binary(bin, t)), t, x, y);
    Words();
    BitsBelow(if bin == And then BitAnd else if bin == Or then BitOr else BitXor, x, y, Width(t));
  }

  lemma QuotientBelow(x: nat, p: nat)
    requires p > 0
    ensures 0 <= Quotient(x, p) <= x && Remainder(x, p) <= x
    ensures Truncated(x, p) == Quotient(x, p) && x - Truncated(x, p) * p == Remainder(x, p)
  {
    var q, r := x / p, x % p;
    assert x == p * q + r;
    MulSign(q, p - 1);
    assert q * (p - 1) == q * p - q && q * p == p * q;
    if p == 1 { assert p * q == q; }
    if q == 0 { assert p * q == 0; }
  }

  lemma Kept(ty: CType, n: int)
    requires ty.width in {32, 64} && Fits(ty, n)
    ensures ConvertTo(ty, n) == n
  {}

  /** A constant takes the type of the other operand. */
  lemma WithConstant(token: Token, n: int, ty: CType, c: int)
    requires ty.width in {32, 64} && Fits(ty, n) && Fits(ty, c) && Fits(INT, c) && token !in {LessLess, GreaterGreater}
    ensures Infixed(token, Is(n, ty), Is(c, INT)) == Operate(token, n, c, ty)
    ensures Infixed(token, Is(c, INT), Is(n, ty)) == Operate(token, c, n, ty)
  {
    hide Operate, ConvertTo, Fits;
    Kept(ty, n);
    Kept(ty, c);
    assert Common(ty, INT) == ty == Common(INT, ty);
  }

  lemma SameType(token: Token, n: int, ty: CType, m: int)
    requires ty.width in {32, 64} && Fits(ty, n) && Fits(ty, m) && token !in {LessLess, GreaterGreater}
    ensures Infixed(token, Is(n, ty), Is(m, ty)) == Operate(token, n, m, ty)
  {
    hide Operate, ConvertTo, Fits;
    Kept(ty, n);
    Kept(ty, m);
  }

  // One step of an evaluation.

  lemma CastStep(ty: CType, e: Term, t: ValType, x: nat, y: nat)
    ensures Evaluate(Cast(ty, e), t, x, y) == Converted(ty, Evaluate(e, t, x, y))
  {}

  lemma InfixStep(token: Token, a: Term, b: Term, t: ValType, x: nat, y: nat)
    ensures Evaluate(Infix(token, a, b), t, x, y) == Infixed(token, Evaluate(a, t, x, y), Evaluate(b, t, x, y))
  {}

  lemma CondStep(c: Term, a: Term, b: Term, t: ValType, x: nat, y: nat)
    requires Evaluate(c, t, x, y).Is?
    ensures Evaluate(Cond(c, a, b), t, x, y)
         == if Evaluate(c, t, x, y).n != 0 then Evaluate(a, t, x, y) else Evaluate(b, t, x, y)
  {}

  lemma ConstantIs(n: int, t: ValType, x: nat, y: nat)
    ensures Evaluate(Int(n), t, x, y) == Is(n, if Fits(INT, n) then INT else CType(64, true))
  {}

  lemma VariableIs(t: ValType, x: nat, y: nat)
    ensures Evaluate(X, t, x, y) == Is(x, TypeOf(t)) && Evaluate(Y, t, x, y) == Is(y, TypeOf(t))
  {}

  /** The macros look at the divisor first. */
  lemma Guarded(t: ValType, x: nat, y: nat, d: Term, n: int, ty: CType, e: Term)
    requires Evaluate(d, t, x, y) == Is(n, ty) && ty.width in {32, 64} && Fits(ty, n)
    ensures Evaluate(Cond(Infix(EqualEqual, d, Int(0)), TrapCall, e), t, x, y)
         == if n == 0 then Traps else Evaluate(e, t, x, y)
  {
    hide Infixed;
    WithConstant(EqualEqual, n, ty, 0);
    assert Evaluate(Int(0), t, x, y) == Is(0, INT);
    assert Evaluate(Infix(EqualEqual, d, Int(0)), t, x, y) == Truth(n == 0);
    assert Evaluate(TrapCall, t, x, y) == Traps;
  }

  lemma QuotientOperates(t: ValType, x: nat, y: nat)
    requires x < Modulus(t) && 0 < y < Modulus(t)
    ensures Operate(Slash, x, y, TypeOf(t)) == Is(Quotient(x, y), TypeOf(t)) && Quotient(x, y) < Modulus(t)
    ensures Operate(Percent, x, y, TypeOf(t)) == Is(Remainder(x, y), TypeOf(t)) && Remainder(x, y) < Modulus(t)
  {
    hide Truncated, Quotient, Remainder;
    QuotientBelow(x, y);
  }

  lemma UnsignedQuotientsRight(bin: BinaryOp, t: ValType, x: nat, y: nat)
    requires IsInteger(t) && x < Modulus(t) && y < Modulus(t) && bin in {DivU, RemU}
    ensures TextRight(Binary(bin, t), x, y)
  {
    hide Bitwise, Pow2, Evaluate, Truncated, Quotient, Remainder, Operate;
    var token := if bin == DivU then Slash else Percent;
    VariableIs(t, x, y);
    Guarded(t, x, y, Y, y, TypeOf(t), Infix(token, X, Y));
    OnVariables(token, t, x, y);
    if y > 0 { QuotientOperates(t, x, y); }
  }

  // ----- signed division -----

  /** A quotient and a remainder in terms of absolute values. */
  lemma TruncatedIs(i: int, j: int)
    requires j != 0
    ensures Abs(Truncated(i, j)) <= Abs(i) && Abs(i - j * Truncated(i, j)) < Abs(j)
    ensures Abs(j) >= 2 ==> 2 * Abs(Truncated(i, j)) <= Abs(i)
    ensures j == -1 ==> Truncated(i, j) == -i
    ensures j == 1 ==> Truncated(i, j) == i
  {
    hide Truncated;
    var q, r := Divided(Abs(i), Abs(j));
    var k := Truncated(i, j);
    SignOf(i, j);
    ProductIs(i, j, Abs(i), Abs(j), q, r, k);
  }

  lemma SignOf(i: int, j: int)
    requires j != 0
    ensures Abs(j) > 0
    ensures if (i < 0) == (j < 0) then Truncated(i, j) == Abs(i) / Abs(j)
            else Truncated(i, j) == -(Abs(i) / Abs(j))
  {}

  lemma Divided(a: nat, b: nat) returns (q: nat, r: nat)
    requires b > 0
    ensures q == a / b && a == b * q + r && r < b && q <= a
    ensures (b >= 2 ==> 2 * q <= a) && (b == 1 ==> q == a)
  {
    q, r := a / b, a % b;
    assert a == b * q + r;
    if b >= 2 { AtMostProduct(q, b); } else { assert b * q == q; }
  }

  lemma ProductIs(i: int, j: int, a: int, b: int, q: int, r: int, k: int)
    requires a == (if i < 0 then -i else i) && b == (if j < 0 then -j else j) && a == b * q + r
    requires k == if (i < 0) == (j < 0) then q else -q
    ensures i - j * k == if i < 0 then -r else r
  {
    if j < 0 { assert j * k == -(b * k); } else { assert j * k == b * k; }
    if k == q { assert b * k == b * q; } else { assert b * k == -(b * q); }
  }

  lemma AtMostProduct(q: nat, b: nat)
    requires b >= 2
    ensures 2 * q <= b * q
  {
    assert (b - 2) * q >= 0;
  }

  lemma SignedBounds(t: ValType, x: nat)
    requires IsInteger(t) && x < Modulus(t)
    ensures Fits(SignedType(t), Signed(t, x)) && -(Half(t) as int) <= Signed(t, x) < Half(t)
    ensures ConvertTo(SignedType(t), x) == Signed(t, x)
  {}

  lemma CastVariables(t: ValType, x: nat, y: nat)
    requires IsInteger(t) && x < Modulus(t) && y < Modulus(t)
    ensures Evaluate(Cast(SignedType(t), X), t, x, y) == Is(Signed(t, x), SignedType(t))
    ensures Evaluate(Cast(SignedType(t), Y), t, x, y) == Is(Signed(t, y), SignedType(t))
  {
    hide ConvertTo, Signed;
    VariableIs(t, x, y);
    SignedBounds(t, x);
    SignedBounds(t, y);
  }

  /** The macros look for the one quotient that does not fit. */
  lemma OverflowGuard(t: ValType, x: nat, y: nat)
    requires IsInteger(t) && x < Modulus(t) && y < Modulus(t)
    ensures var cx, cy := Cast(SignedType(t), X), Cast(SignedType(t), Y);
            Evaluate(Both(Infix(EqualEqual, cx, Minimum(t)), Infix(EqualEqual, cy, Int(-1))), t, x, y)
              == Truth(Signed(t, x) == -(Half(t) as int) && Signed(t, y) == -1)
  {
    hide ConvertTo, Signed, Infixed;
    var cx, cy := Cast(SignedType(t), X), Cast(SignedType(t), Y);
    CastVariables(t, x, y);
    SignedBounds(t, x);
    SignedBounds(t, y);
    assert Evaluate(Minimum(t), t, x, y) == Is(-(Half(t) as int), SignedType(t));
    SameType(EqualEqual, Signed(t, x), SignedType(t), -(Half(t) as int));
    assert Evaluate(Infix(EqualEqual, cx, Minimum(t)), t, x, y) == Truth(Signed(t, x) == -(Half(t) as int));
    assert Evaluate(Int(-1), t, x, y) == Is(-1, INT);
    WithConstant(EqualEqual, Signed(t, y), SignedType(t), -1);
    assert Evaluate(Infix(EqualEqual, cy, Int(-1)), t, x, y) == Truth(Signed(t, y) == -1);
  }

  lemma DivisionOperates(t: ValType, i: int, j: int)
    requires IsInteger(t) && -(Half(t) as int) <= i < Half(t) && -(Half(t) as int) <= j < Half(t) && j != 0
    ensures Truncated(i, j) == Half(t) <==> i == -(Half(t) as int) && j == -1
    ensures !(i == -(Half(t) as int) && j == -1) ==>
              && Operate(Slash, i, j, SignedType(t)) == Is(Truncated(i, j), SignedType(t))
              && Operate(Percent, i, j, SignedType(t)) == Is(i - j * Truncated(i, j), SignedType(t))
    ensures i == -(Half(t) as int) && j == -1 ==> i - j * Truncated(i, j) == 0
  {
    hide Truncated;
    TruncatedIs(i, j);
    assert j * Truncated(i, j) == Truncated(i, j) * j;
  }

  lemma SignedQuotientsRight(bin: BinaryOp, t: ValType, x: nat, y: nat)
    requires IsInteger(t) && x < Modulus(t) && y < Modulus(t) && bin in {DivS, RemS}
    ensures TextRight(Binary(bin, t), x, y)
  {
    hide Evaluate, Truncated, Operate, Infixed, Signed, Fits;
    var i, j := Signed(t, x), Signed(t, y);
    var cx, cy := Cast(SignedType(t), X), Cast(SignedType(t), Y);
    var token := if bin == DivS then Slash else Percent;
    SignedBounds(t, x);
    SignedBounds(t, y);
    CastVariables(t, x, y);
    OverflowGuard(t, x, y);
    var quotient := Cast(TypeOf(t), Infix(token, cx, cy));
    var overflow := if bin == DivS then TrapCall else Int(0);
    var guard := Both(Infix(EqualEqual, cx, Minimum(t)), Infix(EqualEqual, cy, Int(-1)));
    CastStep(TypeOf(t), Infix(token, cx, cy), t, x, y);
    InfixStep(token, cx, cy, t, x, y);
    SameType(token, i, SignedType(t), j);
    CondStep(guard, overflow, quotient, t, x, y);
    OverflowIs(bin, t, x, y);
    Guarded(t, x, y, cy, j, SignedType(t), Cond(guard, overflow, quotient));
    if j != 0 {
      DivisionOperates(t, i, j);
      Twice(t, if bin == DivS then Truncated(i, j) else i - j * Truncated(i, j));
    }
  }

  lemma OverflowIs(bin: BinaryOp, t: ValType, x: nat, y: nat)
    ensures Evaluate(if bin == DivS then TrapCall else Int(0), t, x, y) == if bin == DivS then Traps else Is(0, INT)
  {}

  // ----- shifts -----

  lemma CountIs(t: ValType, x: nat, y: nat)
    requires IsInteger(t) && x < Modulus(t) && y < Modulus(t)
    ensures Evaluate(Infix(Amp, Y, GetShiftMask(t)), t, x, y) == Is(y % Width(t), TypeOf(t))
  {
    hide Bitwise, Infixed;
    VariableIs(t, x, y);
    ShiftCount(t, y);
    assert Evaluate(GetShiftMask(t), t, x, y) == Is(Width(t) - 1, INT);
    WithConstant(Amp, y, TypeOf(t), Width(t) - 1);
  }

  lemma ShiftsRight(bin: BinaryOp, t: ValType, x: nat, y: nat)
    requires IsInteger(t) && x < Modulus(t) && y < Modulus(t) && bin in {Shl, ShrU, ShrS}
    ensures TextRight(Binary(bin, t), x, y)
  {
    hide Evaluate, Pow2, Signed, Quotient, Shift, Fits;
    var k := y % Width(t);
    var count := Infix(Amp, Y, GetShiftMask(t));
    VariableIs(t, x, y);
    CountIs(t, x, y);
    if bin == ShrS {
      var e := Cast(SignedType(t), X);
      CastVariables(t, x, y);
      InfixStep(GreaterGreater, e, count, t, x, y);
      CastStep(TypeOf(t), Infix(GreaterGreater, e, count), t, x, y);
      ShiftedRight(Signed(t, x), SignedType(t), k);
      Twice(t, Quotient(Signed(t, x), Pow2(k)));
    } else if bin == ShrU {
      InfixStep(GreaterGreater, X, count, t, x, y);
      ShiftedRight(x, TypeOf(t), k);
      QuotientBelow(x, Pow2(k));
    } else {
      InfixStep(LessLess, X, count, t, x, y);
      LeftShifted(t, x, k);
    }
  }

  lemma ShiftedRight(a: int, ty: CType, k: nat)
    requires k < ty.width
    ensures Shift(GreaterGreater, a, ty, k) == Is(Quotient(a, Pow2(k)), ty)
  {
    hide Pow2, Quotient;
  }

  lemma LeftShifted(t: ValType, x: nat, k: nat)
    requires k < Width(t)
    ensures Shift(LessLess, x, TypeOf(t), k) == Is(ShiftedLeft(t, x, k), TypeOf(t))
    ensures Wrapped(t, ShiftedLeft(t, x, k)) == ShiftedLeft(t, x, k)
  {
    hide Pow2;
    assert x * Pow2(k) >= 0;
    Twice(t, x * Pow2(k));
  }

  /** The count that is left over. */
  lemma RestIs(t: ValType, x: nat, y: nat)
    requires IsInteger(t) && x < Modulus(t) && y < Modulus(t)
    ensures var mask := GetShiftMask(t);
            Evaluate(Infix(Amp, Infix(Plus, Infix(Minus, mask, Y), Int(1)), mask), t, x, y)
              == Is((Width(t) - y % Width(t)) % Width(t), TypeOf(t))
  {
    hide Evaluate, Bitwise, Infixed;
    var mask, M, W := GetShiftMask(t), Modulus(t), Width(t);
    VariableIs(t, x, y);
    ConstantIs(W - 1, t, x, y);
    ConstantIs(1, t, x, y);
    InfixStep(Minus, mask, Y, t, x, y);
    WithConstant(Minus, y, TypeOf(t), W - 1);
    var a := (W - 1 - y) % M;
    InfixStep(Plus, Infix(Minus, mask, Y), Int(1), t, x, y);
    WithConstant(Plus, a, TypeOf(t), 1);
    var b := (a + 1) % M;
    InfixStep(Amp, Infix(Plus, Infix(Minus, mask, Y), Int(1)), mask, t, x, y);
    WithConstant(Amp, b, TypeOf(t), W - 1);
    ShiftCount(t, b);
    RestCount(t, y);
  }

  lemma RestCount(t: ValType, y: nat)
    requires IsInteger(t) && y < Modulus(t)
    ensures (((Width(t) - 1 - y) % Modulus(t) + 1) % Modulus(t)) % Width(t) == (Width(t) - y % Width(t)) % Width(t)
  {
    Remaining(y, Width(t), Modulus(t), if t == I32 then 0x800_0000 else 0x400_0000_0000_0000);
  }

  lemma Remaining(y: nat, W: nat, M: nat, c: nat)
    requires 1 < W < M && M == W * c && y < M
    ensures (((W - 1 - y) % M + 1) % M) % W == (W - y % W) % W
  {
    Once(W - 1 - y, M);
    var b := if y > W then W - y + M else W - y;
    Once(if y > W - 1 then W - y + M else W - y, M);
    var a, k := y / W, y % W;
    assert y == W * a + k;
    var z := if y > W then 1 + c - a else 1 - a;
    Factor(W, a, c);
    Behind(b, W, z, k);
  }

  lemma Factor(W: int, a: int, c: int)
    ensures (1 + c - a) * W == W + W * c - W * a && (1 - a) * W == W - W * a
  {}

  lemma Behind(b: nat, W: nat, z: int, k: nat)
    requires b == z * W - k && k < W && W > 1
    ensures b % W == (W - k) % W
  {
    MulSign(W, z);
    if k == 0 {
      ModOf(z, W, 0);
      ModOf(1, W, 0);
    } else {
      assert (z - 1) * W == z * W - W;
      ModOf(z - 1, W, W - k);
      ModOf(0, W, W - k);
    }
  }

  lemma Once(n: int, M: nat)
    requires 0 - M <= n < 2 * M && M > 0
    ensures n % M == if n < 0 then n + M else if n >= M then n - M else n
  {}

  /** What is shifted out on one side comes back on the other. */
  lemma Joined(t: ValType, x: nat, k: nat)
    requires IsInteger(t) && x < Modulus(t) && 0 < k < Width(t)
    ensures var left, right := ShiftedLeft(t, x, k), Quotient(x, Pow2(Width(t) - k));
            && Bitwise(BitOr, left, right) == left + right == Bitwise(BitOr, right, left)
            && left + right < Modulus(t) && right < Modulus(t)
  {
    hide Pow2, Bitwise;
    Words();
    Pow2Add(Width(t) - k, k);
    var p, q := Pow2(k), Pow2(Width(t) - k);
    var high, low := Pieces(x, q, p);
    Disjoint(low, k, high);
  }

  lemma Pieces(x: nat, q: nat, p: nat) returns (high: nat, low: nat)
    requires p > 0 && q > 0 && x < q * p
    ensures high == x / q && high < p && low * p + high < q * p && (x * p) % (q * p) == low * p
  {
    high, low := x / q, x % q;
    assert x < p * q by { assert q * p == p * q; }
    DivBelow(x, q, p);
    assert x == q * high + low;
    LowShifted(low, q, p);
    Spread(q, high, low, p);
    ModOf(high, q * p, low * p);
    SumFits(low, q, p, high);
  }

  lemma LowShifted(low: nat, q: nat, p: nat)
    requires low < q && p > 0
    ensures low * p < q * p
  {
    MulSign(p, q - low);
    assert p * (q - low) == q * p - low * p;
  }

  lemma SumFits(low: nat, q: nat, p: nat, high: nat)
    requires low < q && high < p
    ensures low * p + high < q * p
  {
    LowShifted(low, low + 1, p);
    if low + 1 < q { LowShifted(low + 1, q, p); }
    assert (low + 1) * p == low * p + p;
  }

  lemma Spread(q: nat, high: nat, low: nat, p: nat)
    ensures (q * high + low) * p == high * (q * p) + low * p
  {}

  lemma RotlRight(t: ValType, x: nat, y: nat)
    requires IsInteger(t) && x < Modulus(t) && y < Modulus(t)
    ensures TextRight(Binary(Rotl, t), x, y)
  {
    hide Evaluate, Bitwise, Pow2, Quotient, Shift, ShiftedLeft, Infixed, Modulus;
    var W, k := Width(t), y % Width(t);
    var mask := GetShiftMask(t);
    var count, rest := Infix(Amp, Y, mask), Infix(Amp, Infix(Plus, Infix(Minus, mask, Y), Int(1)), mask);
    VariableIs(t, x, y);
    CountIs(t, x, y);
    RestIs(t, x, y);
    InfixStep(LessLess, X, count, t, x, y);
    InfixStep(GreaterGreater, X, rest, t, x, y);
    InfixStep(Pipe, Infix(LessLess, X, count), Infix(GreaterGreater, X, rest), t, x, y);
    ShiftsAgain(t, x, k);
    ShiftsAgain(t, x, (W - k) % W);
    Combined(t, x, k, (W - k) % W);
  }

  lemma RotrRight(t: ValType, x: nat, y: nat)
    requires IsInteger(t) && x < Modulus(t) && y < Modulus(t)
    ensures TextRight(Binary(Rotr, t), x, y)
  {
    hide Evaluate, Bitwise, Pow2, Quotient, Shift, ShiftedLeft, Infixed, Modulus;
    var W, k := Width(t), y % Width(t);
    var mask := GetShiftMask(t);
    var count, rest := Infix(Amp, Y, mask), Infix(Amp, Infix(Plus, Infix(Minus, mask, Y), Int(1)), mask);
    VariableIs(t, x, y);
    CountIs(t, x, y);
    RestIs(t, x, y);
    InfixStep(GreaterGreater, X, count, t, x, y);
    InfixStep(LessLess, X, rest, t, x, y);
    InfixStep(Pipe, Infix(GreaterGreater, X, count), Infix(LessLess, X, rest), t, x, y);
    ShiftsAgain(t, x, k);
    ShiftsAgain(t, x, (W - k) % W);
    Combined(t, x, (W - k) % W, k);
  }

  lemma ShiftsAgain(t: ValType, x: nat, k: nat)
    requires IsInteger(t) && x < Modulus(t) && k < Width(t)
    ensures Infixed(LessLess, Is(x, TypeOf(t)), Is(k, TypeOf(t))) == Is(ShiftedLeft(t, x, k), TypeOf(t))
    ensures Infixed(GreaterGreater, Is(x, TypeOf(t)), Is(k, TypeOf(t))) == Is(Quotient(x, Pow2(k)), TypeOf(t))
  {
    hide Pow2, Quotient, Shift, ShiftedLeft;
    LeftShifted(t, x, k);
    ShiftedRight(x, TypeOf(t), k);
  }

  /** The two halves of a rotation put together. */
  lemma Combined(t: ValType, x: nat, left: nat, right: nat)
    requires IsInteger(t) && x < Modulus(t) && left < Width(t) && right == (Width(t) - left) % Width(t)
    ensures var a, b := ShiftedLeft(t, x, left), Quotient(x, Pow2(right));
            var sum := ShiftedLeft(t, x, left) + Quotient(x, Pow2(Width(t) - left));
            && Infixed(Pipe, Is(a, TypeOf(t)), Is(b, TypeOf(t))) == Is(sum, TypeOf(t)) && sum < Modulus(t)
            && Infixed(Pipe, Is(b, TypeOf(t)), Is(a, TypeOf(t))) == Is(sum, TypeOf(t))
            && Wrapped(t, sum) == sum && (left == 0 ==> sum == Quotient(x, Pow2(0)) + ShiftedLeft(t, x, Width(t)))
  {
    hide Bitwise, Pow2, Quotient, ShiftedLeft, Infixed;
    NoRotation(t, x);
    if left > 0 { Joined(t, x, left); }
    var a, b := ShiftedLeft(t, x, left), Quotient(x, Pow2(right));
    SameType(Pipe, a, TypeOf(t), b);
    SameType(Pipe, b, TypeOf(t), a);
  }

  lemma NoRotation(t: ValType, x: nat)
    requires IsInteger(t) && x < Modulus(t)
    ensures ShiftedLeft(t, x, 0) == x == Quotient(x, Pow2(0)) && Bitwise(BitOr, x, x) == x
    ensures ShiftedLeft(t, x, Width(t)) == 0 == Quotient(x, Pow2(Width(t)))
  {
    hide Bitwise;
    Words();
    OrItself(x);
    ModOf(x, Modulus(t), 0);
    ModOf(0, Modulus(t), x);
    assert x * Pow2(0) == x;
  }

  // ----- comparisons -----

  lemma ComparisonsRight(cmp: CompareOp, t: ValType, x: nat, y: nat)
    requires OnIntegers(Compare(cmp, t)) && x < Modulus(t) && y < Modulus(t)
    ensures TextRight(Compare(cmp, t), x, y)
  {
    if cmp in {LtS, LeS, GtS, GeS} { SignedCompared(cmp, t, x, y); } else { UnsignedCompared(cmp, t, x, y); }
  }

  lemma SignedCompared(cmp: CompareOp, t: ValType, x: nat, y: nat)
    requires IsInteger(t) && x < Modulus(t) && y < Modulus(t) && cmp in {LtS, LeS, GtS, GeS}
    ensures TextRight(Compare(cmp, t), x, y)
  {
    hide Evaluate, Infixed, Signed, Fits, Converted, Stored;
    var token := TokenOf(Compare(cmp, t));
    var cx, cy := Cast(SignedType(t), X), Cast(SignedType(t), Y);
    SignedBounds(t, x);
    SignedBounds(t, y);
    CastVariables(t, x, y);
    CastStep(TypeOf(t), Infix(token, cx, cy), t, x, y);
    InfixStep(token, cx, cy, t, x, y);
    SameType(token, Signed(t, x), SignedType(t), Signed(t, y));
    TruthStored(cmp, t, true);
    TruthStored(cmp, t, false);
  }

  lemma TruthStored(cmp: CompareOp, t: ValType, b: bool)
    requires IsInteger(t)
    ensures Stored(Compare(cmp, t), Converted(TypeOf(t), Truth(b))) == CLang.FromOption(Some(Bool(b)))
  {}

  lemma UnsignedCompared(cmp: CompareOp, t: ValType, x: nat, y: nat)
    requires OnIntegers(Compare(cmp, t)) && x < Modulus(t) && y < Modulus(t) && cmp !in {LtS, LeS, GtS, GeS}
    ensures TextRight(Compare(cmp, t), x, y)
  {
    hide Evaluate, Infixed, Signed, Fits;
    OnVariables(TokenOf(Compare(cmp, t)), t, x, y);
  }

  // ----- every integer operator -----

  /** What is written for an operator on integers computes it, traps where it traps, and is never
      undefined. */
  lemma OperatorText(op: Op2, x: nat, y: nat)
    requires OnIntegers(op) && x < Modulus(op.Param()) && y < Modulus(op.Param())
    ensures Stored(op, Evaluate(Text(op), op.Param(), x, y)) == CLang.FromOption(WasmOp2(op, x, y))
  {
    hide TextRight;
    assert TextRight(op, x, y) by {
      match op
      case Compare(cmp, t) => ComparisonsRight(cmp, t, x, y);
      case Binary(bin, t) =>
        match bin {
          case Add => SumsRight(bin, t, x, y);
          case Sub => SumsRight(bin, t, x, y);
          case Mul => SumsRight(bin, t, x, y);
          case And => BitsRight(bin, t, x, y);
          case Or => BitsRight(bin, t, x, y);
          case Xor => BitsRight(bin, t, x, y);
          case DivU => UnsignedQuotientsRight(bin, t, x, y);
          case RemU => UnsignedQuotientsRight(bin, t, x, y);
          case DivS => SignedQuotientsRight(bin, t, x, y);
          case RemS => SignedQuotientsRight(bin, t, x, y);
          case Shl => ShiftsRight(bin, t, x, y);
          case ShrU => ShiftsRight(bin, t, x, y);
          case ShrS => ShiftsRight(bin, t, x, y);
          case Rotl => RotlRight(t, x, y);
          case Rotr => RotrRight(t, x, y);
          case _ =>
        }
    }
    Meaning(op, x, y);
  }

  lemma Meaning(op: Op2, x: nat, y: nat)
    ensures TextRight(op, x, y)
            <==> Stored(op, Evaluate(Text(op), op.Param(), x, y)) == CLang.FromOption(WasmOp2(op, x, y))
  {}

  /** A semantics whose operators on integers are those of WebAssembly. */
  ghost predicate Standard(sem: Sem) {
    forall op: Op2, x: nat, y: nat | OnIntegers(op) && x < Modulus(op.Param()) && y < Modulus(op.Param()) ::
      sem.apply2(op, x, y) == WasmOp2(op, x, y)
  }

  /** The statement made for an operator on integers does what its text does. */
  lemma StatementText(
    sem: Sem, p: CLang.CProg<Sym>, m: Module, f: Func, ts: seq<ValType>, op: Op2, s: CLang.CState<Sym>, x: nat, y: nat)
    requires Standard(sem) && OnIntegers(op) && |ts| >= 2 && ts[|ts| - 2..] == [op.Param(), op.Param()]
    requires StackVar(ts, 1) in s.vars && s.vars[StackVar(ts, 1)] == x < Modulus(op.Param())
    requires StackVar(ts, 0) in s.vars && s.vars[StackVar(ts, 0)] == y < Modulus(op.Param())
    ensures var stmts := CompileSimple(m, f, ts, Op2Expr(op)).stmts;
            && |stmts| == 1
            && CLang.ExecStmt(sem, p, stmts[0], s)
               == CLang.Put(StackVarAt(ts, 1, op.Result()), Stored(op, Evaluate(Text(op), op.Param(), x, y)), s)
  {
    hide Evaluate, Text, Stored, WasmOp2;
    OperatorText(op, x, y);
    assert ts[|ts| - 2] == ts[|ts| - 2..][0] && ts[|ts| - 1] == ts[|ts| - 2..][1];
  }
}

/** What hexadecimal floating-point literals mean (section 6.3.2 of the WebAssembly Core Specification) and
    what bit patterns mean (IEEE 754), stated apart from the printer and the parser of src/literal.cc, which
    both keep to it. */
module HexMeaning {
  import opened Util
  import opened Powers
  import opened Decimals
  import opened HexFloat

  // ----- bit patterns -----

  /** A number is `m` times two to the power of `q`. */
  datatype Meaning = Finite(neg: bool, m: nat, q: int) | Infinite(neg: bool) | NotANumber(neg: bool, payload: nat)

  function Binary32(neg: bool, exponent: nat, fraction: nat): Meaning {
    if exponent == 0xff then (if fraction == 0 then Infinite(neg) else NotANumber(neg, fraction))
    else if exponent == 0 then Finite(neg, fraction, -149)
    else Finite(neg, 0x80_0000 + fraction, exponent - 150)
  }

  function Binary64(neg: bool, exponent: nat, fraction: nat): Meaning {
    if exponent == 0x7ff then (if fraction == 0 then Infinite(neg) else NotANumber(neg, fraction))
    else if exponent == 0 then Finite(neg, fraction, -1074)
    else Finite(neg, 0x10_0000_0000_0000 + fraction, exponent - 1075)
  }

  function Ieee(t: Traits, bits: nat): Meaning {
    match t
    case F32Traits => Binary32(bits / 0x8000_0000 != 0, (bits / 0x80_0000) % 0x100, bits % 0x80_0000)
    case F64Traits =>
      Binary64(bits / 0x8000_0000_0000_0000 != 0, (bits / 0x10_0000_0000_0000) % 0x800, bits % 0x10_0000_0000_0000)
  }

  /** n * 2^x == m * 2^q */
  predicate SameValue(n: nat, x: int, m: nat, q: int) {
    if q >= x then n == m * Pow2(q - x) else n * Pow2(x - q) == m
  }

  // ----- literals -----

  predicate Stands(base: nat, c: char, d: nat) {
    d < base <= 16 && ("0123456789abcdef"[d] == c || "0123456789ABCDEF"[d] == c)
  }

  /** Reading digits from the left, starting from `start`, leads to `n`.  Underscores are passed over. */
  ghost predicate Reads(base: nat, s: string, start: nat, n: nat)
    decreases |s|
  {
    if s == "" then n == start
    else if s[0] == '_' then Reads(base, s[1..], start, n)
    else exists d: nat :: Stands(base, s[0], d) && Reads(base, s[1..], base * start + d, n)
  }

  function Digits(s: string): nat { if s == "" then 0 else (if s[0] == '_' then 0 else 1) + Digits(s[1..]) }

  /** The exponent of a literal, with `mark` "p" or "P". */
  datatype Exponent = NoExponent | Exponent(mark: string, sign: string, digits: string)

  datatype Literal = Literal(whole: string, dot: bool, fraction: string, exponent: Exponent)

  predicate WellFormed(h: Literal) {
    && Digits(h.whole) > 0 && (h.fraction != "" ==> h.dot)
    && (h.exponent.Exponent? ==>
          h.exponent.mark in ["p", "P"] && h.exponent.sign in ["", "+", "-"] && Digits(h.exponent.digits) > 0)
  }

  function ExponentText(e: Exponent): string {
    match e case NoExponent => "" case Exponent(mark, sign, digits) => mark + sign + digits
  }

  function Text(h: Literal): string {
    "0x" + h.whole + (if h.dot then "." else "") + h.fraction + ExponentText(h.exponent)
  }

  ghost predicate ExponentIs(e: Exponent, v: int) {
    match e
    case NoExponent => v == 0
    case Exponent(_, sign, digits) => if sign == "-" then v <= 0 && Reads(10, digits, 0, -v)
      else v >= 0 && Reads(10, digits, 0, v)
  }

  /** The digits denote `n`, the exponent `e`; each digit behind the dot is worth four bits. */
  ghost predicate LiteralIs(h: Literal, n: nat, e: int) {
    Reads(16, h.whole + h.fraction, 0, n) && ExponentIs(h.exponent, e)
  }

  predicate Signed(s: string, neg: bool, body: string) {
    if neg then s == "-" + body else s == body || s == "+" + body
  }

  /** The payload that is meant when a NaN comes without one. */
  function Canonical(t: Traits): nat { if t.F32Traits? then 0x40_0000 else 0x8_0000_0000_0000 }

  /** `s` is a literal for `v`. */
  ghost predicate Denotes(t: Traits, s: string, v: Meaning) {
    exists body :: Signed(s, v.neg, body) && BodyDenotes(t, body, v)
  }

  ghost predicate BodyDenotes(t: Traits, body: string, v: Meaning) {
    match v
    case Finite(_, m, q) =>
      exists h, n, e ::
        WellFormed(h) && body == Text(h) && LiteralIs(h, n, e) && SameValue(n, e - 4 * Digits(h.fraction), m, q)
    case Infinite(_) => body == "inf"
    case NotANumber(_, payload) =>
      (body == "nan" && payload == Canonical(t)) || exists a :: body == "nan:0x" + a && Reads(16, a, 0, payload)
  }

  // ----- the fields of a pattern -----

  lemma Constants()
    ensures Pow2(8) == 0x100 && Pow2(11) == 0x800 && Pow2(22) == 0x40_0000 && Pow2(23) == 0x80_0000
    ensures Pow2(31) == 0x8000_0000 && Pow2(51) == 0x8_0000_0000_0000 && Pow2(52) == 0x10_0000_0000_0000
    ensures Pow2(63) == 0x8000_0000_0000_0000
  {
    assert Pow2(8) == 0x100;
    assert Pow2(11) == 8 * Pow2(8);
    Pow2Add(11, 11);
    Pow2Add(1, 22);
    Pow2Add(23, 8);
    Pow2Add(22, 22);
    Pow2Add(44, 8);
    Pow2Add(1, 51);
    Pow2Add(52, 11);
  }

  /** What a pattern means, in terms of the fields the source takes it apart into. */
  lemma FieldsMean(t: Traits, bits: nat)
    ensures var neg, exp, sig := IsNeg(t, bits), ExpOf(t, bits), SigOf(t, bits);
            Ieee(t, bits) ==
            if exp == t.MaxExp() then (if sig == 0 then Infinite(neg) else NotANumber(neg, sig))
            else if exp == t.MinExp() then Finite(neg, sig, exp + 1 - t.SigBits())
            else Finite(neg, Pow2(t.SigBits()) + sig, exp - t.SigBits())
  {
    hide Pow2;
    Constants();
  }

  /** The fields a pattern was made of. */
  lemma FieldsOfMade(t: Traits, neg: bool, exp: int, sig: nat)
    requires t.MinExp() <= exp <= t.MaxExp() && sig < Pow2(t.SigBits())
    ensures var bits := Make(t, neg, exp, sig);
            bits < Pow2(t.Bits()) && IsNeg(t, bits) == neg && ExpOf(t, bits) == exp && SigOf(t, bits) == sig
  {
    hide Pow2;
    Widths(t);
    JoinedFields(neg, exp + t.ExpBias(), Pow2(t.SigBits()), sig, Pow2(t.ExpBits()));
  }

  lemma JoinedFields(neg: bool, exp: nat, p: nat, sig: nat, e: nat)
    requires 0 < p && exp < e && sig < p
    ensures var s := e * p; var n := Joined(if neg then s else 0, exp, p, sig);
            s > 0 && n < 2 * s && (n / s != 0 <==> neg) && (n / p) % e == exp && n % p == sig
  {
    var low := exp * p + sig;
    var k := if neg then 1 else 0;
    LowPart(exp, e, p, sig);
    ModOf(k, e * p, low);
    ModOf(k * e + exp, p, sig);
    Scale(e, k, exp, p);
    ModOf(k, e, exp);
    assert e * k == k * e;
    assert k * (e * p) == if neg then e * p else 0;
  }

  /** Different patterns mean different things. */
  lemma MeaningInjective(t: Traits, a: nat, b: nat)
    requires a < Pow2(t.Bits()) && b < Pow2(t.Bits()) && Ieee(t, a) == Ieee(t, b)
    ensures a == b
  {
    hide Pow2, Make, IsNeg, ExpOf, SigOf, Ieee;
    FieldsMean(t, a);
    FieldsMean(t, b);
    MadeOfFields(t, a);
    MadeOfFields(t, b);
  }

  // ----- what is printed -----

  lemma HexCharStands(d: Nybble)
    ensures Stands(16, HexChar(d), d) && HexChar(d) != '_'
  {}

  lemma {:induction false} HexTextReads(ds: seq<Nybble>, start: nat)
    ensures Reads(16, HexText(ds), start, Shifted(start, ds)) && Digits(HexText(ds)) == |ds|
    decreases |ds|
  {
    hide Shifted, Stands, HexChar;
    if ds == [] {
      ShiftedNone(start);
    } else {
      ShiftedStep(start, ds);
      HexCharStands(ds[0]);
      HexTextReads(ds[1..], 16 * start + ds[0]);
      assert HexText(ds)[1..] == HexText(ds[1..]);
    }
  }

  lemma ShiftedStep(n: nat, ds: seq<Nybble>)
    requires ds != []
    ensures Shifted(n, ds) == Shifted(16 * n + ds[0], ds[1..])
  {
    hide Pow16;
    var k := |ds| - 1;
    Pow16Step(k);
    Scale(16, n, ds[0], Pow16(k));
    assert n * Pow16(k + 1) == n * (16 * Pow16(k));
  }

  lemma OneDigit(base: nat, c: char, d: nat, s: string, start: nat, n: nat)
    requires c != '_' && Stands(base, c, d) && Reads(base, s, base * start + d, n)
    ensures Reads(base, [c] + s, start, n) && Digits([c] + s) == 1 + Digits(s)
  {
    hide Stands;
    assert ([c] + s)[1..] == s;
  }

  lemma {:induction false} DecimalReads(m: nat, rest: string, n: nat)
    requires Reads(10, rest, m, n)
    ensures Reads(10, Decimal(m) + rest, 0, n) && Digits(Decimal(m) + rest) > 0
    decreases m
  {
    hide Stands, Reads, Digits;
    assert Stands(10, Digit(m % 10), m % 10) by { DigitStands(m % 10); }
    if m < 10 {
      OneDigit(10, Digit(m), m, rest, 0, n);
    } else {
      OneDigit(10, Digit(m % 10), m % 10, rest, m / 10, n);
      DecimalReads(m / 10, [Digit(m % 10)] + rest, n);
      assert Decimal(m) + rest == Decimal(m / 10) + ([Digit(m % 10)] + rest);
    }
  }

  lemma DigitStands(d: nat)
    requires d < 10
    ensures Stands(10, Digit(d), d) && Digit(d) != '_'
  {}

  lemma DecimalIs(m: nat)
    ensures Reads(10, Decimal(m), 0, m) && Digits(Decimal(m)) > 0
  {
    DecimalReads(m, "", m);
    assert Decimal(m) + "" == Decimal(m);
  }

  /** The literal that is printed for a number. */
  function PrintedLiteral(t: Traits, exp: int, sig: nat): Literal
    requires sig < Pow2(t.SigBits())
  {
    if sig == 0 && exp == t.MinExp() then Literal("0", false, "", Exponent("p", "+", "0"))
    else
      var e := ShownExp(t, exp, sig);
      Literal("1", sig != 0, HexText(FractionOf(t, exp, sig)),
        Exponent("p", if e < 0 then "-" else "+", Decimal(if e < 0 then -e else e)))
  }

  lemma PrintedText(t: Traits, exp: int, sig: nat)
    requires sig < Pow2(t.SigBits())
    ensures NumberText(t, exp, sig) == Text(PrintedLiteral(t, exp, sig))
  {
    hide Pow2, FractionWord, Nybbles, ShownExp, Decimal, HexText;
    if !(sig == 0 && exp == t.MinExp()) {
      var e := ShownExp(t, exp, sig);
      var f := HexText(FractionOf(t, exp, sig));
      if sig == 0 { NoFraction(t, exp); }
      Regroup(sig != 0, f, if e < 0 then "-" else "+", Decimal(if e < 0 then -e else e));
    }
  }

  lemma Regroup(dot: bool, f: string, sign: string, d: string)
    requires !dot ==> f == ""
    ensures "0x1" + (if dot then "." + f else "") + "p" + (sign + d)
         == "0x" + "1" + (if dot then "." else "") + f + ("p" + sign + d)
  {
    assert "0x1" == "0x" + "1";
    assert "p" + (sign + d) == "p" + sign + d;
  }

  /** What is printed for a number has exactly its value. */
  lemma NumberPrinted(t: Traits, exp: int, sig: nat)
    requires t.MinExp() <= exp < t.MaxExp() && sig < Pow2(t.SigBits())
    ensures var h := PrintedLiteral(t, exp, sig);
            var e := if sig == 0 && exp == t.MinExp() then 0 else ShownExp(t, exp, sig);
            var n := if sig == 0 && exp == t.MinExp() then 0 else Shifted(1, FractionOf(t, exp, sig));
            && WellFormed(h) && LiteralIs(h, n, e)
            && (if exp == t.MinExp() then SameValue(n, e - 4 * Digits(h.fraction), sig, exp + 1 - t.SigBits())
                else SameValue(n, e - 4 * Digits(h.fraction), Pow2(t.SigBits()) + sig, exp - t.SigBits()))
  {
    hide Pow2, FractionOf, ShownExp, Decimal, Shifted, Reads, Digits, HexText;
    if sig == 0 && exp == t.MinExp() {
      ZeroPrinted(t);
    } else {
      DigitsPrinted(t, exp, sig);
      LiteralPrinted(t, exp, sig);
    }
  }

  lemma LiteralPrinted(t: Traits, exp: int, sig: nat)
    requires sig < Pow2(t.SigBits()) && !(sig == 0 && exp == t.MinExp())
    ensures var h, ds := PrintedLiteral(t, exp, sig), FractionOf(t, exp, sig);
            WellFormed(h) && LiteralIs(h, Shifted(1, ds), ShownExp(t, exp, sig)) && Digits(h.fraction) == |ds|
  {
    hide Pow2, FractionOf, ShownExp, Decimal, Shifted, Stands, HexText;
    var ds, e := FractionOf(t, exp, sig), ShownExp(t, exp, sig);
    HexTextReads(ds, 1);
    HexCharStands(1);
    OneDigit(16, '1', 1, HexText(ds), 0, Shifted(1, ds));
    assert "1" == ['1'];
    OnePrinted();
    DecimalIs(if e < 0 then -e else e);
    if sig == 0 { NoFraction(t, exp); }
  }

  lemma NoFraction(t: Traits, exp: int)
    ensures 0 < Pow2(t.SigBits()) && HexText(FractionOf(t, exp, 0)) == ""
  {}

  lemma OnePrinted()
    ensures Digits("1") == 1
  {
    assert "1"[1..] == "";
  }

  lemma ZeroPrinted(t: Traits)
    ensures Reads(16, "0" + "", 0, 0) && Reads(10, "0", 0, 0) && Digits("0") == 1
    ensures WellFormed(Literal("0", false, "", Exponent("p", "+", "0")))
  {
    assert "0" + "" == "0" && "0"[1..] == "";
    assert Stands(16, '0', 0) && Stands(10, '0', 0);
  }

  /** What is printed for a bit pattern denotes exactly what it means: the number itself, infinity, or the
      payload of a NaN, for which "nan" alone stands for the canonical one. */
  lemma PrintedDenotes(t: Traits, bits: nat)
    requires bits < Pow2(t.Bits())
    ensures Denotes(t, HexOf(t, bits), Ieee(t, bits))
  {
    hide Pow2, IsNeg, ExpOf, SigOf, Ieee, NumberText, NanText, PrintedLiteral, LiteralIs, WellFormed, SameValue;
    MadeOfFields(t, bits);
    FieldsMean(t, bits);
    var neg, exp, sig := IsNeg(t, bits), ExpOf(t, bits), SigOf(t, bits);
    var body;
    if exp != t.MaxExp() {
      body := NumberText(t, exp, sig);
      NumberPrinted(t, exp, sig);
      PrintedText(t, exp, sig);
    } else if sig == 0 {
      body := "inf";
    } else {
      body := NanText(t, sig);
      NanPrinted(t, sig);
    }
    assert BodyDenotes(t, body, Ieee(t, bits));
    assert "" + body == body;
    assert Signed(HexOf(t, bits), neg, body);
  }

  lemma NanPrinted(t: Traits, sig: nat)
    requires 0 < sig < Pow2(t.SigBits())
    ensures (NanText(t, sig) == "nan" && sig == Canonical(t))
         || exists a :: NanText(t, sig) == "nan:0x" + a && Reads(16, a, 0, sig)
  {
    hide Pow2, Pow16, HexText, AllNybbles, Reads;
    Constants();
    if sig != t.QuietNanTag() {
      SigFitsWord(t, sig);
      var ds := AllNybbles(sig, TagLen(sig, Nybs(t)));
      AllNybblesValue(sig, TagLen(sig, Nybs(t)));
      assert 0 * Pow16(|ds|) == 0;
      HexTextReads(ds, 0);
    }
  }

  /** Digits are printed in lower case, and nothing is printed that no literal has. */
  predicate Plain(s: string) { forall c | c in s :: '0' <= c <= '9' || 'a' <= c <= 'f' || c in "inpx:.+-" }

  lemma {:induction false} HexTextPlain(ds: seq<Nybble>)
    ensures Plain(HexText(ds))
    decreases |ds|
  {
    if ds != [] { HexTextPlain(ds[1..]); }
  }

  lemma PlainJoin(a: string, b: string)
    requires Plain(a) && Plain(b)
    ensures Plain(a + b)
  {}

  lemma PrintedPlain(t: Traits, bits: nat)
    requires bits < Pow2(t.Bits())
    ensures Plain(HexOf(t, bits))
  {
    hide Pow2, IsNeg, ExpOf, SigOf, NumberText, HexText, AllNybbles, Plain;
    MadeOfFields(t, bits);
    var exp, sig := ExpOf(t, bits), SigOf(t, bits);
    Constant("-");
    Constant("");
    Constant("inf");
    Constant("nan");
    Constant("nan:0x");
    var body := if exp != t.MaxExp() then NumberText(t, exp, sig) else if sig == 0 then "inf" else NanText(t, sig);
    if exp != t.MaxExp() {
      NumberPlain(t, exp, sig);
    } else if sig != 0 && sig != t.QuietNanTag() {
      SigFitsWord(t, sig);
      HexTextPlain(AllNybbles(sig, TagLen(sig, Nybs(t))));
      PlainJoin("nan:0x", HexText(AllNybbles(sig, TagLen(sig, Nybs(t)))));
    }
    PlainJoin(if IsNeg(t, bits) then "-" else "", body);
  }

  lemma Constant(s: string)
    requires s in ["", "-", ".", "p", "+", "inf", "nan", "nan:0x", "0x0p+0", "0x1"]
    ensures Plain(s)
  {}

  lemma NumberPlain(t: Traits, exp: int, sig: nat)
    requires sig < Pow2(t.SigBits())
    ensures Plain(NumberText(t, exp, sig))
  {
    hide Pow2, FractionWord, Nybbles, ShownExp, Decimal, HexText, Plain;
    Constant("0x0p+0");
    Constant("0x1");
    Constant("p");
    Constant("");
    if !(sig == 0 && exp == t.MinExp()) {
      var e := ShownExp(t, exp, sig);
      if sig != 0 {
        Constant(".");
        HexTextPlain(Nybbles(FractionWord(t, exp, sig), Nybs(t)));
        PlainJoin(".", HexText(Nybbles(FractionWord(t, exp, sig), Nybs(t))));
      }
      ExponentPlain(e);
      PlainJoin("0x1", FractionText(t, exp, sig));
      PlainJoin("0x1" + FractionText(t, exp, sig), "p");
      PlainJoin("0x1" + FractionText(t, exp, sig) + "p", ExpText(e));
    }
  }

  lemma ExponentPlain(e: int)
    ensures Plain(ExpText(e))
  {
    hide Decimal;
  }
}

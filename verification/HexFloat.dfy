/** Hexadecimal floating-point literals of the text format (src/literal.cc; section 6.3.2 of the
    WebAssembly Core Specification).  Bit patterns are numbers; shifts are products and quotients
    by powers of two. */
module HexFloat {
  import opened Util
  import opened Powers
  import opened Decimals

  // ----- formats -----

  /** FloatTraits: the width of the format and of its significand. */
  datatype Traits = F32Traits | F64Traits
  {
    function Bits(): nat { if F32Traits? then 32 else 64 }
    function SigBits(): nat { if F32Traits? then 23 else 52 }
    function ExpBits(): nat { Bits() - SigBits() - 1 }
    function MaxExp(): nat { if F32Traits? then 128 else 1024 }
    function MinExp(): int { 1 - MaxExp() }
    function ExpBias(): nat { MaxExp() - 1 }
    function QuietNanTag(): nat { Pow2(SigBits() - 1) }
    /** The size of the output buffer. */
    function MaxHexBufferSize(): nat { if F32Traits? then 20 else 40 }
  }

  /** The fields of a bit pattern. */
  function IsNeg(t: Traits, bits: nat): bool { bits / Pow2(t.Bits() - 1) != 0 }

  function ExpOf(t: Traits, bits: nat): int {
    ((bits / Pow2(t.SigBits())) % Pow2(t.ExpBits())) - t.ExpBias()
  }

  function SigOf(t: Traits, bits: nat): nat { bits % Pow2(t.SigBits()) }

  function Make(t: Traits, sign: bool, exp: int, sig: nat): nat
    requires t.MinExp() <= exp <= t.MaxExp() && sig < Pow2(t.SigBits())
  {
    Joined(if sign then Pow2(t.Bits() - 1) else 0, exp + t.ExpBias(), Pow2(t.SigBits()), sig)
  }

  function Joined(sign: nat, exp: nat, p: nat, sig: nat): nat { sign + exp * p + sig }

  lemma Widths(t: Traits)
    ensures Pow2(t.ExpBits()) == 2 * t.MaxExp()
    ensures Pow2(t.Bits() - 1) == Pow2(t.ExpBits()) * Pow2(t.SigBits())
    ensures Pow2(t.Bits()) == 2 * Pow2(t.Bits() - 1)
  {
    assert Pow2(8) == 256;
    assert Pow2(11) == 2048 by { assert Pow2(11) == 8 * Pow2(8); }
    Pow2Add(t.ExpBits(), t.SigBits());
  }

  /** A bit pattern is made of its fields. */
  lemma MadeOfFields(t: Traits, bits: nat)
    requires bits < Pow2(t.Bits())
    ensures t.MinExp() <= ExpOf(t, bits) <= t.MaxExp() && SigOf(t, bits) < Pow2(t.SigBits())
    ensures Make(t, IsNeg(t, bits), ExpOf(t, bits), SigOf(t, bits)) == bits
  {
    hide Pow2, Joined;
    Widths(t);
    var p, e := Pow2(t.SigBits()), Pow2(t.ExpBits());
    JoinedIs(bits, p, e, Pow2(t.Bits() - 1));
  }

  lemma JoinedIs(bits: nat, p: nat, e: nat, s: nat)
    requires p > 0 && e > 0 && s == e * p && bits < 2 * s
    ensures s > 0 && Joined(if bits / s != 0 then s else 0, (bits / p) % e, p, bits % p) == bits
    ensures (bits / p) % e < e && bits % p < p
  {
    Fields(bits, p, e);
    SignBit(bits / s, s);
  }

  lemma SignBit(q: nat, s: nat)
    requires q <= 1
    ensures q * s == if q != 0 then s else 0
  {}

  lemma Fields(bits: nat, p: nat, e: nat)
    requires p > 0 && e > 0 && bits < 2 * (e * p)
    ensures (e * p) > 0 && bits / (e * p) <= 1
    ensures bits == (bits / (e * p)) * (e * p) + ((bits / p) % e) * p + bits % p
    ensures (bits / p) % e < e
  {
    var top, low := bits / p, bits % p;
    SplitAt(bits, p);
    var q, r := top / e, top % e;
    SplitAt(top, e);
    Scale(e, q, r, p);
    BelowProduct(r, e, p);
    LowPart(r, e, p, low);
    SumIs(bits, top, p, low, q * (e * p), r * p);
    ModOf(q, e * p, r * p + low);
    DivBelow(bits, e * p, 2);
  }

  lemma SplitAt(n: nat, p: nat)
    requires p > 0
    ensures n == p * (n / p) + n % p && n % p < p && n / p >= 0
  {}

  lemma LowPart(r: nat, e: nat, p: nat, low: nat)
    requires r < e && low < p
    ensures r * p + low < e * p
  {
    MulSign(p, e - r);
    assert p * (e - r) == e * p - r * p;
  }

  lemma SumIs(bits: nat, top: nat, p: nat, low: nat, x: nat, y: nat)
    requires bits == p * top + low && top * p == x + y
    ensures bits == x + (y + low)
  {}

  // ----- hexadecimal digits -----

  type Nybble = d: nat | d < 16

  function HexChar(d: Nybble): (c: char) {
    if d < 10 then '0' + d as char else 'a' + (d - 10) as char
  }

  /** ParseHexdigit. */
  function HexDigitValue(c: char): (r: Option<Nybble>) {
    if '0' <= c <= '9' then Some(c as nat - '0' as nat)
    else if 'a' <= c <= 'f' then Some(10 + (c as nat - 'a' as nat))
    else if 'A' <= c <= 'F' then Some(10 + (c as nat - 'A' as nat))
    else None
  }

  function Pow16(k: nat): (p: nat)
    ensures p > 0
  {
    Pow2(4 * k)
  }

  lemma Pow16Step(k: nat)
    ensures Pow16(k + 1) == 16 * Pow16(k) && Pow16(k) > 0
  {
    assert Pow2(4 * k + 4) == 2 * Pow2(4 * k + 3) == 4 * Pow2(4 * k + 2) == 8 * Pow2(4 * k + 1);
  }

  lemma TopNybble(R: nat, n: nat)
    requires 0 < R < Pow16(n)
    ensures n > 0 && R / Pow16(n - 1) < 16 && R % Pow16(n - 1) < Pow16(n - 1)
    ensures R == (R / Pow16(n - 1)) * Pow16(n - 1) + R % Pow16(n - 1)
  {
    hide Pow16;
    assert n > 0 by { assert Pow16(0) == 1 by { NoDigits(); } }
    Pow16Step(n - 1);
    DivBelow(R, Pow16(n - 1), 16);
  }

  lemma NoDigits()
    ensures Pow16(0) == 1
  {}

  /** The hexadecimal digits of a number of `n` digits, most significant first, without trailing zeros. */
  function Nybbles(R: nat, n: nat): (s: seq<Nybble>)
    requires R < Pow16(n)
    ensures |s| <= n
    decreases n
  {
    if R == 0 then []
    else
      TopNybble(R, n);
      [R / Pow16(n - 1)] + Nybbles(R % Pow16(n - 1), n - 1)
  }

  /** The number the digits denote. */
  function HexValue(ds: seq<Nybble>): nat {
    if ds == [] then 0 else ds[0] * Pow16(|ds| - 1) + HexValue(ds[1..])
  }

  lemma Pow16Add(a: nat, b: nat)
    ensures Pow16(a + b) == Pow16(a) * Pow16(b)
  {
    Pow2Add(4 * a, 4 * b);
  }

  /** The digits denote the number, the missing ones being zero. */
  lemma {:induction false} NybblesValue(R: nat, n: nat)
    requires R < Pow16(n)
    ensures HexValue(Nybbles(R, n)) * Pow16(n - |Nybbles(R, n)|) == R
    decreases n
  {
    hide Pow16;
    if R > 0 {
      TopNybble(R, n);
      var p := Pow16(n - 1);
      var ds, rest := Nybbles(R, n), Nybbles(R % p, n - 1);
      NybblesValue(R % p, n - 1);
      assert ds[1..] == rest;
      Pow16Add(|rest|, n - 1 - |rest|);
      Distribute(R / p, Pow16(|rest|), HexValue(rest), Pow16(n - 1 - |rest|));
    } else {
      assert HexValue([]) == 0;
    }
  }

  lemma Distribute(t: nat, a: nat, v: nat, b: nat)
    ensures (t * a + v) * b == t * (a * b) + v * b
  {}

  /** A number with `j` zero digits at the end has at most `n - j` digits. */
  lemma {:induction false} NybblesShort(R: nat, n: nat, j: nat, q: nat)
    requires R < Pow16(n) && j <= n && R == q * Pow16(j)
    ensures |Nybbles(R, n)| <= n - j
    decreases n
  {
    hide Pow16;
    if R > 0 {
      TopNybble(R, n);
      MulSign(Pow16(j), q);
      if n > j {
        Pow16Add(n - 1 - j, j);
        LowMultiple(q, Pow16(n - 1 - j), Pow16(j));
        NybblesShort(R % Pow16(n - 1), n - 1, j, q % Pow16(n - 1 - j));
      }
    }
  }

  lemma LowMultiple(q: nat, u: nat, v: nat)
    requires u > 0 && v > 0
    ensures u * v > 0 && (q * v) % (u * v) == (q % u) * v
  {
    var k, r := q / u, q % u;
    SplitAt(q, u);
    Scale(u, k, r, v);
    BelowProduct(r, u, v);
    ModOf(k, u * v, r * v);
  }

  lemma Scale(u: nat, k: nat, r: nat, v: nat)
    ensures (u * k + r) * v == k * (u * v) + r * v
  {}

  lemma BelowProduct(r: nat, u: nat, v: nat)
    requires r < u && v > 0
    ensures r * v < u * v && u * v > 0
  {
    MulSign(v, u - r);
    assert v * (u - r) == u * v - r * v;
    assert r * v >= 0;
  }

  function HexText(ds: seq<Nybble>): (s: string)
    ensures |s| == |ds|
  {
    if ds == [] then "" else [HexChar(ds[0])] + HexText(ds[1..])
  }

  /** All `n` hexadecimal digits of a number. */
  function AllNybbles(x: nat, n: nat): (s: seq<Nybble>)
    requires x < Pow16(n)
    ensures |s| == n
    decreases n
  {
    if n == 0 then []
    else
      SplitNybble(x, n);
      [x / Pow16(n - 1)] + AllNybbles(x % Pow16(n - 1), n - 1)
  }

  lemma SplitNybble(x: nat, n: nat)
    requires x < Pow16(n) && n > 0
    ensures x / Pow16(n - 1) < 16 && x % Pow16(n - 1) < Pow16(n - 1)
    ensures x == (x / Pow16(n - 1)) * Pow16(n - 1) + x % Pow16(n - 1)
  {
    hide Pow16;
    Pow16Step(n - 1);
    DivBelow(x, Pow16(n - 1), 16);
    SplitAt(x, Pow16(n - 1));
  }

  lemma {:induction false} AllNybblesValue(x: nat, n: nat)
    requires x < Pow16(n)
    ensures HexValue(AllNybbles(x, n)) == x
    decreases n
  {
    hide Pow16;
    if n > 0 {
      SplitNybble(x, n);
      AllNybblesValue(x % Pow16(n - 1), n - 1);
      assert AllNybbles(x, n)[1..] == AllNybbles(x % Pow16(n - 1), n - 1);
    } else {
      NoDigits();
    }
  }

  /** The number of digits without leading zeros, at most `n`. */
  function TagLen(x: nat, n: nat): (k: nat)
    requires x < Pow16(n)
    ensures k <= n && x < Pow16(k) && (k > 0 ==> x >= Pow16(k - 1))
  {
    if n > 0 && x < Pow16(n - 1) then TagLen(x, n - 1) else n
  }

  // ----- writing -----

  function Nybs(t: Traits): nat { t.Bits() / 4 }

  /** The word a fraction is printed from: the significand at the top; for a subnormal number its
      leading one is shifted out. */
  function FractionWord(t: Traits, exp: int, sig: nat): (r: nat)
    requires sig < Pow2(t.SigBits())
    ensures r < Pow16(Nybs(t))
  {
    TopFits(t, sig);
    var top := sig * Pow2(t.Bits() - t.SigBits());
    if exp == t.MinExp() && top != 0 then
      var zeros := LeadingZeroes(t, top);
      if zeros < t.Bits() - 1 then
        ModLess(top * Pow2(zeros + 1), Pow2(t.Bits()));
        (top * Pow2(zeros + 1)) % Pow2(t.Bits())
      else 0
    else top
  }

  lemma TopFits(t: Traits, sig: nat)
    requires sig < Pow2(t.SigBits())
    ensures sig * Pow2(t.Bits() - t.SigBits()) < Pow2(t.Bits()) == Pow16(Nybs(t))
  {
    hide Pow2;
    Pow2Add(t.SigBits(), t.Bits() - t.SigBits());
    BelowProduct(sig, Pow2(t.SigBits()), Pow2(t.Bits() - t.SigBits()));
  }

  lemma ModLess(n: nat, p: nat)
    requires p > 0
    ensures n % p < p
  {}

  /** Clz on a word of the format's width. */
  function LeadingZeroes(t: Traits, word: nat): nat {
    if BitLen(word) <= t.Bits() then t.Bits() - BitLen(word) else 0
  }

  function FractionText(t: Traits, exp: int, sig: nat): string
    requires sig < Pow2(t.SigBits())
  {
    if sig == 0 then "" else "." + HexText(Nybbles(FractionWord(t, exp, sig), Nybs(t)))
  }

  /** The exponent that is printed. */
  function ShownExp(t: Traits, exp: int, sig: nat): int {
    if exp == t.MinExp() && sig != 0 then exp - LeadingZeroes(t, sig * Pow2(t.Bits() - t.SigBits())) else exp
  }

  function ExpText(e: int): string {
    if e < 0 then "-" + Decimal(-e) else "+" + Decimal(e)
  }

  function NumberText(t: Traits, exp: int, sig: nat): string
    requires sig < Pow2(t.SigBits())
  {
    if sig == 0 && exp == t.MinExp() then "0x0p+0"
    else "0x1" + FractionText(t, exp, sig) + "p" + ExpText(ShownExp(t, exp, sig))
  }

  function NanText(t: Traits, sig: nat): string
    requires sig < Pow2(t.SigBits())
  {
    if sig == t.QuietNanTag() then "nan" else
    SigFitsWord(t, sig);
    "nan:0x" + HexText(AllNybbles(sig, TagLen(sig, Nybs(t))))
  }

  lemma SigFitsWord(t: Traits, sig: nat)
    requires sig < Pow2(t.SigBits())
    ensures sig < Pow16(Nybs(t))
  {
    Pow2Less(t.SigBits(), t.Bits());
  }

  /** What WriteHex prints. */
  function HexOf(t: Traits, bits: nat): string
    requires bits < Pow2(t.Bits())
  {
    MadeOfFields(t, bits);
    var exp, sig := ExpOf(t, bits), SigOf(t, bits);
    (if IsNeg(t, bits) then "-" else "")
    + if exp == t.MaxExp() then (if sig == 0 then "inf" else NanText(t, sig)) else NumberText(t, exp, sig)
  }

  // ----- parsing -----

  datatype LiteralType = Hexfloat | Infinity | NanLiteral

  /** An optional sign. */
  function StripSign(s: string): (bool, string) {
    if s != "" && s[0] == '-' then (true, s[1..])
    else if s != "" && s[0] == '+' then (false, s[1..])
    else (false, s)
  }

  /** The digits after ":0x". */
  function TagOf(t: Traits, s: string, tag: nat): Option<nat> {
    if s == "" then Some(tag)
    else if s[0] == '_' then TagOf(t, s[1..], tag)
    else
      match HexDigitValue(s[0])
      case None => None
      case Some(d) => if tag * 16 + d >= Pow2(t.SigBits()) then None else TagOf(t, s[1..], tag * 16 + d)
  }

  /** In these functions a text of another form than the lexer lets through gives no result; the
      source asserts the form. */
  function ParseNan(t: Traits, s: string): Option<nat> {
    var (neg, body) := StripSign(s);
    if !("nan" <= body) then None
    else if body == "nan" then QuietFits(t); Some(Make(t, neg, t.MaxExp(), t.QuietNanTag()))
    else if !(":0x" <= body[3..]) then None
    else
      match TagOf(t, body[6..], 0)
      case None => None
      case Some(tag) => if tag == 0 || tag >= Pow2(t.SigBits()) then None else Some(Make(t, neg, t.MaxExp(), tag))
  }

  lemma QuietFits(t: Traits)
    ensures t.QuietNanTag() < Pow2(t.SigBits())
  {}

  function ParseInfinity(t: Traits, s: string): Option<nat> {
    var (neg, body) := StripSign(s);
    if "inf" <= body then Some(Make(t, neg, t.MaxExp(), 0)) else None
  }

  /** The state of the loop over the significand. */
  datatype Scan = Scan(sig: nat, exp: int, seenDot: bool, trailing: bool)

  function ScanDigit(t: Traits, st: Scan, d: Nybble): Scan {
    if BitLen(st.sig) <= t.SigBits() + 1
      then st.(sig := st.sig * 16 + d, exp := if st.seenDot then st.exp - 4 else st.exp)
    else st.(trailing := st.trailing || d != 0, exp := if st.seenDot then st.exp else st.exp + 4)
  }

  /** The loop over the significand; it stops at the first other character. */
  function ScanSig(t: Traits, s: string, st: Scan): (Scan, string) {
    if s == "" then (st, s)
    else if s[0] == '_' then ScanSig(t, s[1..], st)
    else if s[0] == '.' then ScanSig(t, s[1..], st.(seenDot := true))
    else
      match HexDigitValue(s[0])
      case None => (st, s)
      case Some(d) => ScanSig(t, s[1..], ScanDigit(t, st, d))
  }

  predicate IsDigit(c: char) { '0' <= c <= '9' }

  /** The loop over the exponent; it stops early once the number is too large. */
  function ScanExp(t: Traits, s: string, exponent: nat, add: int): Option<nat> {
    if s == "" then Some(exponent)
    else if s[0] == '_' then ScanExp(t, s[1..], exponent, add)
    else if !IsDigit(s[0]) then None
    else
      var e := exponent * 10 + (s[0] as nat - '0' as nat);
      if e + add >= t.MaxExp() then Some(e) else ScanExp(t, s[1..], e, add)
  }

  function Negated(e: Option<nat>): Option<int> {
    match e case None => None case Some(n) => Some(0 - n)
  }

  /** The exponent after the significand, with its sign. */
  function ParseExp(t: Traits, s: string, sigExp: int): Option<int> {
    if s == "" then Some(0)
    else if s[0] != 'p' && s[0] != 'P' then None
    else if "-" <= s[1..] then
      Negated(ScanExp(t, s[2..], 0, -sigExp))
    else if "+" <= s[1..] then ScanExp(t, s[2..], 0, sigExp)
    else ScanExp(t, s[1..], 0, 0)
  }

  /** ShiftAndRoundToNearest. */
  function ShiftAndRound(sig: nat, shift: nat, seenTrailing: bool): nat
    requires shift > 0
  {
    (if (sig / Pow2(shift)) % 2 == 1 || seenTrailing then sig + Pow2(shift - 1) else sig) / Pow2(shift)
  }

  /** A significand as long as the field, and whether a digit that was shifted out was not zero. */
  function Normalized(t: Traits, sig: nat, trailing: bool): (nat, bool)
    requires sig > 0
  {
    var n := BitLen(sig);
    if n > t.SigBits() then
      (sig / Pow2(n - t.SigBits()), trailing || sig % Pow2(n - t.SigBits() - 1) != 0)
    else (sig * Pow2(t.SigBits() - n), trailing)
  }

  /** The significand of a subnormal number `shift` places below the smallest exponent. */
  function Subnormal(t: Traits, sig: nat, trailing: bool, shift: nat): (r: nat)
    requires sig > 0
    ensures r < Pow2(t.SigBits())
  {
    var (n, tr) := Normalized(t, sig, trailing);
    var m := if shift > 0 then ShiftAndRound(n, shift, tr || n % Pow2(shift - 1) != 0) else n;
    ModLess(m, Pow2(t.SigBits()));
    m % Pow2(t.SigBits())
  }

  /** The bit pattern for `sig` times two to the power of `exp`. */
  function Finish(t: Traits, neg: bool, sig: nat, trailing: bool, exp: int): Option<nat>
    requires sig > 0
  {
    var n := BitLen(sig);
    var exponent := exp + n - 1;
    ModLess(0, Pow2(t.SigBits()));
    if exponent <= t.MinExp() then
      var shift := t.MinExp() - exponent;
      if shift <= t.SigBits() then Some(Make(t, neg, t.MinExp(), Subnormal(t, sig, trailing, shift)))
      else Some(Make(t, neg, t.MinExp(), 0))
    else
      var m := if n > t.SigBits() + 1 then ShiftAndRound(sig, n - t.SigBits() - 1, trailing)
        else sig * Pow2(t.SigBits() + 1 - n);
      var e := if n > t.SigBits() + 1 && m >= Pow2(t.SigBits() + 1) then exponent + 1 else exponent;
      if e >= t.MaxExp() then None
      else
        ModLess(m, Pow2(t.SigBits()));
        Some(Make(t, neg, e, m % Pow2(t.SigBits())))
  }

  function ParseHex(t: Traits, s: string): Option<nat> {
    var (neg, body) := StripSign(s);
    if !("0x" <= body) then None
    else
      var (st, rest) := ScanSig(t, body[2..], Scan(0, 0, false, false));
      if st.sig == 0 then ModLess(0, Pow2(t.SigBits())); Some(Make(t, neg, t.MinExp(), 0))
      else
        match ParseExp(t, rest, st.exp)
        case None => None
        case Some(e) => Finish(t, neg, st.sig, st.trailing, e + st.exp)
  }

  function Parse(t: Traits, kind: LiteralType, s: string): Option<nat> {
    match kind
    case Hexfloat => ParseHex(t, s)
    case Infinity => ParseInfinity(t, s)
    case NanLiteral => ParseNan(t, s)
  }

  // ----- the digits that are printed -----

  /** A number with more hexadecimal digits appended. */
  function Shifted(n: nat, ds: seq<Nybble>): nat { n * Pow16(|ds|) + HexValue(ds) }

  lemma ShiftedNone(n: nat)
    ensures Shifted(n, []) == n
  {
    NoDigits();
  }

  lemma BitLenTimes(n: nat, j: nat)
    requires n > 0
    ensures BitLen(n * Pow2(j)) == BitLen(n) + j
    decreases j
  {
    if j == 0 {
      assert n * 1 == n;
    } else {
      BitLenTimes(n, j - 1);
      Double(n, Pow2(j - 1));
      var m := n * Pow2(j - 1);
      assert BitLen(2 * m) == 1 + BitLen(m) by { assert (2 * m) / 2 == m; MulSign(Pow2(j - 1), n); }
    }
  }

  lemma Double(n: nat, p: nat)
    ensures n * (2 * p) == 2 * (n * p)
  {}

  lemma HalfOf(j: nat)
    requires j > 0
    ensures Pow2(j) == 2 * Pow2(j - 1)
  {}

  lemma Assoc(a: nat, b: nat, c: nat)
    ensures a * (b * c) == (a * b) * c
  {}

  /** The digits of the fraction word, and the significand that is read back from them. */
  lemma {:induction false} FractionDigits(t: Traits, exp: int, sig: nat, X: nat, c: nat)
    requires sig < Pow2(t.SigBits()) && c <= t.Bits()
    requires Pow2(t.Bits()) + FractionWord(t, exp, sig) == X * Pow2(c)
    requires FractionWord(t, exp, sig) % Pow2(t.Bits() - t.SigBits()) == 0
    ensures var ds := Nybbles(FractionWord(t, exp, sig), Nybs(t));
            && 4 * |ds| <= t.SigBits() + 4 && 4 * |ds| <= t.Bits()
            && Shifted(1, ds) * Pow2(t.Bits() - 4 * |ds|) == X * Pow2(c)
  {
    hide Pow2, FractionWord, Pow16, HexValue, Nybbles;
    var R := FractionWord(t, exp, sig);
    var n := Nybs(t);
    var ds := Nybbles(R, n);
    NybblesValue(R, n);
    Word(t, |ds|);
    Pow16Add(|ds|, n - |ds|);
    Distribute(1, Pow16(|ds|), HexValue(ds), Pow16(n - |ds|));
    var q := R / Pow2(t.Bits() - t.SigBits());
    SplitAt(R, Pow2(t.Bits() - t.SigBits()));
    var j := if t.F32Traits? then 2 else 3;
    Pow2Add(t.Bits() - t.SigBits() - 4 * j, 4 * j);
    Assoc(q, Pow2(t.Bits() - t.SigBits() - 4 * j), Pow2(4 * j));
    Sixteen(j);
    NybblesShort(R, n, j, q * Pow2(t.Bits() - t.SigBits() - 4 * j));
  }

  lemma Word(t: Traits, k: nat)
    requires k <= Nybs(t)
    ensures Pow16(Nybs(t) - k) == Pow2(t.Bits() - 4 * k) && Pow16(Nybs(t)) == Pow2(t.Bits())
  {
    assert 4 * (Nybs(t) - k) == t.Bits() - 4 * k && 4 * Nybs(t) == t.Bits();
  }

  lemma Sixteen(j: nat)
    ensures Pow16(j) == Pow2(4 * j)
  {}

  lemma NormalWord(t: Traits, exp: int, sig: nat)
    requires sig < Pow2(t.SigBits()) && exp != t.MinExp()
    ensures FractionWord(t, exp, sig) == sig * Pow2(t.Bits() - t.SigBits())
    ensures Pow2(t.Bits()) + FractionWord(t, exp, sig) == (Pow2(t.SigBits()) + sig) * Pow2(t.Bits() - t.SigBits())
    ensures FractionWord(t, exp, sig) % Pow2(t.Bits() - t.SigBits()) == 0
  {
    hide Pow2;
    DivExact(sig, Pow2(t.Bits() - t.SigBits()));
    Pow2Add(t.SigBits(), t.Bits() - t.SigBits());
    Distribute(1, Pow2(t.SigBits()), sig, Pow2(t.Bits() - t.SigBits()));
  }

  lemma SubnormalTop(t: Traits, sig: nat)
    requires 0 < sig < Pow2(t.SigBits())
    ensures 0 < BitLen(sig) <= t.SigBits()
    ensures var top := sig * Pow2(t.Bits() - t.SigBits());
            top > 0 && LeadingZeroes(t, top) == t.SigBits() - BitLen(sig)
  {
    hide Pow2, BitLen;
    BitLenBounds(sig);
    BitLenAtMost(sig, t.SigBits());
    BitLenTimes(sig, t.Bits() - t.SigBits());
    MulSign(Pow2(t.Bits() - t.SigBits()), sig);
  }

  /** Moving the leading one of a number of `b` bits to place `W`, and taking it away. */
  lemma LeadingOneOut(sig: nat, b: nat, W: nat, c: nat)
    requires 0 < b && Pow2(b - 1) <= sig < Pow2(b) && c + b <= W + 1
    ensures var all := sig * Pow2(W - b + 1);
            && Pow2(W) <= all < 2 * Pow2(W)
            && all % Pow2(W) == all - Pow2(W) && (all - Pow2(W)) % Pow2(c) == 0
  {
    hide Pow2;
    var p := Pow2(W - b + 1);
    Pow2Add(b - 1, W - b + 1);
    Pow2Add(b, W - b + 1);
    HalfOf(W + 1);
    Minus(sig, Pow2(b - 1), p);
    BelowProduct(sig, Pow2(b), p);
    var r := sig - Pow2(b - 1);
    ModOf(1, Pow2(W), r * p);
    Pow2Add(W - b + 1 - c, c);
    Assoc(r, Pow2(W - b + 1 - c), Pow2(c));
    DivExact(r * Pow2(W - b + 1 - c), Pow2(c));
  }

  /** A subnormal significand: shifting out its leading one leaves a multiple of the unit. */
  lemma SubnormalWord(t: Traits, sig: nat)
    requires 0 < sig < Pow2(t.SigBits())
    ensures 0 < BitLen(sig) <= t.SigBits()
    ensures ShownExp(t, t.MinExp(), sig) == t.MinExp() - (t.SigBits() - BitLen(sig))
    ensures var R := FractionWord(t, t.MinExp(), sig);
            && Pow2(t.Bits()) + R == sig * Pow2(t.Bits() - BitLen(sig) + 1)
            && R % Pow2(t.Bits() - t.SigBits()) == 0
  {
    hide Pow2, BitLen, LeadingZeroes;
    var b, c := BitLen(sig), t.Bits() - t.SigBits();
    SubnormalTop(t, sig);
    BitLenBounds(sig);
    var zeros := t.SigBits() - b;
    Pow2Add(c, zeros + 1);
    Assoc(sig, Pow2(c), Pow2(zeros + 1));
    LeadingOneOut(sig, b, t.Bits(), c);
  }

  lemma Minus(a: nat, b: nat, p: nat)
    requires b <= a
    ensures (a - b) * p == a * p - b * p
  {}

  lemma BitLenAtMost(n: nat, k: nat)
    requires 0 < n < Pow2(k)
    ensures BitLen(n) <= k
  {
    hide BitLen;
    BitLenBounds(n);
    if BitLen(n) > k {
      if BitLen(n) - 1 > k { Pow2Less(k, BitLen(n) - 1); }
    }
  }

  /** The fraction that is printed. */
  function FractionOf(t: Traits, exp: int, sig: nat): seq<Nybble>
    requires sig < Pow2(t.SigBits())
  {
    if sig == 0 then [] else Nybbles(FractionWord(t, exp, sig), Nybs(t))
  }

  /** With the leading one, its digits are those of the number, whose last bit is worth two to the power
      of `unit`. */
  lemma DigitsPrinted(t: Traits, exp: int, sig: nat)
    requires t.MinExp() <= exp < t.MaxExp() && sig < Pow2(t.SigBits()) && !(sig == 0 && exp == t.MinExp())
    ensures var ds := FractionOf(t, exp, sig);
            var (X, unit) := if exp == t.MinExp() then (sig, exp + 1 - t.SigBits())
              else (Pow2(t.SigBits()) + sig, exp - t.SigBits());
            var shift := unit - (ShownExp(t, exp, sig) - 4 * |ds|);
            && 4 * |ds| <= t.SigBits() + 4
            && (if shift >= 0 then Shifted(1, ds) == X * Pow2(shift) else Shifted(1, ds) * Pow2(-shift) == X)
  {
    hide Pow2, BitLen, Shifted, FractionWord, Nybbles;
    var ds := FractionOf(t, exp, sig);
    if exp == t.MinExp() {
      SubnormalWord(t, sig);
      FractionDigits(t, exp, sig, sig, t.Bits() - BitLen(sig) + 1);
      Cancel(Shifted(1, ds), t.Bits() - 4 * |ds|, sig, t.Bits() - BitLen(sig) + 1);
    } else {
      NormalWord(t, exp, sig);
      if sig == 0 {
        ShiftedNone(1);
      } else {
        FractionDigits(t, exp, sig, Pow2(t.SigBits()) + sig, t.Bits() - t.SigBits());
        Cancel(Shifted(1, ds), t.Bits() - 4 * |ds|, Pow2(t.SigBits()) + sig, t.Bits() - t.SigBits());
      }
    }
  }

  // ----- the buffer -----

  lemma {:induction false} NumeralShort(n: nat, k: nat)
    requires k > 0
             && n < (if k == 1 then 10 else if k == 2 then 100 else if k == 3 then 1000 else if k == 4 then 10000
             else 0)
    ensures |Decimal(n)| <= k
    decreases k
  {
    if n >= 10 { NumeralShort(n / 10, k - 1); }
  }

  lemma NumberFits(t: Traits, neg: bool, exp: int, sig: nat)
    requires t.MinExp() <= exp < t.MaxExp() && sig < Pow2(t.SigBits())
    ensures |NumberText(t, exp, sig)| + 1 < t.MaxHexBufferSize()
  {
    hide Pow2, ShownExp, FractionWord, Nybbles, Decimal;
    if !(sig == 0 && exp == t.MinExp()) {
      var e := ShownExp(t, exp, sig);
      assert |FractionText(t, exp, sig)| <= 1 + |FractionOf(t, exp, sig)|;
      DigitsPrinted(t, exp, sig);
      ExpRange(t, exp, sig);
      NumeralShort(if e < 0 then -e else e, if t.F32Traits? then 3 else 4);
    }
  }

  lemma ExpRange(t: Traits, exp: int, sig: nat)
    requires t.MinExp() <= exp < t.MaxExp() && sig < Pow2(t.SigBits())
    ensures t.MinExp() - t.SigBits() <= ShownExp(t, exp, sig) < t.MaxExp()
  {
    hide Pow2, BitLen, LeadingZeroes;
    if exp == t.MinExp() && sig != 0 { SubnormalWord(t, sig); } else { assert ShownExp(t, exp, sig) == exp; }
  }

  /** The text fits the buffer WriteHex prints into. */
  lemma TextFits(t: Traits, bits: nat)
    requires bits < Pow2(t.Bits())
    ensures |HexOf(t, bits)| < t.MaxHexBufferSize()
  {
    hide Pow2, ExpOf, SigOf, IsNeg, NumberText;
    MadeOfFields(t, bits);
    var exp, sig := ExpOf(t, bits), SigOf(t, bits);
    if exp != t.MaxExp() {
      NumberFits(t, IsNeg(t, bits), exp, sig);
    } else if sig != 0 && sig != t.QuietNanTag() {
      SigFitsWord(t, sig);
      TagFits(t, sig);
    }
  }

  lemma TagFits(t: Traits, sig: nat)
    requires sig < Pow2(t.SigBits()) && sig < Pow16(Nybs(t))
    ensures |NanText(t, sig)| + 1 < t.MaxHexBufferSize()
  {
    hide Pow2, Pow16, HexText, AllNybbles;
    assert TagLen(sig, Nybs(t)) <= Nybs(t);
  }

  // ----- the loops -----

  /** A register of `N` digits holding the `n` digits of `x` at the top. */
  function Register(x: nat, n: nat, N: nat): nat
    requires n <= N
  {
    x * Pow16(N - n)
  }

  function TopDigit(reg: nat, N: nat): nat
    requires N > 0
  {
    Quotient(reg, Pow16(N - 1))
  }

  function Quotient(n: nat, p: nat): nat
    requires p > 0
  {
    n / p
  }

  function ShiftLeft4(reg: nat, N: nat): nat { (reg * 16) % Pow16(N) }

  /** Shifting a register left by one digit moves to the next digit. */
  lemma RegisterStep(x: nat, n: nat, N: nat)
    requires x < Pow16(n) && 0 < n <= N
    ensures TopDigit(Register(x, n, N), N) == x / Pow16(n - 1)
    ensures ShiftLeft4(Register(x, n, N), N) == Register(x % Pow16(n - 1), n - 1, N)
    ensures x / Pow16(n - 1) < 16 && x % Pow16(n - 1) < Pow16(n - 1)
  {
    hide Pow16;
    var u := Pow16(N - n);
    var d, r := x / Pow16(n - 1), x % Pow16(n - 1);
    SplitNybble(x, n);
    Pow16Add(n - 1, N - n);
    Scale(Pow16(n - 1), d, r, u);
    BelowProduct(r, Pow16(n - 1), u);
    ModOf(d, Pow16(N - 1), r * u);
    Pow16Step(N - n);
    Pow16Step(N - 1);
    Assoc(r, 16, u);
    BelowProduct(r * u, Pow16(N - 1), 16);
    ModOf(d, Pow16(N), r * u * 16);
    Times16(x * u, d, Pow16(N - 1), r * u);
    assert r * (16 * u) == (r * u) * 16 by { Turn(r, u); }
  }

  lemma Turn(r: nat, u: nat)
    ensures r * (16 * u) == (r * u) * 16
  {}

  lemma Times16(n: nat, d: nat, p: nat, r: nat)
    requires n == d * p + r
    ensures n * 16 == d * (16 * p) + r * 16
  {}

  lemma RegisterZero(x: nat, n: nat, N: nat)
    requires x < Pow16(n) && n <= N
    ensures Register(x, n, N) == 0 <==> x == 0
  {
    hide Pow16;
    MulSign(Pow16(N - n), x);
  }

  lemma WholeRegister(word: nat, N: nat)
    ensures Register(word, N, N) == word && "" + HexText([]) == ""
  {
    NoDigits();
  }

  lemma AppendDigit(text: string, d: Nybble, rest: seq<Nybble>)
    ensures text + HexText([d] + rest) == (text + [HexChar(d)]) + HexText(rest)
  {
    assert ([d] + rest)[1..] == rest;
  }

  lemma NybblesStep(x: nat, n: nat)
    requires 0 < x < Pow16(n)
    ensures n > 0 && x / Pow16(n - 1) < 16 && x % Pow16(n - 1) < Pow16(n - 1)
    ensures Nybbles(x, n) == [x / Pow16(n - 1)] + Nybbles(x % Pow16(n - 1), n - 1)
  {
    hide Pow16;
    TopNybble(x, n);
  }

  lemma AllNybblesStep(x: nat, n: nat)
    requires x < Pow16(n) && n > 0
    ensures x / Pow16(n - 1) < 16 && x % Pow16(n - 1) < Pow16(n - 1)
    ensures AllNybbles(x, n) == [x / Pow16(n - 1)] + AllNybbles(x % Pow16(n - 1), n - 1)
  {
    hide Pow16;
    SplitNybble(x, n);
  }

  /** The loop that prints the fraction: digits from the top until the rest is zero. */
  method WriteFraction(t: Traits, word: nat) returns (text: string)
    requires word < Pow16(Nybs(t))
    ensures text == HexText(Nybbles(word, Nybs(t)))
  {
    hide Pow16, Register, Nybbles, HexText, TopDigit, ShiftLeft4;
    var N := Nybs(t);
    var sig := word;
    text := "";
    ghost var x: nat, n: nat := word, N;
    WholeRegister(word, N);
    NoNybbles(0);
    assert "" + HexText(Nybbles(word, N)) == HexText(Nybbles(word, N));
    while sig != 0
      invariant n <= N && x < Pow16(n) && sig == Register(x, n, N)
      invariant text + HexText(Nybbles(x, n)) == HexText(Nybbles(word, N))
      decreases n
    {
      RegisterZero(x, n, N);
      NybblesStep(x, n);
      RegisterStep(x, n, N);
      var nybble := TopDigit(sig, N);
      AppendDigit(text, nybble, Nybbles(x % Pow16(n - 1), n - 1));
      text := text + [HexChar(nybble)];
      sig := ShiftLeft4(sig, N);
      x, n := x % Pow16(n - 1), n - 1;
    }
    RegisterZero(x, n, N);
    NoNybbles(n);
    assert text + "" == text;
  }

  lemma NoNybbles(n: nat)
    ensures HexText(Nybbles(0, n)) == ""
  {}

  lemma NoTag()
    ensures 0 < Pow16(0) && HexText(AllNybbles(0, 0)) == "" && Pow16(0) == 1
  {}

  /** Leading zeros of a tag are skipped in the register. */
  method SkipZeros(tag: nat, N: nat) returns (sig: nat, numNybbles: nat)
    requires 0 < tag < Pow16(N)
    ensures numNybbles == TagLen(tag, N) && sig == Register(tag, numNybbles, N)
  {
    hide Pow16, Register, TopDigit, ShiftLeft4;
    NoTag();
    WholeRegister(tag, N);
    sig, numNybbles := tag, N;
    while TopDigit(sig, N) == 0
      invariant 0 < numNybbles <= N && tag < Pow16(numNybbles) && sig == Register(tag, numNybbles, N)
      invariant TagLen(tag, numNybbles) == TagLen(tag, N)
      decreases numNybbles
    {
      RegisterStep(tag, numNybbles, N);
      SplitNybble(tag, numNybbles);
      sig := ShiftLeft4(sig, N);
      numNybbles := numNybbles - 1;
    }
    RegisterStep(tag, numNybbles, N);
    NoMoreZeros(tag, numNybbles);
  }

  /** The loops that print a NaN's tag: leading zeros are skipped, then all digits are printed. */
  method WriteTag(t: Traits, tag: nat) returns (text: string)
    requires 0 < tag < Pow16(Nybs(t))
    ensures text == HexText(AllNybbles(tag, TagLen(tag, Nybs(t))))
  {
    hide Pow16, Register, AllNybbles, HexText, TopDigit, ShiftLeft4;
    var N := Nybs(t);
    var sig, numNybbles := SkipZeros(tag, N);
    text := "";
    ghost var x: nat, all := tag, HexText(AllNybbles(tag, numNybbles));
    assert text + all == all;
    while numNybbles != 0
      invariant numNybbles <= N && x < Pow16(numNybbles) && sig == Register(x, numNybbles, N)
      invariant text + HexText(AllNybbles(x, numNybbles)) == all
    {
      RegisterStep(x, numNybbles, N);
      AllNybblesStep(x, numNybbles);
      var nybble := TopDigit(sig, N);
      AppendDigit(text, nybble, AllNybbles(x % Pow16(numNybbles - 1), numNybbles - 1));
      text := text + [HexChar(nybble)];
      sig := ShiftLeft4(sig, N);
      x := x % Pow16(numNybbles - 1);
      numNybbles := numNybbles - 1;
    }
    NoTag();
    assert text + "" == text;
  }

  lemma NoMoreZeros(tag: nat, n: nat)
    requires tag < Pow16(n) && n > 0 && tag / Pow16(n - 1) != 0
    ensures TagLen(tag, n) == n
  {
    hide Pow16;
    if tag < Pow16(n - 1) { ModOf(0, Pow16(n - 1), tag); }
  }

  /** The exponent, digit by digit; it has at most four, and the first of four is a one. */
  method WriteExp(e: int) returns (text: string)
    requires -2000 < e < 2000
    ensures text == ExpText(e)
  {
    var exp := e;
    if exp < 0 {
      text := "-";
      exp := -exp;
    } else {
      text := "+";
    }
    ghost var sign := text;
    FourDigits(exp);
    if exp >= 1000 {
      text := text + "1";
    }
    if exp >= 100 {
      text := text + [Digit((exp / 100) % 10)];
    }
    if exp >= 10 {
      text := text + [Digit((exp / 10) % 10)];
    }
    text := text + [Digit(exp % 10)];
    assert text == sign + Decimal(exp);
  }

  lemma FourDigits(n: nat)
    requires n < 2000
    ensures Decimal(n) == (if n >= 1000 then "1" else "") + (if n >= 100 then [Digit((n / 100) % 10)] else "")
                          + (if n >= 10 then [Digit((n / 10) % 10)] else "") + [Digit(n % 10)]
  {
    if n >= 10 {
      assert Decimal(n) == Decimal(n / 10) + [Digit(n % 10)];
      if n >= 100 {
        assert Decimal(n / 10) == Decimal(n / 100) + [Digit((n / 10) % 10)] by { assert n / 10 / 10 == n / 100; }
        if n >= 1000 {
          assert Decimal(n / 100) == Decimal(n / 1000) + [Digit((n / 100) % 10)] by { assert n / 100 / 10 == n / 1000; }
          assert Decimal(n / 1000) == [Digit(1)] == "1";
        }
      }
    }
  }

  /** FloatWriter::WriteHex; a text that does not fit `size` with its terminator is cut off. */
  method WriteHex(t: Traits, size: nat, bits: nat) returns (out: string)
    requires bits < Pow2(t.Bits()) && size > 0
    ensures var text := HexOf(t, bits);
            |text| < t.MaxHexBufferSize() && out == text[..if |text| >= size then size - 1 else |text|]
  {
    hide Pow2, ExpOf, SigOf, IsNeg, NumberText, NanText;
    MadeOfFields(t, bits);
    TextFits(t, bits);
    var isNeg, exp, sig := IsNeg(t, bits), ExpOf(t, bits), SigOf(t, bits);
    var p := if isNeg then "-" else "";
    if exp == t.MaxExp() {
      if sig == 0 {
        p := p + "inf";
      } else {
        var nan := WriteNan(t, sig);
        p := p + nan;
      }
    } else {
      var number := WriteNumber(t, exp, sig);
      p := p + number;
    }
    var len := |p|;
    if len >= size {
      len := size - 1;
    }
    out := p[..len];
  }

  method WriteNan(t: Traits, sig: nat) returns (text: string)
    requires 0 < sig < Pow2(t.SigBits())
    ensures text == NanText(t, sig)
  {
    hide Pow2, Pow16, HexText, AllNybbles;
    text := "nan";
    if sig != t.QuietNanTag() {
      SigFitsWord(t, sig);
      var tag := WriteTag(t, sig);
      text := "nan:0x" + tag;
    }
  }

  method WriteNumber(t: Traits, exp: int, sig: nat) returns (text: string)
    requires t.MinExp() <= exp < t.MaxExp() && sig < Pow2(t.SigBits())
    ensures text == NumberText(t, exp, sig)
  {
    hide Pow2, FractionWord, ShownExp, HexText, Nybbles;
    var isZero := sig == 0 && exp == t.MinExp();
    if isZero {
      text := "0x0p+0";
    } else {
      text := "0x1";
      if sig != 0 {
        var fraction := WriteFraction(t, FractionWord(t, exp, sig));
        text := text + ("." + fraction);
      }
      ExpRange(t, exp, sig);
      var exponent := WriteExp(ShownExp(t, exp, sig));
      text := text + "p" + exponent;
    }
  }

  /** The loop of ParseNan over the tag digits. */
  method ReadTag(t: Traits, s: string) returns (tag: Option<nat>)
    ensures tag == TagOf(t, s, 0)
  {
    hide Pow2, HexDigitValue;
    var value: nat := 0;
    var i := 0;
    while i < |s|
      invariant 0 <= i <= |s| && TagOf(t, s, 0) == TagOf(t, s[i..], value)
    {
      assert s[i..][1..] == s[i + 1..];
      if s[i] != '_' {
        var digit := HexDigitValue(s[i]);
        if digit.None? {
          return None;
        }
        value := value * 16 + digit.value;
        if value > Pow2(t.SigBits()) - 1 {
          return None;
        }
      }
      i := i + 1;
    }
    tag := Some(value);
  }

  /** The loop of ParseHex over the significand. */
  method ReadSig(t: Traits, s: string) returns (st: Scan, next: nat)
    ensures next <= |s| && ScanSig(t, s, Scan(0, 0, false, false)) == (st, s[next..])
  {
    hide BitLen, HexDigitValue;
    st := Scan(0, 0, false, false);
    next := 0;
    while next < |s|
      invariant next <= |s| && ScanSig(t, s, Scan(0, 0, false, false)) == ScanSig(t, s[next..], st)
    {
      assert s[next..][1..] == s[next + 1..];
      if s[next] == '_' {
      } else if s[next] == '.' {
        st := st.(seenDot := true);
      } else {
        var digit := HexDigitValue(s[next]);
        if digit.None? {
          return;
        }
        st := ScanDigit(t, st, digit.value);
      }
      next := next + 1;
    }
  }

  /** The loop of ParseHex over the exponent. */
  method ReadExp(t: Traits, s: string, add: int) returns (exponent: Option<nat>)
    ensures exponent == ScanExp(t, s, 0, add)
  {
    var e: nat := 0;
    var i := 0;
    while i < |s|
      invariant 0 <= i <= |s| && ScanExp(t, s, 0, add) == ScanExp(t, s[i..], e, add)
    {
      assert s[i..][1..] == s[i + 1..];
      if s[i] != '_' {
        if !IsDigit(s[i]) {
          return None;
        }
        e := e * 10 + (s[i] as nat - '0' as nat);
        if e + add >= t.MaxExp() {
          return Some(e);
        }
      }
      i := i + 1;
    }
    exponent := Some(e);
  }
}

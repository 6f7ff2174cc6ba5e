/** 128-bit decimal literals on four 32-bit limbs, least significant first (src/literal.cc). */
module Uint128 {
  import opened Util
  import opened Decimals

  const BASE := 0x1_0000_0000
  const LIMIT := 0x1_0000_0000_0000_0000_0000_0000_0000_0000

  type Limb = x: nat | x < 0x1_0000_0000

  function Value(v: seq<Limb>): (n: nat)
    requires |v| == 4
    ensures n < LIMIT
  {
    v[0] + BASE * v[1] + BASE * BASE * v[2] + BASE * BASE * BASE * v[3]
  }

  /** 32-bit addition; the carry counter goes up by one when it overflows. */
  method AddWithCarry(x: Limb, y: Limb, carry: Limb) returns (sum: Limb, carry': nat)
    ensures sum + BASE * carry' == x + y + BASE * carry
    ensures carry' == carry || carry' == carry + 1
  {
    carry' := if 0xffff_ffff - x < y then carry + 1 else carry;
    sum := (x + y) % BASE;
  }

  /** A left shift in 32 bits and the bits it loses. */
  lemma ShiftLeft(x: nat, factor: nat, quotient: nat)
    requires (factor == 8 && quotient == 0x2000_0000) || (factor == 2 && quotient == 0x8000_0000)
    ensures x * factor == BASE * (x / quotient) + (x * factor) % BASE
  {
    assert x == quotient * (x / quotient) + x % quotient;
    if factor == 8 { assert x * 8 == BASE * (x / quotient) + 8 * (x % quotient); }
  }

  /** One limb times ten, as `(x << 3) + (x << 1)` in 32 bits, with what goes to the next limb. */
  method LimbTimes10(x: Limb) returns (product: Limb, carry: Limb)
    ensures product + BASE * carry == 10 * x && carry < 10
  {
    ShiftLeft(x, 8, 0x2000_0000);
    ShiftLeft(x, 2, 0x8000_0000);
    var shiftedOut := x / 0x2000_0000 + x / 0x8000_0000;
    var p, c := AddWithCarry((x * 8) % BASE, (x * 2) % BASE, shiftedOut);
    product, carry := p, c;
  }

  method Mul10(v: array<Limb>)
    requires v.Length == 4
    modifies v
    ensures Value(v[..]) == (10 * old(Value(v[..]))) % LIMIT
  {
    ghost var was := v[..];
    var p0, c1 := LimbTimes10(v[0]);
    v[0] := p0;
    var p1, c2 := LimbTimes10(v[1]);
    var q1, d2 := AddWithCarry(p1, c1, c2);
    v[1] := q1;
    var p2, c3 := LimbTimes10(v[2]);
    var q2, d3 := AddWithCarry(p2, d2, c3);
    v[2] := q2;
    var top: nat := v[3];
    top := top * 10 + d3;
    v[3] := top % BASE;
    Wraps(was, v[..], top / BASE);
  }

  lemma Wraps(was: seq<Limb>, now: seq<Limb>, lost: nat)
    requires |was| == |now| == 4 && Value(now) + LIMIT * lost == 10 * Value(was)
    ensures Value(now) == (10 * Value(was)) % LIMIT
  {}

  // ----- parsing -----

  function DigitValue(c: char): (d: nat)
    requires IsDigit(c)
    ensures d < 10
  {
    c as nat - '0' as nat
  }

  predicate IsDigit(c: char) { '0' <= c <= '9' }

  /** What ParseUint128 computes from an accumulator: the sum with a digit is checked for overflow,
      the product with ten is not. */
  function Parsed(s: string, acc: nat): (r: Option<nat>)
    requires s != [] && acc < LIMIT
    ensures r.Some? ==> r.value < LIMIT
    decreases |s|
  {
    if !IsDigit(s[0]) then None
    else
      var sum := acc + DigitValue(s[0]);
      if sum >= LIMIT then None
      else if |s| == 1 then Some(sum)
      else Parsed(s[1..], (10 * sum) % LIMIT)
  }

  method ParseUint128(s: string, out: array<Limb>) returns (ok: bool)
    requires out.Length == 4
    modifies out
    ensures ok <==> s != [] && Parsed(s, 0).Some?
    ensures ok ==> Value(out[..]) == Parsed(s, 0).value
  {
    if s == [] {
      return false;
    }
    out[0], out[1], out[2], out[3] := 0, 0, 0, 0;
    var i := 0;
    while true
      invariant 0 <= i < |s| && Parsed(s, 0) == Parsed(s[i..], Value(out[..]))
      decreases |s| - i
    {
      if !IsDigit(s[i]) {
        return false;
      }
      var fits := AddDigit(out, DigitValue(s[i]));
      if !fits {
        return false;
      }
      if i + 1 == |s| {
        return true;
      }
      assert s[i..][1..] == s[i + 1..];
      i := i + 1;
      Mul10(out);
    }
  }

  /** The digit is added to the lowest limb and carries go up. */
  method AddDigit(out: array<Limb>, digit: nat) returns (fits: bool)
    requires out.Length == 4 && digit < 10
    modifies out
    ensures fits <==> old(Value(out[..])) + digit < LIMIT
    ensures fits ==> Value(out[..]) == old(Value(out[..])) + digit
  {
    var s0, c1 := AddWithCarry(out[0], digit, 0);
    var s1, c2 := AddWithCarry(out[1], c1, 0);
    var s2, c3 := AddWithCarry(out[2], c2, 0);
    var s3, overflow := AddWithCarry(out[3], c3, 0);
    out[0], out[1], out[2], out[3] := s0, s1, s2, s3;
    fits := overflow == 0;
  }

  /** The number a string of digits denotes. */
  function DecimalValue(s: string): nat
    requires forall c | c in s :: IsDigit(c)
  {
    if s == [] then 0
    else
      assert s[|s| - 1] in s && IsDigit(s[|s| - 1]);
      10 * DecimalValue(s[..|s| - 1]) + DigitValue(s[|s| - 1])
  }

  /** A digit more: the product wraps around silently, the sum does not. */
  lemma {:induction false} ParsedSnoc(s: string, acc: nat, c: char)
    requires s != [] && acc < LIMIT && IsDigit(c)
    ensures var r := Parsed(s, acc);
            Parsed(s + [c], acc) ==
              if r.None? then None
              else if (10 * r.value) % LIMIT + DigitValue(c) >= LIMIT then None
              else Some((10 * r.value) % LIMIT + DigitValue(c))
    decreases |s|
  {
    assert (s + [c])[1..] == s[1..] + [c];
    if IsDigit(s[0]) && acc + DigitValue(s[0]) < LIMIT && |s| > 1 {
      ParsedSnoc(s[1..], (10 * (acc + DigitValue(s[0]))) % LIMIT, c);
    }
    if |s| == 1 { assert s[1..] + [c] == [c]; }
  }

  /** Literals below 2^128 are parsed exactly. */
  lemma {:induction false} ParsedExact(s: string)
    requires s != [] && (forall c | c in s :: IsDigit(c)) && DecimalValue(s) < LIMIT
    ensures Parsed(s, 0) == Some(DecimalValue(s))
    decreases |s|
  {
    var init, c := s[..|s| - 1], s[|s| - 1];
    assert s == init + [c];
    if init != [] {
      ParsedExact(init);
      ParsedSnoc(init, 0, c);
    } else {
      assert DecimalValue(init) == 0;
    }
  }

  /** A numeral denotes its number. */
  lemma {:induction false} DecimalDenotes(n: nat)
    ensures DecimalValue(Decimal(n)) == n
    decreases n
  {
    var s := Decimal(n);
    if n >= 10 {
      DecimalDenotes(n / 10);
      assert s[..|s| - 1] == Decimal(n / 10);
    } else {
      assert s[..|s| - 1] == [];
    }
  }

  /** Parsing what was printed gives the number back. */
  lemma PrintedParses(n: nat)
    requires n < LIMIT
    ensures Parsed(Decimal(n), 0) == Some(n)
  {
    DecimalDenotes(n);
    ParsedExact(Decimal(n));
  }

  lemma NumeralSnoc(n: nat, d: nat)
    requires d < 10
    ensures Decimal(10 * n + d) == if n == 0 then [Digit(d)] else Decimal(n) + [Digit(d)]
  {
    assert (10 * n + d) / 10 == n && (10 * n + d) % 10 == d;
  }

  /** A numeral of 2^128 or more can be accepted as another number: if the last multiplication
      wraps, only the sum with the last digit is checked. */
  lemma WrapsSilently(n: nat, d: nat)
    requires n < LIMIT && d < 10 && 10 * n + d >= LIMIT
    ensures Parsed(Decimal(10 * n + d), 0) == if (10 * n) % LIMIT + d < LIMIT then Some((10 * n) % LIMIT + d) else None
  {
    hide Decimal;
    NumeralSnoc(n, d);
    PrintedParses(n);
    ParsedSnoc(Decimal(n), 0, Digit(d));
  }

  /** 10^39 is accepted, as 10^39 - 2 * 2^128. */
  lemma AcceptedAsAnother()
    ensures Parsed(Decimal(1_000_000_000_000_000_000_000_000_000_000_000_000_000), 0)
         == Some(319_435_266_158_123_073_073_250_785_136_463_577_088)
  {
    hide Decimal, Parsed;
    WrapsSilently(100_000_000_000_000_000_000_000_000_000_000_000_000, 0);
  }

  /** A string of digits is parsed to its number if and only if that has at most 128 bits, leading
      zeros or not. */
  lemma ExactlyBelowLimit(s: string)
    requires s != [] && forall c | c in s :: IsDigit(c)
    ensures Parsed(s, 0) == Some(DecimalValue(s)) <==> DecimalValue(s) < LIMIT
  {
    hide Parsed, DecimalValue;
    if DecimalValue(s) < LIMIT { ParsedExact(s); }
  }

  /** Whatever digits are accepted, the result is their number modulo 2^128. */
  lemma {:induction false} ParsedModulo(s: string)
    requires s != [] && (forall c | c in s :: IsDigit(c)) && Parsed(s, 0).Some?
    ensures Parsed(s, 0).value == DecimalValue(s) % LIMIT
    decreases |s|
  {
    var init, c := s[..|s| - 1], s[|s| - 1];
    assert s == init + [c];
    if init != [] {
      ParsedSnoc(init, 0, c);
      ParsedModulo(init);
      TimesTen(DecimalValue(init), DigitValue(c));
    } else {
      assert DecimalValue(init) == 0;
    }
  }

  /** A number reduced before it is multiplied by ten and a digit is added, without overflow. */
  lemma TimesTen(n: nat, d: nat)
    requires (10 * (n % LIMIT)) % LIMIT + d < LIMIT
    ensures (10 * (n % LIMIT)) % LIMIT + d == (10 * n + d) % LIMIT
  {
    var q, r := n / LIMIT, n % LIMIT;
    var q', r' := (10 * r) / LIMIT, (10 * r) % LIMIT;
    assert 10 * n + d == LIMIT * (10 * q + q') + (r' + d);
    Remainder(10 * q + q', r' + d);
  }

  lemma Remainder(q: nat, r: nat)
    requires r < LIMIT
    ensures (LIMIT * q + r) % LIMIT == r
  {}

  // ----- printing -----

  function Pow10(k: nat): nat { if k == 0 then 1 else 10 * Pow10(k - 1) }

  lemma {:induction false} NumeralLength(n: nat, k: nat)
    requires n < Pow10(k) && k > 0
    ensures |Decimal(n)| <= k
    decreases k
  {
    if n >= 10 {
      assert k > 1;
      NumeralLength(n / 10, k - 1);
    }
  }

  /** At most 39 digits. */
  lemma AtMost39(n: nat)
    requires n < LIMIT
    ensures |Decimal(n)| <= 39
  {
    Powers();
    NumeralLength(n, 39);
  }

  lemma Powers()
    ensures Pow10(39) >= LIMIT
  {
    assert Pow10(10) == 1_00000_00000;
    Add10(10, 10);
    Add10(20, 10);
    Add10(30, 9);
    assert Pow10(9) == 10_0000_0000;
  }

  lemma {:induction false} Add10(a: nat, b: nat)
    ensures Pow10(a + b) == Pow10(a) * Pow10(b)
    decreases b
  {
    if b > 0 {
      Add10(a, b - 1);
      assert Pow10(a + b) == 10 * Pow10(a + b - 1);
    }
  }

  /** The number in the limbs from `i` on. */
  function High(v: seq<Limb>, i: nat): nat
    requires i <= |v|
    decreases |v| - i
  {
    if i == |v| then 0 else High(v, i + 1) * BASE + v[i]
  }

  lemma {:induction false} HighSame(v: seq<Limb>, w: seq<Limb>, i: nat)
    requires i <= |v| == |w| && forall k | i <= k < |v| :: v[k] == w[k]
    ensures High(v, i) == High(w, i)
    decreases |v| - i
  {
    if i < |v| { HighSame(v, w, i + 1); }
  }

  lemma HighStep(v: seq<Limb>, i: nat)
    requires i < |v|
    ensures High(v, i) == High(v, i + 1) * BASE + v[i] && High(v, |v|) == 0
  {}

  lemma HighIsValue(v: seq<Limb>)
    requires |v| == 4
    ensures High(v, 0) == Value(v)
  {
    assert High(v, 3) == v[3];
    assert High(v, 2) == High(v, 3) * BASE + v[2];
    assert High(v, 1) == High(v, 2) * BASE + v[1];
  }

  /** Divides the number by ten in place, highest limb first; the remainder is the last digit. */
  method DivideBy10(bits: array<Limb>) returns (digit: nat)
    requires bits.Length == 4
    modifies bits
    ensures digit < 10 && 10 * Value(bits[..]) + digit == old(Value(bits[..]))
  {
    hide Value, High;
    ghost var v := bits[..];
    var remainder: nat := bits[3];
    var i := 3;
    HighStep(v, 3);
    while i != 0
      invariant 0 <= i <= 3
      invariant forall k | 0 <= k < i :: bits[k] == v[k]
      invariant remainder < 10 * BASE
      invariant 10 * BASE * High(bits[..], i + 1) + remainder == High(v, i)
    {
      ghost var before := bits[..];
      var digits := remainder / 10;
      remainder := (remainder - digits * 10) * BASE + bits[i - 1];
      bits[i] := digits;
      HighSame(before, bits[..], i + 1);
      HighStep(bits[..], i);
      HighStep(v, i - 1);
      i := i - 1;
    }
    ghost var before := bits[..];
    var digits := remainder / 10;
    digit := remainder - digits * 10;
    bits[0] := digits;
    HighSame(before, bits[..], 1);
    HighStep(bits[..], 0);
    HighIsValue(v);
    HighIsValue(bits[..]);
  }

  /** Prints into a buffer of `size` characters, one of which is the terminator: when they do not
      all fit, the last digits are cut off. */
  method WriteUint128(size: nat, bits: seq<Limb>) returns (text: string)
    requires size > 0 && |bits| == 4
    ensures var all := Decimal(Value(bits));
            |all| <= 39 && text == all[..if |all| >= size then size - 1 else |all|]
  {
    hide Decimal, Value;
    var v := new Limb[4](i requires 0 <= i < 4 => bits[i]);
    assert v[..] == bits;
    ghost var all := Decimal(Value(bits));
    var reversed: string := [];
    AtMost39(Value(bits));
    var more := true;
    assert all + Backwards([]) == all;
    while more
      invariant if more then all == Decimal(Value(v[..])) + Backwards(reversed) else all == Backwards(reversed)
      invariant more || Value(v[..]) == 0
      decreases more, Value(v[..])
    {
      ghost var was := Value(v[..]);
      var digit := DivideBy10(v);
      ghost var rest := Value(v[..]);
      NumeralSnoc(rest, digit);
      assert |reversed| + 1 < 40;
      assert Backwards(reversed + [Digit(digit)]) == [Digit(digit)] + Backwards(reversed);
      ghost var last := [Digit(digit)];
      assert (Decimal(rest) + last) + Backwards(reversed) == Decimal(rest) + (last + Backwards(reversed));
      reversed := reversed + [Digit(digit)];
      more := v[0] != 0 || v[1] != 0 || v[2] != 0 || v[3] != 0;
      ValueZero(v[..]);
    }
    text := Tail(reversed, size);
  }

  lemma ValueZero(v: seq<Limb>)
    requires |v| == 4
    ensures Value(v) == 0 <==> v[0] == 0 && v[1] == 0 && v[2] == 0 && v[3] == 0
  {}

  /** The last characters written, turned round, as many as fit. */
  method Tail(reversed: string, size: nat) returns (text: string)
    requires size > 0
    ensures var all := Backwards(reversed);
            text == all[..if |all| >= size then size - 1 else |all|]
  {
    var len, truncatedTail := |reversed|, 0;
    if len >= size {
      truncatedTail := len - size + 1;
      len := size - 1;
    }
    text := Backwards(reversed[truncatedTail..len + truncatedTail]);
  }

  function Backwards(s: string): (r: string)
    ensures |r| == |s| && forall i | 0 <= i < |s| :: r[i] == s[|s| - 1 - i]
  {
    seq(|s|, i requires 0 <= i < |s| => s[|s| - 1 - i])
  }
}

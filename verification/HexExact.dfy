/** The parser of src/literal.cc against the meaning of literals: payloads of NaNs, and numbers that need no
    rounding. */
module HexExact {
  import opened Util
  import opened Powers
  import opened Decimals
  import opened HexFloat
  import opened HexMeaning

  // ----- digits -----

  lemma DigitExactly(c: char, d: nat)
    ensures Stands(16, c, d) <==> d < 16 && HexDigitValue(c) == Some(d)
    ensures Stands(16, c, d) ==> c != '_' && c != '.' && c != 'p' && c != 'P'
    ensures HexDigitValue('_') == None
  {}

  lemma DecimalExactly(c: char, d: nat)
    ensures Stands(10, c, d) <==> IsDigit(c) && d == c as nat - '0' as nat
    ensures Stands(10, c, d) ==> c != '_' && c != '+' && c != '-'
  {}

  /** A number read goes on from its beginning; without digits it stays there. */
  lemma {:induction false} ReadsGrows(base: nat, s: string, start: nat, n: nat)
    requires Reads(base, s, start, n) && base > 0
    ensures if Digits(s) == 0 then n == start else n >= base * start
    decreases |s|
  {
    hide Stands;
    if s != "" {
      if s[0] == '_' {
        ReadsGrows(base, s[1..], start, n);
      } else {
        var d: nat :| Stands(base, s[0], d) && Reads(base, s[1..], base * start + d, n);
        ReadsGrows(base, s[1..], base * start + d, n);
        MulSign(base * start + d, base - 1);
        assert (base * start + d) * (base - 1) == (base * start + d) * base - (base * start + d);
        if base == 1 { assert base * (base * start + d) == base * start + d; }
      }
    }
  }

  lemma {:induction false} ReadsOnce(base: nat, s: string, start: nat, n: nat, n': nat)
    requires Reads(base, s, start, n) && Reads(base, s, start, n') && base in {10, 16}
    ensures n == n'
    decreases |s|
  {
    hide Stands;
    if s != "" {
      if s[0] == '_' {
        ReadsOnce(base, s[1..], start, n, n');
      } else {
        var d: nat :| Stands(base, s[0], d) && Reads(base, s[1..], base * start + d, n);
        var d': nat :| Stands(base, s[0], d') && Reads(base, s[1..], base * start + d', n');
        if base == 16 {
          DigitExactly(s[0], d);
          DigitExactly(s[0], d');
        } else {
          DecimalExactly(s[0], d);
          DecimalExactly(s[0], d');
        }
        ReadsOnce(base, s[1..], base * start + d, n, n');
      }
    }
  }

  /** Text read after text. */
  lemma {:induction false} ReadsSplit(base: nat, a: string, b: string, start: nat, n: nat) returns (k: nat)
    requires Reads(base, a + b, start, n)
    ensures Reads(base, a, start, k) && Reads(base, b, k, n)
    decreases |a|
  {
    hide Stands;
    if a == "" {
      assert a + b == b;
      k := start;
    } else {
      assert (a + b)[1..] == a[1..] + b;
      if a[0] == '_' {
        k := ReadsSplit(base, a[1..], b, start, n);
      } else {
        var d: nat :| Stands(base, a[0], d) && Reads(base, (a + b)[1..], base * start + d, n);
        k := ReadsSplit(base, a[1..], b, base * start + d, n);
      }
    }
  }

  lemma Unsigned(s: string, neg: bool, body: string)
    requires body != "" && body[0] != '-' && body[0] != '+'
    ensures Signed(s, neg, body) ==> StripSign(s) == (neg, body)
    ensures StripSign(s) == (neg, body) ==> Signed(s, neg, body)
  {
    if Signed(s, neg, body) {
      assert s == body || s[1..] == body;
    }
  }

  // ----- NaN and infinity -----

  lemma FirstDigit(s: string, start: nat, n: nat, v: Nybble)
    requires s != "" && HexDigitValue(s[0]) == Some(v)
    ensures s[0] != '_' && (Reads(16, s, start, n) <==> Reads(16, s[1..], 16 * start + v, n))
  {
    hide HexDigitValue, Stands;
    DigitExactly(s[0], v);
    forall d: nat ensures Stands(16, s[0], d) <==> d == v { DigitExactly(s[0], d); }
    if Reads(16, s, start, n) {
      var d: nat :| Stands(16, s[0], d) && Reads(16, s[1..], 16 * start + d, n);
    }
  }

  lemma {:induction false} TagExactly(t: Traits, s: string, tag: nat, n: nat)
    requires tag < Pow2(t.SigBits())
    ensures TagOf(t, s, tag) == Some(n) <==> Reads(16, s, tag, n) && n < Pow2(t.SigBits())
    decreases |s|
  {
    hide Pow2, HexDigitValue, Stands;
    if s != "" {
      if s[0] == '_' {
        TagExactly(t, s[1..], tag, n);
      } else {
        match HexDigitValue(s[0])
        case None =>
          forall d: nat ensures !Stands(16, s[0], d) { DigitExactly(s[0], d); }
        case Some(v) =>
          FirstDigit(s, tag, n, v);
          if 16 * tag + v < Pow2(t.SigBits()) {
            TagExactly(t, s[1..], 16 * tag + v, n);
          } else if Reads(16, s, tag, n) {
            ReadsGrows(16, s[1..], 16 * tag + v, n);
          }
      }
    }
  }

  /** ParseNan, on every text: the patterns of NaNs, each for the texts that denote it. */
  lemma NanExactly(t: Traits, s: string, bits: nat)
    ensures ParseNan(t, s) == Some(bits)
       <==> bits < Pow2(t.Bits()) && Ieee(t, bits).NotANumber? && Denotes(t, s, Ieee(t, bits))
  {
    hide Pow2, Make, IsNeg, ExpOf, SigOf, Ieee, Reads, TagOf;
    QuietFits(t);
    Constants();
    Widths(t);
    if ParseNan(t, s) == Some(bits) {
      var (neg, body) := StripSign(s);
      Unsigned(s, neg, body);
      var tag := if body == "nan" then t.QuietNanTag() else TagOf(t, body[6..], 0).value;
      FieldsOfMade(t, neg, t.MaxExp(), tag);
      FieldsMean(t, bits);
      if body != "nan" {
        assert body == "nan:0x" + body[6..];
        TagExactly(t, body[6..], 0, tag);
      }
      assert BodyDenotes(t, body, Ieee(t, bits));
    }
    if bits < Pow2(t.Bits()) && Ieee(t, bits).NotANumber? && Denotes(t, s, Ieee(t, bits)) {
      var v := Ieee(t, bits);
      var body :| Signed(s, v.neg, body) && BodyDenotes(t, body, v);
      NanBodyParsed(t, s, bits, body);
    }
  }

  lemma NanBodyParsed(t: Traits, s: string, bits: nat, body: string)
    requires bits < Pow2(t.Bits()) && Ieee(t, bits).NotANumber?
    requires Signed(s, Ieee(t, bits).neg, body) && BodyDenotes(t, body, Ieee(t, bits))
    ensures ParseNan(t, s) == Some(bits)
  {
    hide Pow2, Make, IsNeg, ExpOf, SigOf, Ieee, Reads, TagOf;
    Constants();
    var v := Ieee(t, bits);
    FieldsMean(t, bits);
    MadeOfFields(t, bits);
    if !(body == "nan" && v.payload == Canonical(t)) {
      var a :| body == "nan:0x" + a && Reads(16, a, 0, v.payload);
      assert body[3..][..3] == ":0x" && body[6..] == a;
      TagExactly(t, a, 0, v.payload);
    }
    Unsigned(s, v.neg, body);
  }

  /** "nan" alone is 0x7fc00000 or 0x7ff8000000000000, for the parser and for the printer. */
  lemma NanAlone(bits: nat)
    ensures ParseNan(F32Traits, "nan") == Some(0x7fc0_0000)
    ensures ParseNan(F64Traits, "nan") == Some(0x7ff8_0000_0000_0000)
    ensures bits < 0x1_0000_0000 ==>
              bits < Pow2(F32Traits.Bits()) && (HexOf(F32Traits, bits) == "nan" <==> bits == 0x7fc0_0000)
    ensures bits < 0x1_0000_0000_0000_0000 ==>
              bits < Pow2(F64Traits.Bits()) && (HexOf(F64Traits, bits) == "nan" <==> bits == 0x7ff8_0000_0000_0000)
  {
    hide Pow2, HexOf, ParseNan;
    Constants();
    Widths(F32Traits);
    Widths(F64Traits);
    OnlyNan(F32Traits, 0x7fc0_0000);
    OnlyNan(F64Traits, 0x7ff8_0000_0000_0000);
    if bits < 0x1_0000_0000 { OnlyNan(F32Traits, bits); }
    if bits < 0x1_0000_0000_0000_0000 { OnlyNan(F64Traits, bits); }
  }

  lemma OnlyNan(t: Traits, bits: nat)
    requires bits < Pow2(t.Bits())
    ensures HexOf(t, bits) == "nan" <==> Ieee(t, bits) == NotANumber(false, Canonical(t))
    ensures Ieee(t, bits) == NotANumber(false, Canonical(t)) ==> ParseNan(t, "nan") == Some(bits)
  {
    hide Pow2, IsNeg, ExpOf, SigOf, NumberText, Ieee, ParseNan, HexText;
    Constants();
    MadeOfFields(t, bits);
    FieldsMean(t, bits);
    var body := if ExpOf(t, bits) != t.MaxExp() then NumberText(t, ExpOf(t, bits), SigOf(t, bits))
      else if SigOf(t, bits) == 0 then "inf" else NanText(t, SigOf(t, bits));
    NumberStarts(t, ExpOf(t, bits), SigOf(t, bits));
    assert "" + body == body && ("-" + body)[0] == '-';
    if Ieee(t, bits) == NotANumber(false, Canonical(t)) {
      assert Signed("nan", false, "nan") && BodyDenotes(t, "nan", Ieee(t, bits));
      NanExactly(t, "nan", bits);
    }
  }

  lemma NumberStarts(t: Traits, exp: int, sig: nat)
    requires sig < Pow2(t.SigBits())
    ensures NumberText(t, exp, sig) != "" && NumberText(t, exp, sig)[0] == '0'
  {
    hide Pow2, FractionText, ExpText;
  }

  /** ParseInfinity on the texts that denote an infinity. */
  lemma InfinityParsed(t: Traits, s: string, bits: nat)
    requires bits < Pow2(t.Bits()) && Ieee(t, bits).Infinite? && Denotes(t, s, Ieee(t, bits))
    ensures ParseInfinity(t, s) == Some(bits)
  {
    hide Pow2, Make, IsNeg, ExpOf, SigOf, Ieee;
    FieldsMean(t, bits);
    MadeOfFields(t, bits);
    Unsigned(s, Ieee(t, bits).neg, "inf");
  }
}

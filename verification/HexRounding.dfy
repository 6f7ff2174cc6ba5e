/** Where the parser of src/literal.cc departs from the meaning of literals: exponents that are not read to
    their end, and rounding. */
module HexRounding {
  import opened Util
  import opened Powers
  import opened HexFloat
  import opened HexMeaning
  import opened HexExact
  import opened HexNumbers

  // ----- exponents -----

  function Zeros(k: nat): string { if k == 0 then "" else "0" + Zeros(k - 1) }

  lemma {:induction false} ZerosRead(k: nat, s: string, n: nat)
    requires Reads(16, s, 0, n)
    ensures Reads(16, Zeros(k) + s, 0, n) && Digits(Zeros(k) + s) == k + Digits(s)
    decreases k
  {
    if k == 0 {
      assert "" + s == s;
    } else {
      ZerosRead(k - 1, s, n);
      assert Zeros(k) + s == ['0'] + (Zeros(k - 1) + s);
      assert Stands(16, '0', 0);
      OneDigit(16, '0', 0, Zeros(k - 1) + s, 0, n);
    }
  }

  lemma OneReads()
    ensures Reads(16, "1", 0, 1) && Digits("1") == 1 && Digits("0") == 1
  {
    assert "1"[1..] == "" && "0"[1..] == "";
    assert Stands(16, '1', 1);
  }

  lemma TenReads()
    ensures Reads(10, "10", 0, 10) && Digits("10") == 2
  {
    assert "10"[1..] == "0" && "0"[1..] == "";
    assert Stands(10, '1', 1) && Stands(10, '0', 0);
    assert Reads(10, "0", 1, 10);
  }

  /** 2^-142, written with 33 digits behind the dot. */
  function SmallLiteral(): Literal { Literal("0", true, Zeros(32) + "1", Exponent("p", "-", "10")) }

  lemma SmallIs()
    ensures var h := SmallLiteral();
            WellFormed(h) && LiteralIs(h, 1, -10) && Digits(h.fraction) == 33 && Cut(F32Traits, h, 1, -10)
  {
    hide Reads, Digits, Zeros;
    OneReads();
    TenReads();
    ZerosRead(32, "1", 1);
    ZerosRead(33, "1", 1);
    assert "0" + (Zeros(32) + "1") == Zeros(33) + "1" by { ZerosMore("1"); }
    assert BitLen(1) == 1 by { BitLenIs(1, 0); }
  }

  lemma ZerosMore(s: string)
    ensures "0" + (Zeros(32) + s) == Zeros(33) + s
  {}

  /** A single-precision literal of a number the format has that is read as another number: the loop over the
      exponent stops after its first digit. */
  lemma CutChangesValue()
    ensures Denotes(F32Traits, Text(SmallLiteral()), Ieee(F32Traits, 0x80))
    ensures ParseHex(F32Traits, Text(SmallLiteral())) != Some(0x80)
  {
    hide Text, Reads, Digits, Zeros, ParseHex, Cut, LiteralIs, WellFormed, SmallLiteral;
    SmallIs();
    Constants();
    Widths(F32Traits);
    var h, s := SmallLiteral(), Text(SmallLiteral());
    assert Ieee(F32Traits, 0x80) == Finite(false, 0x80, -149);
    assert SameValue(1, -142, 0x80, -149) by { assert Pow2(7) == 0x80; }
    assert Signed(s, false, s);
    LiteralExactly(F32Traits, s, h, 1, -10, 0x80);
  }

  lemma AllTaken(t: Traits, st: Scan, n: nat, places: nat, r: nat)
    requires Scanned(t, st, n, places, r) && r == Dropped(t, n) && BitLen(n) <= t.SigBits() + 5
    ensures st.sig == n && !st.trailing && st.exp == -4 * places
  {
    hide BitLen;
    NoDigits();
  }

  /** A small literal. */
  function TinyLiteral(): Literal { Literal("1", false, "", Exponent("p", "-", "1280")) }

  lemma TinyIs()
    ensures var h := TinyLiteral();
            WellFormed(h) && Text(h) == "0x1p-1280" && Reads(16, h.whole + h.fraction, 0, 1) && Digits(h.fraction) == 0
    ensures ExponentText(TinyLiteral().exponent) == "p-1280" && ParseExp(F32Traits, "p-1280", 0) == Some(-128)
  {
    OneReads();
    assert "1" + "" == "1";
    assert "p" + "-" + "1280" == "p-1280";
    TinyExponent();
  }

  lemma TinyExponent()
    ensures ParseExp(F32Traits, "p-1280", 0) == Some(-128)
  {
    hide ScanExp;
    assert "p-1280"[1..] == "-1280" && "p-1280"[2..] == "1280";
    TinyScan();
  }

  lemma TinyScan()
    ensures ScanExp(F32Traits, "1280", 0, 0) == Some(128)
  {
    assert "1280"[1..] == "280" && "280"[1..] == "80";
    assert ScanExp(F32Traits, "80", 12, 0) == Some(128);
    assert ScanExp(F32Traits, "280", 1, 0) == Some(128);
  }

  /** 2^-1280 is far below the smallest single-precision number; 2^-128 is what is read. */
  lemma TooSmallIsRead()
    ensures ParseHex(F32Traits, "0x1p-1280") == Some(0x20_0000)
    ensures Ieee(F32Traits, 0x20_0000) == Finite(false, 0x20_0000, -149) && SameValue(1, -128, 0x20_0000, -149)
  {
    hide Pow2, Finish, Text, Reads, Digits, ParseHex, ParseExp, ScanExp, WellFormed, ExponentText, Scanned, Dropped;
    TinyIs();
    var st, r := LiteralParsed(F32Traits, "0x1p-1280", false, TinyLiteral(), 1);
    assert BitLen(1) == 1;
    AllTaken(F32Traits, st, 1, 0, r);
    Constants();
    Widths(F32Traits);
    HalfOf(22);
    One(0x20_0000);
    FinishExactly(F32Traits, 1, -128, -128, 0x20_0000);
  }

  // ----- rounding -----

  /** `R` is what the number comes to in units of two to the power of `shift`, rounded to nearest and to even
      when two are as near.  The number is `sig`, and more, but less than one more, if `trailing`. */
  predicate Nearest(R: nat, sig: nat, shift: nat, trailing: bool)
    requires shift > 0
  {
    var P, half := Pow2(shift), Pow2(shift - 1);
    && R * P <= sig + half && (if trailing then sig < R * P + half else sig <= R * P + half)
    && (!trailing && (sig + half == R * P || sig == R * P + half) ==> R % 2 == 0)
  }

  /** ShiftAndRoundToNearest rounds to nearest and ties to even, if and only if it is not given more than a
      half to drop, nothing beyond that, and an even number to keep. */
  lemma RoundsExactly(sig: nat, shift: nat, trailing: bool)
    requires shift > 0
    ensures Nearest(ShiftAndRound(sig, shift, trailing), sig, shift, trailing)
       <==> !(sig % Pow2(shift) > Pow2(shift - 1) && (sig / Pow2(shift)) % 2 == 0 && !trailing)
  {
    hide Pow2;
    var P, half := Pow2(shift), Pow2(shift - 1);
    HalfOf(shift);
    var q, low := sig / P, sig % P;
    SplitAt(sig, P);
    if low >= half {
      ModOf(q + 1, P, low - half);
      assert (q + 1) * P == q * P + P;
    } else {
      ModOf(q, P, low + half);
    }
    assert P * q == q * P;
  }

  /** 8 and three quarters of a unit in the last place. */
  function HalfwayLiteral(): Literal { Literal("8", true, "00000c", Exponent("p", "", "0")) }

  lemma HalfwayIs()
    ensures var h := HalfwayLiteral();
            WellFormed(h) && Text(h) == "0x8.00000cp0" && Reads(16, h.whole + h.fraction, 0, 0x800_000c)
            && Digits(h.fraction) == 6
    ensures ExponentText(HalfwayLiteral().exponent) == "p0" && ParseExp(F32Traits, "p0", -24) == Some(0)
  {
    hide Reads, Digits;
    assert Stands(16, 'c', 12) && Stands(16, '0', 0) && Stands(16, '8', 8);
    assert ['c'] + "" == "c" && ['0'] + "c" == "0c" && ['0'] + "0c" == "00c" && ['0'] + "00c" == "000c";
    assert ['0'] + "000c" == "0000c" && ['0'] + "0000c" == "00000c" && ['8'] + "00000c" == "8" + "00000c";
    NothingRead(0x800_000c, 0x800_000c);
    NothingFollows(0x800_000c);
    OneDigit(16, 'c', 12, "", 0x80_0000, 0x800_000c);
    OneDigit(16, '0', 0, "c", 0x8_0000, 0x800_000c);
    OneDigit(16, '0', 0, "0c", 0x8000, 0x800_000c);
    OneDigit(16, '0', 0, "00c", 0x800, 0x800_000c);
    OneDigit(16, '0', 0, "000c", 0x80, 0x800_000c);
    OneDigit(16, '0', 0, "0000c", 8, 0x800_000c);
    OneDigit(16, '8', 8, "00000c", 0, 0x800_000c);
    EightAndNought();
  }

  lemma NothingFollows(n: nat)
    ensures Reads(16, "", n, n)
  {}

  lemma EightAndNought()
    ensures Digits("8") == 1 && Digits("0") == 1 && ParseExp(F32Traits, "p0", -24) == Some(0)
  {
    assert "8"[1..] == "" && "0"[1..] == "" && "p0"[1..] == "0";
  }

  /** It is read as 8. */
  lemma MisroundedLiteral()
    ensures ParseHex(F32Traits, "0x8.00000cp0") == Some(0x4100_0000)
    ensures Ieee(F32Traits, 0x4100_0000) == Finite(false, 0x80_0000, -20)
    ensures Nearest(0x80_0001, 0x800_000c, 4, false) && !Nearest(0x80_0000, 0x800_000c, 4, false)
  {
    hide Pow2, Text, Reads, Digits, ParseHex, ParseExp, WellFormed, ExponentText, Scanned, Dropped, BitLen;
    HalfwayIs();
    var st, r := LiteralParsed(F32Traits, "0x8.00000cp0", false, HalfwayLiteral(), 0x800_000c);
    Constants();
    Sixteens();
    BitLenIs(0x800_000c, 27);
    AllTaken(F32Traits, st, 0x800_000c, 6, r);
  }

  lemma Sixteens()
    ensures Pow2(3) == 8 && Pow2(4) == 16 && Pow2(24) == 0x100_0000 && Pow2(27) == 0x800_0000 && Pow2(28) == 0x1000_0000
  {
    Constants();
    Pow2Add(1, 23);
    assert Pow2(4) == 16;
    Pow2Add(23, 4);
    Pow2Add(24, 4);
  }
}

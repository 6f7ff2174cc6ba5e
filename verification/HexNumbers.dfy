/** The parser of src/literal.cc on literals of numbers that need no rounding: ParseHex gives the pattern of
    exactly that number, unless it stops in the middle of the exponent. */
module HexNumbers {
  import opened Util
  import opened Powers
  import opened Decimals
  import opened HexFloat
  import opened HexMeaning
  import opened HexExact

  // ----- the significand -----

  /** What the loop holds after digits that denote `n`, `places` of them behind the dot and `r` of them not
      taken into the significand. */
  ghost predicate Scanned(t: Traits, st: Scan, n: nat, places: nat, r: nat) {
    && st.exp == 4 * (r - places)
    && st.sig * Pow16(r) <= n < (st.sig + 1) * Pow16(r)
    && (st.trailing <==> n != st.sig * Pow16(r))
    && (r > 0 ==> BitLen(st.sig) > t.SigBits() + 1) && BitLen(st.sig) <= t.SigBits() + 5
  }

  lemma ScanNext(t: Traits, st: Scan, n: nat, places: nat, r: nat, d: Nybble) returns (r': nat)
    requires Scanned(t, st, n, places, r)
    ensures Scanned(t, ScanDigit(t, st, d), 16 * n + d, places + if st.seenDot then 1 else 0, r')
  {
    hide Pow16, BitLen;
    if BitLen(st.sig) <= t.SigBits() + 1 {
      r' := 0;
      NoDigits();
      LengthNext(st.sig, d);
    } else {
      r' := r + 1;
      Pow16Step(r);
      Sixteenfold(st.sig, Pow16(r));
      Sixteenfold(st.sig + 1, Pow16(r));
    }
  }

  lemma Sixteenfold(a: nat, p: nat)
    ensures a * (16 * p) == 16 * (a * p)
  {}

  lemma LengthNext(n: nat, d: Nybble)
    ensures BitLen(n * 16 + d) <= BitLen(n) + 4
  {
    var a := n * 16 + d;
    var b := a / 2;
    var c := b / 2;
    var e := c / 2;
    assert BitLen(a) <= 1 + BitLen(b) && BitLen(b) <= 1 + BitLen(c) && BitLen(c) <= 1 + BitLen(e);
    assert e / 2 == n;
  }

  /** Digits are taken one by one, wherever the dot is. */
  lemma {:induction false} ScanText(
    t: Traits, s: string, rest: string, st: Scan, start: nat, n: nat, places: nat, r: nat)
    returns (st': Scan, r': nat)
    requires Reads(16, s, start, n) && Scanned(t, st, start, places, r)
    ensures ScanSig(t, s + rest, st) == ScanSig(t, rest, st') && st'.seenDot == st.seenDot
    ensures Scanned(t, st', n, places + (if st.seenDot then Digits(s) else 0), r')
    decreases |s|
  {
    hide Scanned, Stands, HexDigitValue, ScanDigit;
    if s == "" {
      assert s + rest == rest;
      st', r' := st, r;
    } else {
      assert (s + rest)[1..] == s[1..] + rest && (s + rest)[0] == s[0];
      if s[0] == '_' {
        st', r' := ScanText(t, s[1..], rest, st, start, n, places, r);
      } else {
        var d: nat :| Stands(16, s[0], d) && Reads(16, s[1..], 16 * start + d, n);
        DigitExactly(s[0], d);
        var q := ScanNext(t, st, start, places, r, d);
        DotStays(t, st, d);
        st', r' := ScanText(t, s[1..], rest, ScanDigit(t, st, d), 16 * start + d, n,
          places + if st.seenDot then 1 else 0, q);
      }
    }
  }

  lemma DotStays(t: Traits, st: Scan, d: Nybble)
    ensures ScanDigit(t, st, d).seenDot == st.seenDot
  {}

  lemma DotScan(t: Traits, rest: string, st: Scan)
    ensures ScanSig(t, "." + rest, st) == ScanSig(t, rest, st.(seenDot := true))
  {
    assert ("." + rest)[1..] == rest;
  }

  lemma ScanStops(t: Traits, rest: string, st: Scan)
    requires rest == "" || rest[0] == 'p' || rest[0] == 'P'
    ensures ScanSig(t, rest, st) == (st, rest)
  {}

  lemma StartScanned(t: Traits)
    ensures Scanned(t, Scan(0, 0, false, false), 0, 0, 0)
  {
    NoDigits();
    assert BitLen(0) == 0;
  }

  /** The whole significand, with or without a dot. */
  lemma LiteralScan(t: Traits, h: Literal, n: nat, rest: string) returns (st: Scan, r: nat)
    requires WellFormed(h) && Reads(16, h.whole + h.fraction, 0, n) && (rest == "" || rest[0] == 'p' || rest[0] == 'P')
    ensures ScanSig(t, h.whole + (if h.dot then "." else "") + h.fraction + rest, Scan(0, 0, false, false))
            == (st, rest)
    ensures Scanned(t, st, n, Digits(h.fraction), r)
  {
    hide Scanned, Reads, ScanSig, Digits;
    var start := Scan(0, 0, false, false);
    StartScanned(t);
    var k := ReadsSplit(16, h.whole, h.fraction, 0, n);
    var tail := (if h.dot then "." else "") + h.fraction + rest;
    assert h.whole + (if h.dot then "." else "") + h.fraction + rest == h.whole + tail;
    var st1, r1 := ScanText(t, h.whole, tail, start, 0, k, 0, 0);
    if h.dot {
      assert tail == "." + (h.fraction + rest);
      DotScan(t, h.fraction + rest, st1);
      DotKept(t, st1, k, r1);
      st, r := ScanText(t, h.fraction, rest, st1.(seenDot := true), k, n, 0, r1);
    } else {
      NothingRead(k, n);
      assert tail == rest;
      st, r := st1, r1;
    }
    ScanStops(t, rest, st);
  }

  lemma DotKept(t: Traits, st: Scan, n: nat, r: nat)
    requires Scanned(t, st, n, 0, r)
    ensures Scanned(t, st.(seenDot := true), n, 0, r)
  {}

  lemma NothingRead(k: nat, n: nat)
    ensures Reads(16, "", k, n) ==> k == n
    ensures Digits("") == 0
  {}

  // ----- digits that are not taken -----

  /** How many digits are not taken into the significand: those behind the first that leave it longer than
      the field by two bits or more. */
  function Dropped(t: Traits, n: nat): nat {
    if BitLen(n) < t.SigBits() + 2 then 0 else (BitLen(n) - t.SigBits() - 2) / 4
  }

  lemma ScannedDropped(t: Traits, st: Scan, n: nat, places: nat, r: nat)
    requires Scanned(t, st, n, places, r)
    ensures r == Dropped(t, n)
  {
    hide BitLen;
    if r == 0 {
      NoDigits();
    } else {
      NoBits(0);
      LongerBy(st.sig, n, r);
    }
  }

  lemma LongerBy(sig: nat, n: nat, r: nat)
    requires sig * Pow16(r) <= n < (sig + 1) * Pow16(r) && sig > 0
    ensures BitLen(n) == BitLen(sig) + 4 * r
  {
    hide Pow2, BitLen;
    BitLenBounds(sig);
    var b := BitLen(sig);
    Pow2Add(b - 1, 4 * r);
    Pow2Add(b, 4 * r);
    AtLeast(Pow2(b - 1), sig, Pow2(4 * r));
    AtLeast(sig + 1, Pow2(b), Pow2(4 * r));
    BitLenIs(n, b - 1 + 4 * r);
  }

  lemma AtLeast(a: nat, b: nat, p: nat)
    requires a <= b
    ensures a * p <= b * p
  {
    assert (b - a) * p >= 0;
    assert (b - a) * p == b * p - a * p;
  }

  /** Digits that are not taken are zeros if the number needs no more bits than the field and one have. */
  lemma NothingLost(t: Traits, st: Scan, n: nat, places: nat, r: nat, m: nat, k: nat)
    requires Scanned(t, st, n, places, r) && n == m * Pow2(k) && m < Pow2(t.SigBits() + 1)
    ensures !st.trailing && n == st.sig * Pow16(r)
  {
    hide Pow2, BitLen;
    if r == 0 {
      NoDigits();
    } else {
      NoBits(k);
      LongerBy(st.sig, n, r);
      BitLenTimes(m, k);
      BitLenAtMost(m, t.SigBits() + 1);
      Pow2Add(k - 4 * r, 4 * r);
      Assoc(m, Pow2(k - 4 * r), Pow2(4 * r));
      Multiple(st.sig, m * Pow2(k - 4 * r), Pow16(r), n);
    }
  }

  lemma NoBits(k: nat)
    ensures 0 * Pow2(k) == 0 && BitLen(0) == 0
  {}

  lemma Multiple(a: nat, b: nat, p: nat, n: nat)
    requires a * p <= n < (a + 1) * p && n == b * p
    ensures n == a * p
  {
    if b < a { AtLeast(b + 1, a, p); assert (b + 1) * p == b * p + p; }
    if b > a { AtLeast(a + 1, b, p); }
  }

  // ----- the exponent -----

  /** The exponent is read in full if all its digits but the last leave it below the limit. */
  lemma {:induction false} ExponentInFull(t: Traits, s: string, start: nat, e: nat, add: int)
    requires Reads(10, s, start, e) && (Digits(s) <= 1 || e / 10 + add < t.MaxExp())
    ensures ScanExp(t, s, start, add) == Some(e)
    decreases |s|
  {
    hide Stands, IsDigit;
    if s != "" {
      if s[0] == '_' {
        ExponentInFull(t, s[1..], start, e, add);
      } else {
        var d: nat :| Stands(10, s[0], d) && Reads(10, s[1..], 10 * start + d, e);
        DecimalExactly(s[0], d);
        ReadsGrows(10, s[1..], 10 * start + d, e);
        if 10 * start + d + add < t.MaxExp() { ExponentInFull(t, s[1..], 10 * start + d, e, add); }
      }
    }
  }

  /** Otherwise only its beginning is. */
  lemma {:induction false} ExponentCut(t: Traits, s: string, start: nat, e: nat, add: int)
    requires Reads(10, s, start, e) && Digits(s) > 1 && e / 10 + add >= t.MaxExp()
    ensures var r := ScanExp(t, s, start, add); r.Some? && r.value <= e / 10
    decreases |s|
  {
    hide Stands, IsDigit;
    if s[0] == '_' {
      ExponentCut(t, s[1..], start, e, add);
    } else {
      var d: nat :| Stands(10, s[0], d) && Reads(10, s[1..], 10 * start + d, e);
      DecimalExactly(s[0], d);
      ReadsGrows(10, s[1..], 10 * start + d, e);
      if 10 * start + d + add < t.MaxExp() {
        if Digits(s[1..]) == 1 { OneMore(s[1..], 10 * start + d, e); }
        ExponentCut(t, s[1..], 10 * start + d, e, add);
      }
    }
  }

  lemma {:induction false} OneMore(s: string, start: nat, e: nat)
    requires Reads(10, s, start, e) && Digits(s) == 1
    ensures e / 10 == start
    decreases |s|
  {
    if s[0] == '_' {
      OneMore(s[1..], start, e);
    } else {
      var d: nat :| Stands(10, s[0], d) && Reads(10, s[1..], 10 * start + d, e);
      ReadsGrows(10, s[1..], 10 * start + d, e);
    }
  }

  /** What the exponent loop adds to compare with the limit. */
  function Compared(t: Traits, h: Literal, n: nat): int {
    var scale := 4 * (Dropped(t, n) - Digits(h.fraction));
    if h.exponent.NoExponent? || h.exponent.sign == "" then 0 else if h.exponent.sign == "+" then scale else -scale
  }

  function Abs(e: int): nat { if e < 0 then -e else e }

  /** The loop over the exponent stops before its last digit. */
  predicate Cut(t: Traits, h: Literal, n: nat, e: int) {
    && h.exponent.Exponent? && Digits(h.exponent.digits) > 1
    && Abs(e) / 10 + Compared(t, h, n) >= t.MaxExp()
  }

  lemma FirstOfNumber(s: string, e: nat)
    requires Reads(10, s, 0, e) && Digits(s) > 0
    ensures s != "" && s[0] != '-' && s[0] != '+'
  {
    hide Stands;
    if s[0] != '_' {
      var d: nat :| Stands(10, s[0], d) && Reads(10, s[1..], 10 * 0 + d, e);
      DecimalExactly(s[0], d);
    }
  }

  /** The exponent that is found: the one written, or another if the loop stops too soon. */
  lemma ExponentFound(t: Traits, h: Literal, n: nat, e: int) returns (found: int)
    requires WellFormed(h) && ExponentIs(h.exponent, e)
    ensures ParseExp(t, ExponentText(h.exponent), 4 * (Dropped(t, n) - Digits(h.fraction))) == Some(found)
    ensures found == e <==> e == 0 || !Cut(t, h, n, e)
  {
    hide Reads, Digits, Dropped, ParseExp, Compared;
    found := e;
    if h.exponent.Exponent? {
      var digits, sign, add := h.exponent.digits, h.exponent.sign, Compared(t, h, n);
      FirstOfNumber(digits, Abs(e));
      ExponentParts(t, h, n);
      if Cut(t, h, n, e) {
        ExponentCut(t, digits, 0, Abs(e), add);
        found := ScanExp(t, digits, 0, add).value;
        if sign == "-" { found := -found; }
      } else {
        ExponentInFull(t, digits, 0, Abs(e), add);
      }
    } else {
      NoneParsed(t, 4 * (Dropped(t, n) - Digits(h.fraction)));
    }
  }

  lemma NoneParsed(t: Traits, sigExp: int)
    ensures ParseExp(t, "", sigExp) == Some(0)
  {}

  /** The sign tells what is added in the comparison with the limit, and what the number read stands for. */
  lemma ExponentParts(t: Traits, h: Literal, n: nat)
    requires WellFormed(h) && h.exponent.Exponent?
    requires var s := h.exponent.digits; s != "" && s[0] != '-' && s[0] != '+'
    ensures var r := ScanExp(t, h.exponent.digits, 0, Compared(t, h, n));
            ParseExp(t, ExponentText(h.exponent), 4 * (Dropped(t, n) - Digits(h.fraction)))
              == if h.exponent.sign == "-" then Negated(r) else match r case None => None case Some(e) => Some(e)
  {
    hide Digits, ScanExp, Dropped;
    SignSplits(h.exponent.mark, h.exponent.sign, h.exponent.digits);
  }

  lemma SignSplits(mark: string, sign: string, digits: string)
    requires mark in ["p", "P"] && sign in ["", "+", "-"] && digits != "" && digits[0] != '-' && digits[0] != '+'
    ensures var s := mark + sign + digits;
            && s[0] == mark[0] && ("-" <= s[1..] <==> sign == "-") && ("+" <= s[1..] <==> sign == "+")
            && (if sign == "" then s[1..] == digits else |s| >= 2 && s[2..] == digits)
  {
    assert (mark + sign + digits)[1..] == sign + digits;
    if sign == "" { assert sign + digits == digits; }
  }

  // ----- the bit pattern -----

  lemma SameLength(n: nat, x: int, m: nat, q: int)
    requires SameValue(n, x, m, q) && (n > 0 || m > 0)
    ensures n > 0 && m > 0 && BitLen(n) + x == BitLen(m) + q
  {
    hide Pow2, BitLen;
    if q >= x {
      BitLenTimes(m, q - x);
    } else {
      BitLenTimes(n, x - q);
    }
  }

  /** Rounding a number whose lower bits are zero does not change it. */
  lemma RoundExact(x: nat, j: nat)
    requires j > 0
    ensures ShiftAndRound(x * Pow2(j), j, false) == x
    ensures (x * Pow2(j)) / Pow2(j) == x && (x * Pow2(j)) % Pow2(j - 1) == 0
  {
    hide Pow2;
    HalfOf(j);
    var p, h := Pow2(j), Pow2(j - 1);
    ModOf(x, p, 0);
    ModOf(x, p, h);
    ModOf(2 * x, h, 0);
    assert x * p == (2 * x) * h by { Twice(x, h); }
  }

  lemma Twice(x: nat, h: nat)
    ensures x * (2 * h) == (2 * x) * h
  {}

  /** A significand that needs no rounding, with an exponent that makes it a normal number. */
  lemma NormalFinish(t: Traits, neg: bool, sig: nat, E: int, m: nat, q: int, exp: int)
    requires SameValue(sig, E, m, q) && Pow2(t.SigBits()) <= m < Pow2(t.SigBits() + 1)
    requires exp + BitLen(sig) - 1 > t.MinExp() && sig > 0
    ensures m - Pow2(t.SigBits()) < Pow2(t.SigBits())
    ensures var e := exp + BitLen(sig) - 1;
            Finish(t, neg, sig, false, exp)
              == if e >= t.MaxExp() then None else Some(Make(t, neg, e, m - Pow2(t.SigBits())))
  {
    hide Pow2, BitLen, ShiftAndRound, Make;
    SameLength(sig, E, m, q);
    BitLenIs(m, t.SigBits());
    HalfOf(t.SigBits() + 1);
    var k := q - E;
    ModOf(1, Pow2(t.SigBits()), m - Pow2(t.SigBits()));
    if k > 0 {
      RoundExact(m, k);
    } else if k == 0 {
      One(m);
    }
  }

  lemma One(x: nat)
    ensures x * Pow2(0) == x
  {}

  /** The significand of a subnormal number, as long as the field. */
  lemma NormalizedIs(t: Traits, sig: nat, E: int, f: nat, q: int)
    requires SameValue(sig, E, f, q) && 0 < f < Pow2(t.SigBits())
    ensures sig > 0 && BitLen(f) <= t.SigBits()
            && Normalized(t, sig, false) == (f * Pow2(t.SigBits() - BitLen(f)), false)
  {
    hide Pow2, BitLen;
    SameLength(sig, E, f, q);
    BitLenAtMost(f, t.SigBits());
    var zeros, k := t.SigBits() - BitLen(f), q - E;
    if k > zeros {
      Pow2Add(zeros, k - zeros);
      Assoc(f, Pow2(zeros), Pow2(k - zeros));
      RoundExact(f * Pow2(zeros), k - zeros);
    } else if k >= 0 {
      Pow2Add(k, zeros - k);
      Assoc(f, Pow2(k), Pow2(zeros - k));
    } else {
      Pow2Add(-k, zeros);
      Assoc(sig, Pow2(-k), Pow2(zeros));
    }
  }

  /** A significand moved to a lower place, and rounded. */
  function Moved(N: nat, shift: nat): nat {
    if shift > 0 then ShiftAndRound(N, shift, N % Pow2(shift - 1) != 0) else N
  }

  /** Moved to its place it is the field of the number; moved elsewhere it is another one. */
  lemma MovedIs(f: nat, zeros: nat, shift: nat)
    requires f > 0
    ensures var M := Moved(f * Pow2(zeros), shift); M <= f * Pow2(zeros) && (M == f <==> shift == zeros)
  {
    hide Pow2, ShiftAndRound;
    var d := zeros - shift;
    Positive(f, Pow2(zeros));
    if shift > zeros {
      TooFar(f, zeros, shift);
      AtMostTimes(f, 1, Pow2(zeros));
    } else if shift == 0 {
      if d > 0 { MoreThan(f, d); } else { One(f); }
    } else {
      Pow2Add(d, shift);
      Assoc(f, Pow2(d), Pow2(shift));
      RoundExact(f * Pow2(d), shift);
      AtMostTimes(f * Pow2(d), 1, Pow2(shift));
      if d > 0 { MoreThan(f, d); } else { One(f); }
    }
  }

  lemma SubnormalIs(t: Traits, sig: nat, f: nat, zeros: nat, shift: nat)
    requires sig > 0 && 0 < f && f * Pow2(zeros) < Pow2(t.SigBits())
    requires Normalized(t, sig, false) == (f * Pow2(zeros), false)
    ensures Subnormal(t, sig, false, shift) == f <==> shift == zeros
  {
    hide Pow2, BitLen, Normalized, ShiftAndRound;
    MovedIs(f, zeros, shift);
    ModOf(0, Pow2(t.SigBits()), Moved(f * Pow2(zeros), shift));
  }

  lemma Positive(f: nat, p: nat)
    requires f > 0
    ensures f * p >= p
  {
    AtLeast(1, f, p);
  }

  lemma MoreThan(f: nat, d: nat)
    requires f > 0 && d > 0
    ensures f * Pow2(d) > f
  {
    HalfOf(d);
    AtLeast(2, Pow2(d), f);
    assert f * Pow2(d) == Pow2(d) * f;
  }

  /** Shifted too far, even rounded up, it is less. */
  lemma TooFar(f: nat, zeros: nat, shift: nat)
    requires f > 0 && shift > zeros
    ensures var N := f * Pow2(zeros); ShiftAndRound(N, shift, N % Pow2(shift - 1) != 0) < f
  {
    hide Pow2;
    var N, p, h := f * Pow2(zeros), Pow2(shift), Pow2(shift - 1);
    HalfOf(shift);
    Pow2Add(zeros, shift - 1 - zeros);
    Positive(Pow2(shift - 1 - zeros), Pow2(zeros));
    assert Pow2(zeros) * Pow2(shift - 1 - zeros) == Pow2(shift - 1 - zeros) * Pow2(zeros);
    AtMostTimes(f, Pow2(zeros), h);
    if f == 1 {
      One(Pow2(zeros));
      if Pow2(zeros) == h {
        ModOf(1, h, 0);
        ModOf(0, p, N);
      } else {
        DivBelow(N + h, p, 1);
        DivBelow(N, p, 1);
      }
    } else {
      Below(N, h, p, f);
    }
  }

  lemma AtMostTimes(f: nat, a: nat, b: nat)
    requires a <= b
    ensures f * a <= f * b
  {
    AtLeast(a, b, f);
    assert f * a == a * f && f * b == b * f;
  }

  lemma Below(N: nat, h: nat, p: nat, f: nat)
    requires N <= f * h && p == 2 * h && f >= 2 && h > 0
    ensures (N + h) / p < f && N / p < f
  {
    assert f * p == 2 * (f * h) by { Twice(f, h); Assoc(f, 2, h); }
    Positive(f, h);
    AtLeast(2, f, h);
    DivBelow(N + h, p, f);
    DivBelow(N, p, f);
  }

  /** Below the smallest exponent the field is that of a subnormal number, above it is another. */
  lemma FinishField(t: Traits, neg: bool, sig: nat, E: int)
    requires sig > 0
    ensures var r := Finish(t, neg, sig, false, E);
            if E + BitLen(sig) - 1 <= t.MinExp() then r.Some? && ExpOf(t, r.value) == t.MinExp()
            else r.Some? ==> ExpOf(t, r.value) > t.MinExp()
  {
    hide Pow2, BitLen, Make, ExpOf, IsNeg, SigOf, ShiftAndRound, Subnormal;
    forall e: int, f: nat | t.MinExp() <= e <= t.MaxExp() && f < Pow2(t.SigBits())
      ensures ExpOf(t, Make(t, neg, e, f)) == e
    {
      FieldsOfMade(t, neg, e, f);
    }
  }

  /** A significand and an exponent that make exactly the number of a pattern give that pattern, and the
      same significand with another exponent does not. */
  lemma FinishExactly(t: Traits, sig: nat, E: int, exp: int, bits: nat)
    requires bits < Pow2(t.Bits()) && Ieee(t, bits).Finite? && sig > 0
    requires SameValue(sig, E, Ieee(t, bits).m, Ieee(t, bits).q)
    ensures Finish(t, Ieee(t, bits).neg, sig, false, exp) == Some(bits) <==> exp == E
  {
    hide Pow2, BitLen, Make, ExpOf, IsNeg, SigOf, Ieee, Finish;
    var v := Ieee(t, bits);
    FieldsMean(t, bits);
    MadeOfFields(t, bits);
    var field, f := ExpOf(t, bits), SigOf(t, bits);
    SameLength(sig, E, v.m, v.q);
    FinishField(t, v.neg, sig, exp);
    if field != t.MinExp() {
      HalfOf(t.SigBits() + 1);
      BitLenIs(v.m, t.SigBits());
      if exp + BitLen(sig) - 1 > t.MinExp() {
        NormalFinish(t, v.neg, sig, E, v.m, v.q, exp);
        if exp + BitLen(sig) - 1 < t.MaxExp() { FieldsOfMade(t, v.neg, exp + BitLen(sig) - 1, f); }
      }
    } else {
      BitLenAtMost(f, t.SigBits());
      if exp + BitLen(sig) - 1 <= t.MinExp() { SubnormalFinish(t, sig, E, exp, bits); }
    }
  }

  lemma SubnormalFinish(t: Traits, sig: nat, E: int, exp: int, bits: nat)
    requires bits < Pow2(t.Bits()) && ExpOf(t, bits) == t.MinExp() && sig > 0 && SigOf(t, bits) > 0
    requires SameValue(sig, E, SigOf(t, bits), t.MinExp() + 1 - t.SigBits())
    requires exp + BitLen(sig) - 1 <= t.MinExp()
    ensures Finish(t, IsNeg(t, bits), sig, false, exp) == Some(bits) <==> exp == E
  {
    hide Pow2, BitLen, Make, ExpOf, IsNeg, SigOf, Subnormal, Normalized;
    MadeOfFields(t, bits);
    var f, neg := SigOf(t, bits), IsNeg(t, bits);
    SameLength(sig, E, f, t.MinExp() + 1 - t.SigBits());
    NormalizedIs(t, sig, E, f, t.MinExp() + 1 - t.SigBits());
    var zeros := t.SigBits() - BitLen(f);
    var shift := t.MinExp() - (exp + BitLen(sig) - 1);
    FieldFits(f, zeros, t.SigBits());
    SubnormalIs(t, sig, f, zeros, shift);
    FieldsOfMade(t, neg, t.MinExp(), Subnormal(t, sig, false, shift));
    ModLess(0, Pow2(t.SigBits()));
    FieldsOfMade(t, neg, t.MinExp(), 0);
  }

  lemma FieldFits(f: nat, zeros: nat, S: nat)
    requires 0 < f && BitLen(f) + zeros == S
    ensures f * Pow2(zeros) < Pow2(S)
  {
    hide Pow2, BitLen;
    BitLenBounds(f);
    Pow2Add(BitLen(f), zeros);
    BelowProduct(f, Pow2(BitLen(f)), Pow2(zeros));
  }

  // ----- literals -----

  lemma ShiftValue(sig: nat, j: nat, x: int, m: nat, q: int)
    requires SameValue(sig * Pow2(j), x, m, q)
    ensures SameValue(sig, x + j, m, q)
  {
    hide Pow2;
    if q >= x {
      Cancel(sig, j, m, q - x);
    } else {
      Pow2Add(j, x - q);
      Assoc(sig, Pow2(j), Pow2(x - q));
    }
  }

  /** A number of a format has as many bits as its field and one. */
  lemma FewBits(t: Traits, bits: nat, n: nat, x: int) returns (m: nat, k: nat)
    requires bits < Pow2(t.Bits()) && Ieee(t, bits).Finite? && SameValue(n, x, Ieee(t, bits).m, Ieee(t, bits).q)
    ensures n == m * Pow2(k) && m < Pow2(t.SigBits() + 1)
    ensures n == 0 ==> bits == Make(t, Ieee(t, bits).neg, t.MinExp(), 0)
  {
    hide Pow2, Make, ExpOf, IsNeg, SigOf, Ieee;
    var v := Ieee(t, bits);
    FieldsMean(t, bits);
    MadeOfFields(t, bits);
    HalfOf(t.SigBits() + 1);
    if v.q >= x {
      m, k := v.m, v.q - x;
      if n == 0 { Positive(Pow2(k), m); assert m * Pow2(k) == Pow2(k) * m; }
    } else {
      m, k := n, 0;
      One(n);
      AtMostTimes(n, 1, Pow2(x - v.q));
    }
  }

  /** What is made of a literal: a significand, and an exponent to finish it with. */
  lemma LiteralParsed(t: Traits, s: string, neg: bool, h: Literal, n: nat) returns (st: Scan, r: nat)
    requires WellFormed(h) && Reads(16, h.whole + h.fraction, 0, n) && Signed(s, neg, Text(h))
    ensures Scanned(t, st, n, Digits(h.fraction), r) && r == Dropped(t, n)
    ensures 0 < Pow2(t.SigBits())
    ensures ParseHex(t, s) ==
            if st.sig == 0 then Some(Make(t, neg, t.MinExp(), 0))
            else match ParseExp(t, ExponentText(h.exponent), st.exp)
                 case None => None
                 case Some(e) => Finish(t, neg, st.sig, st.trailing, e + st.exp)
  {
    hide Pow2, BitLen, Make, Reads, ScanSig, ParseExp, Finish, Digits, ExponentText, Scanned, Dropped, Signed,
      StripSign;
    TextStarts(s, neg, h);
    TailStarts(h.exponent);
    st, r := LiteralScan(t, h, n, ExponentText(h.exponent));
    ScannedDropped(t, st, n, Digits(h.fraction), r);
    ModLess(0, Pow2(t.SigBits()));
  }

  /** A literal of a number that the format has: the parser gives the pattern of that number if and only if
      the number is zero or the exponent is read to its end, or it does not matter. */
  lemma LiteralExactly(t: Traits, s: string, h: Literal, n: nat, e: int, bits: nat)
    requires WellFormed(h) && LiteralIs(h, n, e) && bits < Pow2(t.Bits()) && Ieee(t, bits).Finite?
    requires Signed(s, Ieee(t, bits).neg, Text(h))
    requires SameValue(n, e - 4 * Digits(h.fraction), Ieee(t, bits).m, Ieee(t, bits).q)
    ensures ParseHex(t, s) == Some(bits) <==> n == 0 || e == 0 || !Cut(t, h, n, e)
  {
    hide Pow2, BitLen, Make, Ieee, Reads, ParseExp, ParseHex, Finish, Digits, Cut, ExponentIs, SameValue, ExponentText,
      Scanned, Dropped, Signed;
    var v := Ieee(t, bits);
    var st, r := LiteralParsed(t, s, v.neg, h, n);
    var x := e - 4 * Digits(h.fraction);
    var m, k := FewBits(t, bits, n, x);
    NothingLost(t, st, n, Digits(h.fraction), r, m, k);
    ScannedIs(t, st, n, Digits(h.fraction), r);
    if n > 0 {
      var found := ExponentFound(t, h, n, e);
      Sixteen(r);
      ShiftValue(st.sig, 4 * r, x, v.m, v.q);
      FinishExactly(t, st.sig, e + st.exp, found + st.exp, bits);
    }
  }

  lemma ScannedIs(t: Traits, st: Scan, n: nat, places: nat, r: nat)
    requires Scanned(t, st, n, places, r) && n == st.sig * Pow16(r)
    ensures st.exp == 4 * (r - places) && (st.sig == 0 <==> n == 0)
  {
    hide Pow16, BitLen;
    if st.sig > 0 { Positive(st.sig, Pow16(r)); }
  }

  lemma TextStarts(s: string, neg: bool, h: Literal)
    requires Signed(s, neg, Text(h))
    ensures StripSign(s) == (neg, Text(h)) && "0x" <= Text(h)
    ensures Text(h)[2..] == h.whole + (if h.dot then "." else "") + h.fraction + ExponentText(h.exponent)
  {
    hide ExponentText;
    var rest := h.whole + (if h.dot then "." else "") + h.fraction + ExponentText(h.exponent);
    assert Text(h) == "0x" + rest;
    Unsigned(s, neg, Text(h));
  }

  lemma TailStarts(e: Exponent)
    requires e.Exponent? ==> e.mark in ["p", "P"]
    ensures var s := ExponentText(e); s == "" || s[0] == 'p' || s[0] == 'P'
  {}

  // ----- the round trip -----

  /** What is printed for a number is read to its end. */
  lemma PrintedInFull(t: Traits, exp: int, sig: nat)
    requires t.MinExp() <= exp < t.MaxExp() && sig < Pow2(t.SigBits()) && !(sig == 0 && exp == t.MinExp())
    ensures !Cut(t, PrintedLiteral(t, exp, sig), Shifted(1, FractionOf(t, exp, sig)), ShownExp(t, exp, sig))
  {
    hide Pow2, BitLen, FractionOf, ShownExp, Decimal, Shifted, Digits, HexText;
    var ds := FractionOf(t, exp, sig);
    DigitsPrinted(t, exp, sig);
    ExpRange(t, exp, sig);
    HexTextReads(ds, 1);
    OneAndDigits(ds);
  }

  lemma OneAndDigits(ds: seq<Nybble>)
    ensures BitLen(Shifted(1, ds)) == 4 * |ds| + 1
  {
    hide Pow2;
    HexValueBelow(ds);
    HalfOf(4 * |ds| + 1);
    BitLenIs(Shifted(1, ds), 4 * |ds|);
  }

  lemma {:induction false} HexValueBelow(ds: seq<Nybble>)
    ensures HexValue(ds) < Pow16(|ds|)
    decreases |ds|
  {
    hide Pow16;
    if ds == [] {
      NoDigits();
    } else {
      HexValueBelow(ds[1..]);
      Pow16Step(|ds| - 1);
      LowPart(ds[0], 16, Pow16(|ds| - 1), HexValue(ds[1..]));
    }
  }

  /** A number is read back: zero, normal or subnormal. */
  lemma NumberReadsBack(t: Traits, bits: nat)
    requires bits < Pow2(t.Bits()) && Ieee(t, bits).Finite?
    ensures ParseHex(t, HexOf(t, bits)) == Some(bits)
  {
    hide Pow2, IsNeg, ExpOf, SigOf, Ieee, NumberText, PrintedLiteral, LiteralIs, WellFormed, SameValue, Cut, Text,
      ParseHex, ShownExp, FractionOf, Digits, Shifted;
    MadeOfFields(t, bits);
    FieldsMean(t, bits);
    var neg, exp, sig := IsNeg(t, bits), ExpOf(t, bits), SigOf(t, bits);
    NumberPrinted(t, exp, sig);
    PrintedText(t, exp, sig);
    var h := PrintedLiteral(t, exp, sig);
    assert Signed(HexOf(t, bits), neg, Text(h)) by { assert "" + Text(h) == Text(h); }
    if sig == 0 && exp == t.MinExp() {
      LiteralExactly(t, HexOf(t, bits), h, 0, 0, bits);
    } else {
      PrintedInFull(t, exp, sig);
      LiteralExactly(t, HexOf(t, bits), h, Shifted(1, FractionOf(t, exp, sig)), ShownExp(t, exp, sig), bits);
    }
  }

  /** The kind of literal that is printed. */
  function KindOf(t: Traits, bits: nat): LiteralType {
    match Ieee(t, bits) case Finite(_, _, _) => Hexfloat case Infinite(_) => Infinity case NotANumber(_, _) =>
      NanLiteral
  }

  /** Every bit pattern - zeros, subnormal and normal numbers, infinities, NaNs with any payload -
      is read back from what is printed for it. */
  lemma HexRoundTrip(t: Traits, bits: nat)
    requires bits < Pow2(t.Bits())
    ensures Parse(t, KindOf(t, bits), HexOf(t, bits)) == Some(bits)
  {
    hide Pow2, HexOf, Ieee, Denotes, ParseHex, ParseInfinity, ParseNan;
    PrintedDenotes(t, bits);
    match Ieee(t, bits)
    case Finite(_, _, _) => NumberReadsBack(t, bits);
    case Infinite(_) => InfinityParsed(t, HexOf(t, bits), bits);
    case NotANumber(_, _) => NanExactly(t, HexOf(t, bits), bits);
  }
}

/** LEB128 integers (src/leb128.cc) against section 5.2.2 of the WebAssembly Core Specification.
    Bytes are numbers; shifts and masks are products, quotients and remainders by powers of two. */
module Leb128 {
  import opened Util
  import opened Powers

  type Byte = b: nat | b < 256

  /** A value read and the number of bytes it took. */
  datatype Read<T> = Read(value: T, length: nat)

  function Signed(value: int, length: nat): Option<Read<int>> { Some(Read(value, length)) }

  // ----- the standard -----

  /** The grammar of unsigned integers of `N` bits. */
  function DecodeU(N: nat, p: seq<Byte>): Option<Read<nat>>
    decreases |p|
  {
    if p == [] then None
    else if p[0] < 128 then (if p[0] < Pow2(N) then Some(Read(p[0], 1)) else None)
    else if N <= 7 then None
    else
      match DecodeU(N - 7, p[1..])
      case None => None
      case Some(r) => Some(Read(128 * r.value + (p[0] - 128), r.length + 1))
  }

  /** The grammar of signed integers of `N` bits. */
  function DecodeS(N: nat, p: seq<Byte>): Option<Read<int>>
    requires N > 0
    decreases |p|
  {
    if p == [] then None
    else if p[0] < 64 then (if p[0] < Pow2(N - 1) then Some(Read(p[0], 1)) else None)
    else if p[0] < 128 then (if p[0] >= 128 - Pow2(N - 1) then Some(Read(p[0] as int - 128, 1)) else None)
    else if N <= 7 then None
    else
      match DecodeS(N - 7, p[1..])
      case None => None
      case Some(r) => Some(Read(128 * r.value + (p[0] - 128), r.length + 1))
  }

  // ----- readers -----

  /** LEB128_1, LEB128_2, ...: the low seven bits of the first `k` bytes, put together. */
  function Groups(p: seq<Byte>, k: nat): (v: nat)
    requires k <= |p|
  {
    if k == 0 then 0 else (p[k - 1] % 128) * Pow2(7 * (k - 1)) + Groups(p, k - 1)
  }

  /** A byte that ends the number. */
  predicate Ends(p: seq<Byte>, i: nat) { i < |p| && p[i] < 128 }

  function ReadU32(p: seq<Byte>): Option<Read<nat>> {
    if Ends(p, 0) then Some(Read(Groups(p, 1), 1))
    else if Ends(p, 1) then Some(Read(Groups(p, 2), 2))
    else if Ends(p, 2) then Some(Read(Groups(p, 3), 3))
    else if Ends(p, 3) then Some(Read(Groups(p, 4), 4))
    else if Ends(p, 4) then (if p[4] / 16 != 0 then None else Some(Read(Groups(p, 5) % Pow2(32), 5)))
    else None
  }

  /** SIGN_EXTEND to a word of `W` bits from the bit below `bits`. */
  function SignExtend(W: nat, v: nat, bits: nat): int
    requires bits > 0
  {
    if v >= Pow2(bits - 1) then v + Pow2(W) - Pow2(bits) else v
  }

  function ReadS32(p: seq<Byte>): Option<Read<int>> {
    if Ends(p, 0) then Some(Read(SignExtend(32, Groups(p, 1), 7), 1))
    else if Ends(p, 1) then Some(Read(SignExtend(32, Groups(p, 2), 14), 2))
    else if Ends(p, 2) then Some(Read(SignExtend(32, Groups(p, 3), 21), 3))
    else if Ends(p, 3) then Some(Read(SignExtend(32, Groups(p, 4), 28), 4))
    else if Ends(p, 4) then
      var signBitSet := (p[4] / 8) % 2 == 1;
      var topBits := p[4] / 16;
      if (signBitSet && topBits != 7) || (!signBitSet && topBits != 0) then None
      else Some(Read(Groups(p, 5) % Pow2(32), 5))
    else None
  }

  function ReadS64(p: seq<Byte>): Option<Read<int>> {
    if Ends(p, 0) then Some(Read(SignExtend(64, Groups(p, 1), 7), 1))
    else if Ends(p, 1) then Some(Read(SignExtend(64, Groups(p, 2), 14), 2))
    else if Ends(p, 2) then Some(Read(SignExtend(64, Groups(p, 3), 21), 3))
    else if Ends(p, 3) then Some(Read(SignExtend(64, Groups(p, 4), 28), 4))
    else if Ends(p, 4) then Some(Read(SignExtend(64, Groups(p, 5), 35), 5))
    else if Ends(p, 5) then Some(Read(SignExtend(64, Groups(p, 6), 42), 6))
    else if Ends(p, 6) then Some(Read(SignExtend(64, Groups(p, 7), 49), 7))
    else if Ends(p, 7) then Some(Read(SignExtend(64, Groups(p, 8), 56), 8))
    else if Ends(p, 8) then Some(Read(SignExtend(64, Groups(p, 9), 63), 9))
    else if Ends(p, 9) then
      var signBitSet := p[9] % 2 == 1;
      var topBits := p[9] / 2;
      if (signBitSet && topBits != 63) || (!signBitSet && topBits != 0) then None
      else Some(Read(Groups(p, 10) % Pow2(64), 10))
    else None
  }

  // ----- readers accept exactly the grammar -----

  lemma {:induction false} GroupsFront(p: seq<Byte>, k: nat)
    requires 0 < k <= |p|
    ensures Groups(p, k) == p[0] % 128 + 128 * Groups(p[1..], k - 1)
    decreases k
  {
    hide Pow2;
    if k == 1 {
      assert Pow2(0) == 1 by { One(); }
    } else {
      GroupsFront(p, k - 1);
      Pow2Add(7, 7 * (k - 2));
      Seven();
      Shift7(p[k - 1] % 128, Pow2(7 * (k - 2)));
      assert p[1..][k - 2] == p[k - 1];
      assert 7 + 7 * (k - 2) == 7 * (k - 1);
    }
  }

  lemma One()
    ensures Pow2(0) == 1
  {}

  lemma Seven()
    ensures Pow2(7) == 128 && Pow2(6) == 64
  {}

  lemma Shift7(b: nat, p: nat)
    ensures b * (128 * p) == 128 * (b * p)
  {}

  /** All bytes before number `k` have their top bit set. */
  predicate Continues(p: seq<Byte>, k: nat) {
    k <= |p| && forall i | 0 <= i < k :: p[i] >= 128
  }

  /** What the grammar says of a number that ends with byte `k`. */
  lemma {:induction false} DecodeUAt(N: nat, p: seq<Byte>, k: nat)
    requires N > 0 && Continues(p, k) && Ends(p, k)
    ensures DecodeU(N, p) == if 7 * k < N && p[k] < Pow2(N - 7 * k) then Some(Read(Groups(p, k + 1), k + 1)) else None
    decreases k
  {
    hide Pow2;
    GroupsFront(p, k + 1);
    if k == 0 {
      assert Groups(p[1..], 0) == 0;
    } else if N > 7 {
      DecodeUAt(N - 7, p[1..], k - 1);
    }
  }

  /** Without a byte that ends it within the first `k` bytes, enough for `N` bits, nothing is accepted. */
  lemma {:induction false} DecodeUNever(N: nat, p: seq<Byte>, k: nat)
    requires Continues(p, k) && (k == |p| || 7 * k >= N)
    ensures DecodeU(N, p) == None || (k == 0 && N == 0)
    decreases k
  {
    if k > 0 && N > 7 { DecodeUNever(N - 7, p[1..], k - 1); }
  }

  lemma {:induction false} GroupsBelow(p: seq<Byte>, k: nat)
    requires k <= |p|
    ensures Groups(p, k) < Pow2(7 * k)
    decreases k
  {
    hide Pow2;
    if k == 0 {
      One();
    } else {
      GroupsBelow(p, k - 1);
      Pow2Add(7, 7 * (k - 1));
      Seven();
      assert 7 + 7 * (k - 1) == 7 * k;
      GroupFits(p[k - 1] % 128, Pow2(7 * (k - 1)), Groups(p, k - 1));
    }
  }

  lemma GroupFits(b: nat, p: nat, v: nat)
    requires b < 128 && v < p
    ensures b * p + v < 128 * p
    ensures b < 64 ==> b * p + v < 64 * p
    ensures b >= 64 ==> b * p + v >= 64 * p
    ensures b < 16 ==> b * p + v < 16 * p
    ensures b < 8 ==> b * p + v < 8 * p
    ensures b >= 120 ==> b * p + v >= 120 * p
  {
    MulSign(p, 128 - b);
    MulSign(p, 64 - b);
    MulSign(p, 16 - b);
    MulSign(p, 8 - b);
    assert p * (128 - b) == 128 * p - b * p && p * (64 - b) == 64 * p - b * p;
    assert p * (16 - b) == 16 * p - b * p && p * (8 - b) == 8 * p - b * p;
    if b >= 64 {
      assert (b - 64) * p >= 0;
    }
    if b >= 120 {
      assert (b - 120) * p >= 0;
    }
  }

  lemma Small(k: nat)
    requires k >= 7
    ensures Pow2(k) >= 128
  {
    Seven();
    if k > 7 { Pow2Less(7, k); }
  }

  /** The reader of 32-bit unsigned integers accepts exactly the standard's encodings. */
  lemma ReadU32Exact(p: seq<Byte>)
    ensures ReadU32(p) == DecodeU(32, p)
  {
    hide Pow2, DecodeU;
    if Ends(p, 0) {
      DecodeUAt(32, p, 0);
      Small(32);
    } else if Ends(p, 1) {
      DecodeUAt(32, p, 1);
      Small(25);
    } else if Ends(p, 2) {
      DecodeUAt(32, p, 2);
      Small(18);
    } else if Ends(p, 3) {
      DecodeUAt(32, p, 3);
      Small(11);
    } else if Ends(p, 4) {
      DecodeUAt(32, p, 4);
      FifthByte(p);
    } else {
      DecodeUNever(32, p, if |p| < 5 then |p| else 5);
    }
  }

  lemma FifthByte(p: seq<Byte>)
    requires |p| >= 5
    ensures Pow2(4) == 16 && (p[4] < 16 ==> Groups(p, 5) % Pow2(32) == Groups(p, 5))
  {
    hide Pow2;
    GroupsBelow(p, 4);
    Pow2Add(4, 28);
    Sixteen();
    GroupFits(p[4] % 128, Pow2(28), Groups(p, 4));
    if p[4] < 16 { ModOf(0, Pow2(32), Groups(p, 5)); }
  }

  lemma Sixteen()
    ensures Pow2(4) == 16 && Pow2(3) == 8
  {}

  // ----- signed -----

  lemma {:induction false} DecodeSAt(N: nat, p: seq<Byte>, k: nat)
    requires N > 0 && Continues(p, k) && Ends(p, k)
    ensures DecodeS(N, p) == SignedAt(N, p[k], k, Groups(p, k + 1), Pow2(7 * (k + 1)))
    decreases k
  {
    hide Pow2, Groups;
    GroupsFront(p, k + 1);
    Pow2Add(7, 7 * k);
    Seven();
    assert 7 + 7 * k == 7 * (k + 1);
    if k == 0 {
      One();
      NoGroups(p[1..]);
    } else {
      hide DecodeS, SignedAt;
      DecodeSStep(N, p);
      SignedFront(N, p[k], k, Groups(p[1..], k), p[0] - 128, Pow2(7 * k));
      if N > 7 {
        DecodeSAt(N - 7, p[1..], k - 1);
        assert p[1..][k - 1] == p[k] && 7 * (k - 1 + 1) == 7 * k;
      }
    }
  }

  /** The number that ends with byte `b` behind `k` others; `g` is its groups put together, `top` what lies
      above them. */
  function SignedAt(N: nat, b: Byte, k: nat, g: nat, top: nat): Option<Read<int>>
    requires N > 0
  {
    if 7 * k >= N then None
    else if b < 64 then (if b < Pow2(N - 7 * k - 1) then Signed(g, k + 1) else None)
    else if b >= 128 - Pow2(N - 7 * k - 1) then Signed(g - top, k + 1) else None
  }

  lemma SignedFront(N: nat, b: Byte, k: nat, g: nat, low: nat, top: nat)
    requires N > 0 && k > 0
    ensures SignedAt(N, b, k, 128 * g + low, 128 * top) ==
            if N <= 7 then None
            else match SignedAt(N - 7, b, k - 1, g, top)
                 case None => None
                 case Some(r) => Signed(128 * r.value + low, r.length + 1)
  {
    hide Pow2;
    assert N - 7 - 7 * (k - 1) - 1 == N - 7 * k - 1;
  }

  /** A byte with the continuation bit set leaves the rest to be decoded. */
  lemma DecodeSStep(N: nat, p: seq<Byte>)
    requires N > 0 && p != [] && p[0] >= 128
    ensures DecodeS(N, p) ==
            if N <= 7 then None
            else match DecodeS(N - 7, p[1..])
                 case None => None
                 case Some(r) => Signed(128 * r.value + (p[0] - 128), r.length + 1)
  {
    hide Pow2;
  }

  lemma NoGroups(p: seq<Byte>)
    ensures Groups(p, 0) == 0
  {}

  lemma {:induction false} DecodeSNever(N: nat, p: seq<Byte>, k: nat)
    requires N > 0 && Continues(p, k) && (k == |p| || 7 * k >= N)
    ensures DecodeS(N, p) == None
    decreases k
  {
    if k > 0 && N > 7 { DecodeSNever(N - 7, p[1..], k - 1); }
  }

  /** What a signed reader returns: the value as a word of `W` bits. */
  predicate SameSigned(W: nat, r: Option<Read<int>>, s: Option<Read<int>>) {
    if s.None? then r.None?
    else r.Some? && r.value.length == s.value.length
         && r.value.value == if s.value.value < 0 then s.value.value + Pow2(W) else s.value.value
  }

  /** Sign extension finds the sign bit of the last byte. */
  lemma ExtendedIs(W: nat, p: seq<Byte>, k: nat)
    requires Continues(p, k) && Ends(p, k) && 7 * (k + 1) < W
    ensures SameSigned(W, Signed(SignExtend(W, Groups(p, k + 1), 7 * (k + 1)), k + 1), DecodeS(W, p))
  {
    hide Pow2, DecodeS;
    DecodeSAt(W, p, k);
    GroupsBelow(p, k);
    GroupsBelow(p, k + 1);
    Pow2Add(6, 7 * k);
    Seven();
    GroupFits(p[k] % 128, Pow2(7 * k), Groups(p, k));
    assert 6 + 7 * k == 7 * (k + 1) - 1;
    Small(W - 7 * k - 1);
  }

  lemma ReadS32Exact(p: seq<Byte>)
    ensures SameSigned(32, ReadS32(p), DecodeS(32, p))
  {
    hide Pow2, DecodeS, SignExtend, SameSigned;
    if Ends(p, 0) {
      ExtendedIs(32, p, 0);
    } else if Ends(p, 1) {
      ExtendedIs(32, p, 1);
    } else if Ends(p, 2) {
      ExtendedIs(32, p, 2);
    } else if Ends(p, 3) {
      ExtendedIs(32, p, 3);
    } else if Ends(p, 4) {
      LastS32(p);
    } else {
      DecodeSNever(32, p, if |p| < 5 then |p| else 5);
      NothingRead(32);
    }
  }

  lemma NothingRead(W: nat)
    ensures SameSigned(W, None, None)
  {}

  lemma LastS32(p: seq<Byte>)
    requires Continues(p, 4) && Ends(p, 4)
    ensures SameSigned(32, ReadS32(p), DecodeS(32, p))
  {
    hide Pow2, DecodeS, Groups, SignExtend;
    DecodeSAt(32, p, 4);
    FifthGroups(p);
    var b := p[4];
    assert 7 * (4 + 1) == 35;
    assert b < 8 ==> (b / 8) % 2 == 0 && b / 16 == 0;
    assert b >= 120 ==> (b / 8) % 2 == 1 && b / 16 == 7;
  }

  /** The number in five bytes, by the sign it has. */
  lemma FifthGroups(p: seq<Byte>)
    requires Continues(p, 4) && Ends(p, 4)
    ensures Pow2(3) == 8 && Pow2(35) == 8 * Pow2(32)
    ensures p[4] < 8 ==> Groups(p, 5) % Pow2(32) == Groups(p, 5)
    ensures p[4] >= 120 ==>
              Groups(p, 5) % Pow2(32) == Groups(p, 5) - 7 * Pow2(32) && Groups(p, 5) < 8 * Pow2(32)
  {
    hide Pow2, Groups;
    GroupsBelow(p, 4);
    Sixteen();
    Pow2Add(4, 28);
    Pow2Add(3, 32);
    GroupsMore(p, 4);
    Fifth(p[4], Pow2(28), Groups(p, 4), Pow2(32));
  }

  lemma Fifth(b: nat, p: nat, v: nat, q: nat)
    requires b < 128 && v < p && q == 16 * p
    ensures b < 8 ==> (b * p + v) % q == b * p + v
    ensures b >= 120 ==> (b * p + v) % q == b * p + v - 7 * q && b * p + v < 8 * q
  {
    GroupFits(b, p, v);
    if b < 8 {
      ModOf(0, q, b * p + v);
    } else if b >= 120 {
      ModOf(7, q, b * p + v - 7 * q);
    }
  }

  lemma ReadS64Exact(p: seq<Byte>)
    ensures SameSigned(64, ReadS64(p), DecodeS(64, p))
  {
    hide Pow2, DecodeS, SignExtend, SameSigned;
    if k: nat :| k < 10 && Continues(p, k) && Ends(p, k) {
      if k < 9 { ExtendedIs(64, p, k); } else { LastS64(p); }
    } else {
      NoEnd(p, 10);
      DecodeSNever(64, p, if |p| < 10 then |p| else 10);
      NothingRead(64);
    }
  }

  lemma {:induction false} NoEnd(p: seq<Byte>, n: nat)
    requires forall k | 0 <= k < n :: !(Continues(p, k) && Ends(p, k))
    ensures Continues(p, if |p| < n then |p| else n)
    ensures forall k | 0 <= k < n :: !Ends(p, k)
  {
    if n > 0 {
      NoEnd(p, n - 1);
    }
  }

  lemma LastS64(p: seq<Byte>)
    requires Continues(p, 9) && Ends(p, 9)
    ensures SameSigned(64, ReadS64(p), DecodeS(64, p))
  {
    hide Pow2, DecodeS;
    DecodeSAt(64, p, 9);
    GroupsBelow(p, 9);
    One();
    Seven();
    Pow2Add(1, 63);
    Two();
    Pow2Add(7, 63);
    GroupFits(p[9] % 128, Pow2(63), Groups(p, 9));
    if p[9] == 0 {
      ModOf(0, Pow2(64), Groups(p, 10));
    } else if p[9] == 127 {
      assert Groups(p, 10) == 127 * Pow2(63) + Groups(p, 9);
      ModOf(63, Pow2(64), Groups(p, 10) - 63 * Pow2(64));
    }
  }

  lemma Two()
    ensures Pow2(1) == 2
  {}

  // ----- writers -----

  /** The shortest encodings. */
  function EncodeU(v: nat): (p: seq<Byte>)
    ensures p != []
  {
    if v < 128 then [v] else [v % 128 + 128] + EncodeU(v / 128)
  }

  function EncodeS(v: int): (p: seq<Byte>)
    ensures p != []
    decreases if v < 0 then -v else v
  {
    if -64 <= v < 64 then [v % 128] else [v % 128 + 128] + EncodeS(v / 128)
  }

  /** LEB128_LOOP_UNTIL(value == 0). */
  method WriteU32Leb128(v: nat) returns (data: seq<Byte>)
    requires v < Pow2(32)
    ensures data == EncodeU(v)
  {
    hide EncodeU;
    data := [];
    var value := v;
    while true
      invariant EncodeU(v) == data + EncodeU(value)
      decreases value
    {
      UFirst(value);
      if value >= 128 { AppendByte(data, value % 128 + 128, EncodeU(value / 128)); }
      var byte := value % 128;
      value := value / 128;
      if value == 0 {
        data := data + [byte];
        break;
      }
      data := data + [byte + 128];
    }
  }

  lemma UFirst(v: nat)
    ensures EncodeU(v) == if v < 128 then [v] else [v % 128 + 128] + EncodeU(v / 128)
  {}

  method U32Leb128Length(v: nat) returns (size: nat)
    ensures size == |EncodeU(v)|
  {
    size := 0;
    var value := v;
    while true
      invariant |EncodeU(v)| == size + |EncodeU(value)|
      decreases value
    {
      var last := value / 128 == 0;
      value := value / 128;
      size := size + 1;
      if last {
        break;
      }
    }
  }

  /** WriteS32Leb128 and WriteS64Leb128: one loop for negative numbers, one for the others. */
  method WriteSLeb128(v: int) returns (data: seq<Byte>)
    ensures data == EncodeS(v)
  {
    hide EncodeS;
    data := [];
    var value := v;
    if value < 0 {
      while true
        invariant value < 0 && EncodeS(v) == data + EncodeS(value)
        decreases -value
      {
        SStep(value, data);
        var byte := value % 128;
        value := value / 128;
        if value == -1 && byte >= 64 {
          data := data + [byte];
          break;
        }
        data := data + [byte + 128];
      }
    } else {
      while true
        invariant value >= 0 && EncodeS(v) == data + EncodeS(value)
        decreases value
      {
        SStep(value, data);
        var byte := value % 128;
        value := value / 128;
        if value == 0 && byte < 64 {
          data := data + [byte];
          break;
        }
        data := data + [byte + 128];
      }
    }
  }

  /** The first byte of a number, and what follows it. */
  lemma SStep(v: int, data: seq<Byte>)
    ensures data + EncodeS(v) ==
            if (v / 128 == 0 && v % 128 < 64) || (v / 128 == -1 && v % 128 >= 64) then data + [v % 128]
            else data + [v % 128 + 128] + EncodeS(v / 128)
    ensures v > 0 ==> 0 <= v / 128 < v
    ensures v < 0 ==> v <= v / 128 < 0 && (v == v / 128 ==> v == -1)
  {
    Divided(v, v / 128, v % 128);
    SFirst(v);
    if !(-64 <= v < 64) { AppendByte(data, v % 128 + 128, EncodeS(v / 128)); }
  }

  lemma SFirst(v: int)
    ensures EncodeS(v) == if -64 <= v < 64 then [v % 128] else [v % 128 + 128] + EncodeS(v / 128)
  {}

  lemma Divided(v: int, q: int, r: int)
    requires v == 128 * q + r && 0 <= r < 128
    ensures -64 <= v < 64 <==> (q == 0 && r < 64) || (q == -1 && r >= 64)
    ensures v > 0 ==> 0 <= q < v
    ensures v < 0 ==> v <= q < 0 && (v == q ==> v == -1)
  {}

  lemma AppendByte(data: seq<Byte>, b: Byte, rest: seq<Byte>)
    ensures data + ([b] + rest) == data + [b] + rest
  {}

  /** Reading what was written gives the number back, whatever follows. */
  lemma {:induction false} URoundTrip(N: nat, v: nat, rest: seq<Byte>)
    requires v < Pow2(N)
    ensures DecodeU(N, EncodeU(v) + rest) == Some(Read(v, |EncodeU(v)|))
    decreases v
  {
    hide Pow2;
    var p := EncodeU(v) + rest;
    if v >= 128 {
      assert p[1..] == EncodeU(v / 128) + rest;
      assert N > 7 by { Seven(); if N < 7 { Pow2Less(N, 7); } }
      Pow2Add(7, N - 7);
      Seven();
      URoundTrip(N - 7, v / 128, rest);
    }
  }

  lemma {:induction false} SRoundTrip(N: nat, v: int, rest: seq<Byte>)
    requires N > 0 && -(Pow2(N - 1) as int) <= v < Pow2(N - 1)
    ensures DecodeS(N, EncodeS(v) + rest) == Some(Read(v, |EncodeS(v)|))
    decreases if v < 0 then -v else v
  {
    hide Pow2;
    var p := EncodeS(v) + rest;
    if !(-64 <= v < 64) {
      assert p[1..] == EncodeS(v / 128) + rest;
      assert N > 7 by { Seven(); if N < 7 { Pow2Less(N - 1, 6); } }
      Pow2Add(7, N - 8);
      Seven();
      SRoundTrip(N - 7, v / 128, rest);
    }
  }

  /** No encoding of the same number is shorter. */
  lemma {:induction false} UShortest(N: nat, p: seq<Byte>)
    requires DecodeU(N, p).Some?
    ensures var r := DecodeU(N, p).value;
            |EncodeU(r.value)| <= r.length
    decreases |p|
  {
    hide Pow2;
    if p[0] >= 128 {
      UShortest(N - 7, p[1..]);
      var m := DecodeU(N - 7, p[1..]).value.value;
      assert (128 * m + (p[0] - 128)) / 128 == m;
    }
  }

  lemma {:induction false} SShortest(N: nat, p: seq<Byte>)
    requires N > 0 && DecodeS(N, p).Some?
    ensures var r := DecodeS(N, p).value;
            |EncodeS(r.value)| <= r.length
    decreases |p|
  {
    hide Pow2;
    if p[0] >= 128 {
      SShortest(N - 7, p[1..]);
      var m := DecodeS(N - 7, p[1..]).value.value;
      assert (128 * m + (p[0] - 128)) / 128 == m;
    }
  }

  /** WriteFixedU32Leb128Raw: always five bytes. */
  function FixedU32(v: nat): (p: seq<Byte>)
    ensures |p| == 5
  {
    [v % 128 + 128, (v / 0x80) % 128 + 128, (v / 0x4000) % 128 + 128, (v / 0x20_0000) % 128 + 128,
      (v / 0x1000_0000) % 16]
  }

  /** The fixed form reads as the same number. */
  lemma FixedReadsBack(v: nat, rest: seq<Byte>)
    requires v < Pow2(32)
    ensures ReadU32(FixedU32(v) + rest) == Some(Read(v, 5))
  {
    hide Pow2, Groups, FixedU32;
    var p := FixedU32(v) + rest;
    FixedBytes(v);
    Word32();
    FixedGroups(p, v);
    ModOf(0, Pow2(32), v);
  }

  lemma FixedBytes(v: nat)
    ensures var p := FixedU32(v);
            && p[0] >= 128 && p[1] >= 128 && p[2] >= 128 && p[3] >= 128 && p[4] < 16
            && p[0] % 128 == v % 128 && p[1] % 128 == (v / 0x80) % 128 && p[2] % 128 == (v / 0x4000) % 128
            && p[3] % 128 == (v / 0x20_0000) % 128 && p[4] % 128 == (v / 0x1000_0000) % 16
  {}

  lemma FixedGroups(p: seq<Byte>, v: nat)
    requires |p| >= 5 && v < 0x1_0000_0000
    requires p[0] % 128 == v % 128 && p[1] % 128 == (v / 0x80) % 128 && p[2] % 128 == (v / 0x4000) % 128
    requires p[3] % 128 == (v / 0x20_0000) % 128 && p[4] % 128 == (v / 0x1000_0000) % 16
    ensures Groups(p, 5) == v
  {
    hide Pow2, Groups;
    Word32();
    GroupsMore(p, 0);
    GroupsMore(p, 1);
    GroupsMore(p, 2);
    GroupsMore(p, 3);
    GroupsMore(p, 4);
    Digits(v);
  }

  lemma GroupsMore(p: seq<Byte>, k: nat)
    requires k < |p|
    ensures Groups(p, k + 1) == (p[k] % 128) * Pow2(7 * k) + Groups(p, k) && Groups(p, 0) == 0
  {
    hide Pow2;
  }

  lemma Digits(v: nat)
    requires v < 0x1_0000_0000
    ensures v == ((v / 0x1000_0000) % 16) * 0x1000_0000 + ((v / 0x20_0000) % 128) * 0x20_0000
                 + ((v / 0x4000) % 128) * 0x4000 + ((v / 0x80) % 128) * 0x80 + v % 128
  {
    var a := v / 128;
    var b := a / 128;
    var c := b / 128;
    var d := c / 128;
    assert v / 0x4000 == b && v / 0x20_0000 == c && v / 0x1000_0000 == d;
  }

  lemma Word32()
    ensures Pow2(32) == 0x1_0000_0000 && Pow2(28) == 0x1000_0000 && Pow2(21) == 0x20_0000 && Pow2(14) == 0x4000
    ensures Pow2(7) == 0x80 && Pow2(0) == 1
  {
    Seven();
    assert Pow2(14) == 0x4000 by { Pow2Add(7, 7); }
    assert Pow2(21) == 0x20_0000 by { Pow2Add(14, 7); }
    assert Pow2(28) == 0x1000_0000 by { Pow2Add(21, 7); }
    Sixteen();
    Pow2Add(28, 4);
  }
}

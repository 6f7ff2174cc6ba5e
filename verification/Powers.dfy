/** Powers of two and lengths of binary numbers. */
module Powers {
  function Pow2(k: nat): (p: nat)
    ensures p > 0
  {
    if k == 0 then 1 else 2 * Pow2(k - 1)
  }

  lemma {:induction false} Pow2Add(a: nat, b: nat)
    ensures Pow2(a + b) == Pow2(a) * Pow2(b)
    decreases a
  {
    if a > 0 {
      Pow2Add(a - 1, b);
      assert Pow2(a) * Pow2(b) == 2 * (Pow2(a - 1) * Pow2(b));
    }
  }

  lemma {:induction false} Pow2Less(a: nat, b: nat)
    requires a < b
    ensures 2 * Pow2(a) <= Pow2(b)
    decreases b
  {
    if a < b - 1 { Pow2Less(a, b - 1); }
  }

  /** Equal products of powers of two: the smaller exponent cancels. */
  lemma Cancel(x: nat, a: nat, y: nat, b: nat)
    requires x * Pow2(a) == y * Pow2(b)
    ensures a <= b ==> x == y * Pow2(b - a)
    ensures b <= a ==> x * Pow2(a - b) == y
  {
    if a <= b {
      Pow2Add(b - a, a);
      MulCancel(x, y * Pow2(b - a), Pow2(a), y, Pow2(b - a));
    }
    if b <= a {
      Pow2Add(a - b, b);
      MulCancel(y, x * Pow2(a - b), Pow2(b), x, Pow2(a - b));
    }
  }

  lemma MulCancel(x: nat, z: nat, p: nat, y: nat, q: nat)
    requires p > 0 && z == y * q && x * p == y * (q * p)
    ensures x == z
  {
    assert y * (q * p) == z * p;
    assert (x - z) * p == 0;
  }

  lemma DivExact(x: nat, p: nat)
    requires p > 0
    ensures (x * p) / p == x && (x * p) % p == 0
  {
    ModOf(x, p, 0);
  }

  lemma ModOf(q: nat, p: nat, r: nat)
    requires r < p
    ensures (q * p + r) / p == q && (q * p + r) % p == r
  {
    var n := q * p + r;
    assert n == p * (n / p) + n % p;
    var k := n / p - q;
    assert p * k == p * (n / p) - p * q;
    MulSign(p, k);
  }

  lemma MulSign(p: nat, k: int)
    ensures k >= 1 ==> p * k >= p
    ensures k <= -1 ==> p * k <= 0 - p
  {
    if k >= 1 {
      assert p * k == p * (k - 1) + p && p * (k - 1) >= 0;
    } else if k <= -1 {
      assert p * k == p * (k + 1) - p && p * (k + 1) <= 0;
    }
  }

  /** Quotients of numbers below a product. */
  lemma DivBelow(n: nat, p: nat, q: nat)
    requires p > 0 && n < q * p
    ensures n / p < q && n % p < p
  {
    assert n == p * (n / p) + n % p;
    var k := q - n / p;
    assert p * k == q * p - p * (n / p);
    MulSign(p, k);
    assert p * 0 == 0;
  }

  /** The number of binary digits: the word size less the leading zeros. */
  function BitLen(n: nat): nat {
    if n == 0 then 0 else 1 + BitLen(n / 2)
  }

  lemma {:induction false} BitLenBounds(n: nat)
    requires n > 0
    ensures BitLen(n) > 0 && Pow2(BitLen(n) - 1) <= n < Pow2(BitLen(n))
    decreases n
  {
    if n > 1 { BitLenBounds(n / 2); }
  }

  lemma BitLenIs(n: nat, k: nat)
    requires Pow2(k) <= n < Pow2(k + 1)
    ensures BitLen(n) == k + 1
  {
    BitLenBounds(n);
    var b := BitLen(n);
    if b <= k {
      if b < k { Pow2Less(b, k); }
    }
    if b > k + 1 {
      if b - 1 > k + 1 { Pow2Less(k + 1, b - 1); }
    }
  }
}

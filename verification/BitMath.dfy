/** Powers of two and bit lengths, as `BitsRequired` (bit_util.rs) computes them. */
module BitMath {

  type byte = b: int | 0 <= b < 256

  function Pow2(n: nat): (r: nat)
    ensures r >= 1
  {
    if n == 0 then 1 else 2 * Pow2(n - 1)
  }

  lemma {:induction false} Pow2Add(a: nat, b: nat)
    ensures Pow2(a + b) == Pow2(a) * Pow2(b)
  {
    if a > 0 {
      Pow2Add(a - 1, b);
    }
  }

  lemma {:induction false} Pow2Monotone(a: nat, b: nat)
    requires a <= b
    ensures Pow2(a) <= Pow2(b)
  {
    if a < b {
      Pow2Monotone(a, b - 1);
    }
  }

  lemma Pow2Words()
    ensures Pow2(31) == 0x8000_0000 && Pow2(32) == 0x1_0000_0000
  {
    assert Pow2(8) == 256;
    Pow2Add(8, 8);
    Pow2Add(16, 16);
  }

  /** The number of bits up to and including the highest set one: width minus leading zeros. */
  function BitLength(x: nat): (r: nat)
    ensures x < Pow2(r)
    ensures x > 0 ==> r > 0 && Pow2(r - 1) <= x
  {
    if x == 0 then 0 else 1 + BitLength(x / 2)
  }

  lemma BitLengthBelow(x: nat, n: nat)
    requires x < Pow2(n)
    ensures BitLength(x) <= n
  {
    var b := BitLength(x);
    if 0 < b && n <= b - 1 {
      Pow2Monotone(n, b - 1);
    }
  }

  /** `bits_required`: at least one bit, and always enough bits to hold `x`. */
  function BitsRequired(x: nat): (r: nat)
    ensures r >= 1 && x < Pow2(r)
  {
    if BitLength(x) < 1 then 1 else BitLength(x)
  }

  lemma {:induction false} Multiple(q: nat, n: nat)
    ensures q > 0 ==> q * n >= n
  {
    if q > 1 {
      Multiple(q - 1, n);
      assert q * n == (q - 1) * n + n;
    }
  }

  /** A multiple of `n` is zero or at least `n` away from it. */
  lemma NoMultiple(q: int, n: nat)
    ensures q * n >= n || q * n <= -(n as int) || q == 0
  {
    if q > 0 {
      Multiple(q, n);
    } else {
      Multiple(-q, n);
      assert q * n == -((-q) * n);
    }
  }

  /** Quotient and remainder are unique. */
  lemma DivMod(a: nat, b: nat, q: nat, r: nat)
    requires b > 0 && a == q * b + r && r < b
    ensures a / b == q && a % b == r
  {
    var q', r' := a / b, a % b;
    assert a == q' * b + r';
    assert (q' - q) * b == r - r';
    NoMultiple(q' - q, b);
  }

  /** Two's complement or. */
  function BitOr(a: int, b: int): (r: int)
    ensures r == 0 <==> a == 0 && b == 0
    ensures r >= 0 <==> a >= 0 && b >= 0
    ensures a >= 0 && b >= 0 ==> a <= r && b <= r
    decreases if a < 0 then -a else a
  {
    if a == 0 then b else if b == 0 then a
    else if a == -1 || b == -1 then -1
    else 2 * BitOr(a / 2, b / 2) + (if a % 2 == 1 || b % 2 == 1 then 1 else 0)
  }
}

/** The binary greatest common divisor (math.rs). */
module Gcd {
  import opened BitMath

  ghost predicate Divides(d: nat, n: nat) {
    d > 0 && n % d == 0
  }

  /** The greatest common divisor, by Euclid. */
  ghost function Gcd(a: nat, b: nat): nat
    decreases b
  {
    if b == 0 then a else Gcd(b, a % b)
  }

  // ----- divisibility -----

  lemma Quotient(d: nat, n: nat) returns (q: nat)
    requires Divides(d, n)
    ensures n == d * q
  {
    q := n / d;
  }

  lemma Product(d: nat, q: nat)
    requires d > 0
    ensures Divides(d, d * q)
  {
    DivMod(d * q, d, q, 0);
  }

  lemma Larger(d: nat, p: nat, q: nat)
    requires d > 0
    ensures p < q ==> d * p < d * q
  {
    if p < q {
      Multiple(q - p, d);
      assert (q - p) * d == d * q - d * p;
    }
  }

  lemma DividesSum(d: nat, a: nat, b: nat)
    requires Divides(d, a) && Divides(d, b)
    ensures Divides(d, a + b)
  {
    var p := Quotient(d, a);
    var q := Quotient(d, b);
    assert a + b == d * (p + q);
    Product(d, p + q);
  }

  lemma DividesDifference(d: nat, a: nat, b: nat)
    requires Divides(d, a) && Divides(d, b) && a >= b
    ensures Divides(d, a - b)
  {
    var p := Quotient(d, a);
    var q := Quotient(d, b);
    Larger(d, p, q);
    assert a - b == d * (p - q);
    Product(d, p - q);
  }

  lemma DividesMultiple(d: nat, a: nat, k: nat)
    requires Divides(d, a)
    ensures Divides(d, a * k)
  {
    var p := Quotient(d, a);
    assert a * k == d * (p * k);
    Product(d, p * k);
  }

  lemma DividesAtMost(d: nat, n: nat)
    requires Divides(d, n) && n > 0
    ensures d <= n
  {
    var q := Quotient(d, n);
    Multiple(q, d);
    assert q * d == n;
  }

  lemma DividesBoth(d: nat, e: nat)
    requires Divides(d, e) && Divides(e, d)
    ensures d == e
  {
    DividesAtMost(d, e);
    DividesAtMost(e, d);
  }

  // ----- what the greatest common divisor is -----

  /** It divides both numbers. */
  lemma {:induction false} GcdDivides(a: nat, b: nat)
    requires a > 0 || b > 0
    ensures Divides(Gcd(a, b), a) && Divides(Gcd(a, b), b)
    decreases b
  {
    if b == 0 {
      Product(a, 0);
      Product(a, 1);
    } else {
      var g := Gcd(b, a % b);
      GcdDivides(b, a % b);
      DividesMultiple(g, b, a / b);
      DividesSum(g, b * (a / b), a % b);
      assert a == b * (a / b) + a % b;
    }
  }

  /** Every common divisor divides it. */
  lemma {:induction false} GcdGreatest(a: nat, b: nat, d: nat)
    requires Divides(d, a) && Divides(d, b)
    ensures Divides(d, Gcd(a, b))
    decreases b
  {
    if b > 0 {
      DividesMultiple(d, b, a / b);
      Larger(1, a, b * (a / b));
      assert a == b * (a / b) + a % b;
      DividesDifference(d, a, b * (a / b));
      GcdGreatest(b, a % b, d);
    }
  }

  /** Numbers with the same common divisors have the same greatest one. */
  lemma SameGcd(a: nat, b: nat, c: nat, d: nat)
    requires (a > 0 || b > 0) && (c > 0 || d > 0)
    requires forall k: nat :: Divides(k, a) && Divides(k, b) <==> Divides(k, c) && Divides(k, d)
    ensures Gcd(a, b) == Gcd(c, d)
  {
    GcdDivides(a, b);
    GcdDivides(c, d);
    GcdGreatest(a, b, Gcd(c, d));
    GcdGreatest(c, d, Gcd(a, b));
    DividesBoth(Gcd(a, b), Gcd(c, d));
  }

  lemma GcdSwap(a: nat, b: nat)
    requires a > 0 && b > 0
    ensures Gcd(a, b) == Gcd(b, a)
  {
    SameGcd(a, b, b, a);
  }

  lemma GcdSubtract(a: nat, b: nat)
    requires 0 < a < b
    ensures Gcd(a, b - a) == Gcd(a, b)
  {
    forall k: nat ensures Divides(k, a) && Divides(k, b - a) <==> Divides(k, a) && Divides(k, b) {
      if Divides(k, a) && Divides(k, b - a) {
        DividesSum(k, a, b - a);
      }
      if Divides(k, a) && Divides(k, b) {
        DividesDifference(k, b, a);
      }
    }
    SameGcd(a, b - a, a, b);
  }

  lemma OddProduct(p: nat, q: nat)
    ensures p % 2 == 1 && q % 2 == 1 ==> (p * q) % 2 == 1
    ensures p % 2 == 0 ==> (p * q) % 2 == 0
  {
    var i, j := p / 2, q / 2;
    if p % 2 == 0 {
      EvenTimes(i, q);
    } else if q % 2 == 1 {
      OddTimes(i, j);
    }
  }

  lemma EvenTimes(i: nat, q: nat)
    ensures (2 * i * q) % 2 == 0
  {
    assert 2 * i * q == 2 * (i * q);
  }

  lemma OddTimes(i: nat, j: nat)
    ensures ((2 * i + 1) * (2 * j + 1)) % 2 == 1
  {
    assert (2 * i + 1) * (2 * j + 1) == 2 * (2 * i * j + i + j) + 1;
  }

  /** A divisor of an odd number that divides an even one divides its half. */
  lemma OddDivisor(k: nat, a: nat, b: nat)
    requires Divides(k, a) && a % 2 == 1 && Divides(k, 2 * b)
    ensures Divides(k, b)
  {
    var p := Quotient(k, a);
    OddProduct(k, p);
    var q := Quotient(k, 2 * b);
    OddProduct(k, q);
    HalfOf(k, q, b);
    Product(k, q / 2);
  }

  lemma HalfOf(k: nat, q: nat, b: nat)
    requires 2 * b == k * q && q % 2 == 0
    ensures b == k * (q / 2)
  {
    var h := q / 2;
    assert q == 2 * h;
    assert k * (2 * h) == 2 * (k * h);
  }

  /** Halving one number does not matter if the other is odd. */
  lemma GcdHalve(a: nat, b: nat)
    requires a % 2 == 1 && b > 0
    ensures Gcd(a, 2 * b) == Gcd(a, b)
  {
    forall k: nat ensures Divides(k, a) && Divides(k, 2 * b) <==> Divides(k, a) && Divides(k, b) {
      if Divides(k, a) && Divides(k, 2 * b) {
        OddDivisor(k, a, b);
      }
      if Divides(k, b) {
        DividesMultiple(k, b, 2);
      }
    }
    SameGcd(a, 2 * b, a, b);
  }

  lemma DoubleDivides(d: nat, n: nat)
    requires d > 0
    ensures Divides(2 * d, 2 * n) <==> Divides(d, n)
  {
    if Divides(d, n) {
      var q := Quotient(d, n);
      assert 2 * n == 2 * d * q;
      Product(2 * d, q);
    }
    if Divides(2 * d, 2 * n) {
      var q := Quotient(2 * d, 2 * n);
      assert n == d * q;
      Product(d, q);
    }
  }

  lemma GcdDouble(a: nat, b: nat)
    requires a > 0 && b > 0
    ensures Gcd(2 * a, 2 * b) == 2 * Gcd(a, b)
  {
    var g, h := Gcd(a, b), Gcd(2 * a, 2 * b);
    GcdDivides(a, b);
    GcdDivides(2 * a, 2 * b);
    DoubleDivides(g, a);
    DoubleDivides(g, b);
    GcdGreatest(2 * a, 2 * b, 2 * g);
    Product(2, a);
    Product(2, b);
    GcdGreatest(2 * a, 2 * b, 2);
    var half := Quotient(2, h);
    DoubleDivides(half, a);
    DoubleDivides(half, b);
    GcdGreatest(a, b, half);
    DoubleDivides(half, g);
    DividesBoth(2 * g, h);
  }

  // ----- the binary algorithm -----

  function TrailingZeros(n: nat): (z: nat)
    requires n > 0
  {
    if n % 2 == 1 then 0 else 1 + TrailingZeros(n / 2)
  }

  /** What is left once no factor 2 is. */
  ghost function OddPart(n: nat): (r: nat)
    requires n > 0
    ensures r % 2 == 1 && r <= n
  {
    if n % 2 == 1 then n else OddPart(n / 2)
  }

  lemma {:induction false} OddPartShift(n: nat)
    requires n > 0
    ensures n == OddPart(n) * Pow2(TrailingZeros(n))
  {
    if n % 2 == 0 {
      OddPartShift(n / 2);
      assert OddPart(n / 2) * Pow2(TrailingZeros(n)) == 2 * (OddPart(n / 2) * Pow2(TrailingZeros(n / 2)));
    }
  }

  /** Shifting the trailing zeros out leaves the odd part. */
  lemma ShiftedOdd(n: nat)
    requires n > 0
    ensures n / Pow2(TrailingZeros(n)) == OddPart(n)
  {
    OddPartShift(n);
    DivMod(n, Pow2(TrailingZeros(n)), OddPart(n), 0);
  }

  lemma {:induction false} GcdOddPart(a: nat, b: nat)
    requires a % 2 == 1 && b > 0
    ensures Gcd(a, OddPart(b)) == Gcd(a, b)
  {
    if b % 2 == 0 {
      GcdOddPart(a, b / 2);
      GcdHalve(a, b / 2);
    }
  }

  /** The zeros that both numbers end in. */
  ghost function CommonZeros(a: nat, b: nat): nat
    requires a > 0 && b > 0
  {
    if TrailingZeros(a) < TrailingZeros(b) then TrailingZeros(a) else TrailingZeros(b)
  }

  lemma CommonStep(a: nat, b: nat)
    requires a > 0 && b > 0
    ensures a % 2 == 0 && b % 2 == 0 ==> CommonZeros(a, b) == 1 + CommonZeros(a / 2, b / 2)
    ensures a % 2 == 1 || b % 2 == 1 ==> CommonZeros(a, b) == 0
  {
  }

  lemma ZerosStep(n: nat)
    requires n > 0
    ensures TrailingZeros(n) == if n % 2 == 1 then 0 else 1 + TrailingZeros(n / 2)
  {
  }

  lemma OrStep(a: nat, b: nat)
    requires a > 0 && b > 0
    ensures BitOr(a, b) > 0 && BitOr(a, b) == 2 * BitOr(a / 2, b / 2) + if a % 2 == 1 || b % 2 == 1 then 1 else 0
  {
  }

  /** The bitwise or of two numbers ends in the zeros that both end in. */
  lemma {:induction false} OrZeros(a: nat, b: nat)
    requires a > 0 && b > 0
    ensures TrailingZeros(BitOr(a, b)) == CommonZeros(a, b)
  {
    hide BitOr, TrailingZeros, CommonZeros;
    OrStep(a, b);
    ZerosStep(a);
    ZerosStep(b);
    ZerosStep(BitOr(a, b));
    CommonStep(a, b);
    if a % 2 == 0 && b % 2 == 0 {
      OrZeros(a / 2, b / 2);
      assert BitOr(a, b) / 2 == BitOr(a / 2, b / 2);
    }
  }

  lemma GcdOneOdd(a: nat, b: nat)
    requires a > 0 && b > 0 && (a % 2 == 1 || b % 2 == 1)
    ensures Gcd(a, b) == Gcd(OddPart(a), OddPart(b)) && CommonZeros(a, b) == 0
  {
    hide Gcd;
    if a % 2 == 1 {
      GcdOddPart(a, b);
    } else {
      GcdSwap(a, b);
      GcdOddPart(b, a);
      GcdSwap(b, OddPart(a));
    }
  }

  lemma Doubled(g: nat, h: nat, z: nat)
    requires h == g * Pow2(z)
    ensures 2 * h == g * Pow2(z + 1)
  {
    assert Pow2(z + 1) == 2 * Pow2(z);
    assert g * (2 * Pow2(z)) == 2 * (g * Pow2(z));
  }

  /** The zeros that both numbers end in are a factor of the greatest common divisor; the rest of
      it is that of the odd parts. */
  lemma {:induction false} GcdParts(a: nat, b: nat)
    requires a > 0 && b > 0
    ensures Gcd(a, b) == Gcd(OddPart(a), OddPart(b)) * Pow2(CommonZeros(a, b))
    decreases a
  {
    hide Gcd, Pow2;
    if a % 2 == 0 && b % 2 == 0 {
      var c, d := a / 2, b / 2;
      GcdDouble(c, d);
      GcdParts(c, d);
      Doubled(Gcd(OddPart(c), OddPart(d)), Gcd(c, d), CommonZeros(c, d));
    } else {
      GcdOneOdd(a, b);
      One();
    }
  }

  lemma One()
    ensures Pow2(0) == 1
  {
  }

  function Abs(x: int): nat {
    if x < 0 then -x else x
  }

  /** Shifts the trailing zeros out. */
  method ShiftOut(n: nat) returns (r: nat)
    requires n > 0
    ensures r == OddPart(n)
  {
    ShiftedOdd(n);
    r := n / Pow2(TrailingZeros(n));
  }

  /** `gcd`: the greatest common divisor of the absolute values; never more than 64-bit numbers hold. */
  method BinaryGcd(x: int, y: int) returns (r: nat)
    ensures r == Gcd(Abs(x), Abs(y))
    ensures x != 0 ==> r <= Abs(x)
    ensures y != 0 ==> r <= Abs(y)
  {
    var a: nat, b: nat := Abs(x), Abs(y);
    if a == 0 || b == 0 {
      GcdZero(a, b);
      return if a == 0 then b else a;
    }
    hide Gcd, OddPart, CommonZeros, TrailingZeros, Pow2, Divides, BitOr;
    var zeros := TrailingZeros(BitOr(a, b));
    OrZeros(a, b);
    GcdParts(a, b);
    ghost var g := Gcd(OddPart(a), OddPart(b));
    a := ShiftOut(a);
    b := ShiftOut(b);
    while a != b
      invariant a % 2 == 1 && b % 2 == 1 && Gcd(a, b) == g
      decreases a + b
    {
      if a > b {
        GcdSwap(a, b);
        a, b := b, a;
      }
      if a == 1 {
        break;
      }
      GcdSubtract(a, b);
      b := b - a;
      GcdOddPart(a, b);
      b := ShiftOut(b);
    }
    GcdEnd(a, b);
    r := a * Pow2(zeros);
    GcdDivides(Abs(x), Abs(y));
    DividesAtMost(r, Abs(x));
    DividesAtMost(r, Abs(y));
  }

  lemma GcdZero(a: nat, b: nat)
    requires a == 0 || b == 0
    ensures Gcd(a, b) == if a == 0 then b else a
  {
  }

  lemma GcdEnd(a: nat, b: nat)
    requires a > 0 && b > 0 && (a == b || a == 1)
    ensures Gcd(a, b) == a
  {
    Product(a, 1);
    GcdDivides(a, b);
    if a == b {
      GcdGreatest(a, b, a);
      DividesBoth(a, Gcd(a, b));
    } else {
      DividesAtMost(Gcd(a, b), a);
    }
  }
}

/** The arithmetic layer every scheme of the toolkit is built on: modular
    exponentiation with C++'s truncating remainder, the extended Euclidean
    algorithm, the primality predicate and the canonical remainder. */
module NumberTheory {
  import opened ModArith

  const INT16_MAX: int := 0x7FFF
  const INT32_MAX: int := 0x7FFF_FFFF
  const INT64_MAX: int := 0x7FFF_FFFF_FFFF_FFFF
  const UINT8_MAX: int := 0xFF
  const UINT16_MAX: int := 0xFFFF
  const UINT32_MAX: int := 0xFFFF_FFFF
  const UINT64_MAX: int := 0xFFFF_FFFF_FFFF_FFFF

  predicate IsInt64(x: int) {
    -INT64_MAX - 1 <= x <= INT64_MAX
  }

  function Abs(x: int): nat {
    if x < 0 then -x else x
  }

  /** C++'s `a % m` for a positive m: the remainder takes the sign of the
      dividend and its magnitude is `|a| % m`. */
  function TruncRem(a: int, m: int): (r: int)
    requires m > 0
    ensures -m < r < m
    ensures a >= 0 ==> 0 <= r
    ensures a <= 0 ==> r <= 0
  {
    if a >= 0 then a % m else -((-a) % m)
  }

  /** Mathematical power. */
  function Pow(b: int, e: nat): int {
    if e == 0 then 1 else b * Pow(b, e - 1)
  }

  /** What pow_mod returns: 1 for a zero exponent (unreduced, whatever the
      base and modulus), otherwise the truncating remainder of b^e. */
  function PowMod(b: int, e: nat, m: int): int
    requires m > 0
  {
    if e == 0 then 1 else TruncRem(Pow(b, e), m)
  }

  /** libcrypt::mod: the canonical remainder in [0, m). */
  function Mod(a: int, m: int): (r: int)
    requires m > 0
    ensures 0 <= r < m
    ensures (a - r) % m == 0
  {
    CongruentIffDiff(a, a % m, m);
    a % m
  }

  /** Trial-division primality: false for n <= 1. */
  predicate IsPrime(n: int) {
    n >= 2 && forall d :: 2 <= d < n ==> n % d != 0
  }

  // ---------------------------------------------------------------------
  // Truncating remainder

  lemma TruncRemNeg(a: int, m: int)
    requires m > 0
    ensures TruncRem(-a, m) == -TruncRem(a, m)
  {
  }

  lemma TruncRemIdempotent(a: int, m: int)
    requires m > 0
    ensures TruncRem(TruncRem(a, m), m) == TruncRem(a, m)
  {
    var r := TruncRem(a, m);
    if r >= 0 {
      DivModUnique(r, m, 0, r);
    } else {
      DivModUnique(-r, m, 0, -r);
    }
  }

  /** The truncating remainder is congruent to its argument modulo m. */
  lemma TruncRemCongruent(a: int, m: int)
    requires m > 0
    ensures (a - TruncRem(a, m)) % m == 0
  {
    if a >= 0 {
      var q := a / m;
      assert a - TruncRem(a, m) == q * m;
      MultipleMod(q, m);
    } else {
      var q := (-a) / m;
      assert a - TruncRem(a, m) == (-q) * m by {
        assert -a == q * m + (-a) % m;
      }
      MultipleMod(-q, m);
    }
  }

  lemma TruncRemMulNonNeg(x: int, y: int, m: int)
    requires m > 0 && x >= 0 && y >= 0
    ensures TruncRem(x * y, m) == TruncRem(TruncRem(x, m) * y, m)
  {
    MulModLeft(x, y, m);
  }

  lemma TruncRemMulNonNegLeft(x: int, y: int, m: int)
    requires m > 0 && x >= 0
    ensures TruncRem(x * y, m) == TruncRem(TruncRem(x, m) * y, m)
  {
    if y >= 0 {
      TruncRemMulNonNeg(x, y, m);
    } else {
      var t := TruncRem(x, m);
      TruncRemMulNonNeg(x, -y, m);
      NegateRight(x, y);
      NegateRight(t, y);
      TruncRemNeg(x * -y, m);
      TruncRemNeg(t * -y, m);
    }
  }

  lemma NegateRight(x: int, y: int)
    ensures x * y == -(x * -y)
  {
  }

  lemma NegateLeft(x: int, y: int)
    ensures x * y == -(-x * y)
  {
  }

  /** Reducing a factor first does not change the truncating remainder of a product. */
  lemma TruncRemMulLeft(x: int, y: int, m: int)
    requires m > 0
    ensures TruncRem(x * y, m) == TruncRem(TruncRem(x, m) * y, m)
  {
    if x >= 0 {
      TruncRemMulNonNegLeft(x, y, m);
    } else {
      TruncRemMulNonNegLeft(-x, y, m);
      NegateLeft(x, y);
      TruncRemNeg(-x * y, m);
      TruncRemNeg(x, m);
      var t := TruncRem(x, m);
      assert TruncRem(-x, m) == -t;
      NegateLeft(t, y);
      TruncRemNeg(t * y, m);
    }
  }

  lemma TruncRemMulRight(x: int, y: int, m: int)
    requires m > 0
    ensures TruncRem(x * y, m) == TruncRem(x * TruncRem(y, m), m)
  {
    TruncRemMulLeft(y, x, m);
    assert y * x == x * y;
    assert TruncRem(y, m) * x == x * TruncRem(y, m);
  }

  // ---------------------------------------------------------------------
  // Powers

  lemma {:induction false} PowAdd(b: int, i: nat, j: nat)
    ensures Pow(b, i + j) == Pow(b, i) * Pow(b, j)
    decreases i
  {
    if i > 0 {
      PowAdd(b, i - 1, j);
      assert Pow(b, i + j) == b * Pow(b, i - 1 + j);
    }
  }

  lemma {:induction false} PowMul(b: int, i: nat, j: nat)
    ensures Pow(b, i * j) == Pow(Pow(b, i), j)
    decreases j
  {
    if j > 0 {
      PowMul(b, i, j - 1);
      assert i * j == i + i * (j - 1);
      PowAdd(b, i, i * (j - 1));
    }
  }

  lemma {:induction false} PowOfProduct(a: int, b: int, e: nat)
    ensures Pow(a * b, e) == Pow(a, e) * Pow(b, e)
    decreases e
  {
    if e > 0 {
      PowOfProduct(a, b, e - 1);
      Rearrange(a, b, Pow(a, e - 1), Pow(b, e - 1));
    }
  }

  lemma Rearrange(a: int, b: int, c: int, d: int)
    ensures (a * b) * (c * d) == (a * c) * (b * d)
  {
  }

  lemma {:induction false} PowNonNeg(b: int, e: nat)
    requires b >= 0
    ensures Pow(b, e) >= 0
    decreases e
  {
    if e > 0 {
      PowNonNeg(b, e - 1);
    }
  }

  /** (-b)^e is b^e for an even e and -(b^e) for an odd e. */
  lemma {:induction false} PowNegBase(b: int, e: nat)
    ensures Pow(-b, e) == if e % 2 == 0 then Pow(b, e) else -Pow(b, e)
    decreases e
  {
    if e > 0 {
      PowNegBase(b, e - 1);
    }
  }

  /** Reducing the base first does not change the truncating remainder of a power. */
  lemma {:induction false} TruncRemPow(x: int, e: nat, m: int)
    requires m > 0
    ensures TruncRem(Pow(TruncRem(x, m), e), m) == TruncRem(Pow(x, e), m)
    decreases e
  {
    if e > 0 {
      var t := TruncRem(x, m);
      calc {
        TruncRem(Pow(t, e), m);
        TruncRem(t * Pow(t, e - 1), m);
        { TruncRemMulRight(t, Pow(t, e - 1), m); }
        TruncRem(t * TruncRem(Pow(t, e - 1), m), m);
        { TruncRemPow(x, e - 1, m); }
        TruncRem(t * TruncRem(Pow(x, e - 1), m), m);
        { TruncRemMulLeft(x, TruncRem(Pow(x, e - 1), m), m); }
        TruncRem(x * TruncRem(Pow(x, e - 1), m), m);
        { TruncRemMulRight(x, Pow(x, e - 1), m); }
        TruncRem(x * Pow(x, e - 1), m);
      }
    }
  }

  // ---------------------------------------------------------------------
  // pow_mod

  /** pow_mod's square-and-multiply loop. `exp & 1` and `exp >>= 1` are
      `exp % 2 == 1` and `exp / 2` on the non-negative exponents it is given.
      Both factors of every product it forms lie strictly between -mod and
      mod (or the first is the initial 1), so StepProductBound bounds them. */
  method ComputePowMod(base: int, exp: int, mod: int) returns (result: int)
    requires mod > 0 && exp >= 0
    ensures result == PowMod(base, exp, mod)
  {
    ghost var touched := false;
    result := 1;
    var b := TruncRem(base, mod);
    var e := exp;
    TruncRemPow(base, exp, mod);
    while e != 0
      invariant e >= 0
      invariant -mod < b < mod
      invariant touched ==> TruncRem(result, mod) == result
      invariant !touched ==> result == 1
      invariant exp > 0 ==> touched || e > 0
      invariant exp == 0 ==> e == 0 && !touched
      invariant TruncRem(result * Pow(b, e), mod) == TruncRem(Pow(base, exp), mod)
      decreases e
    {
      StepProductBound(result, b, mod);
      StepProductBound(b, b, mod);
      LoopStep(result, b, e, mod);
      ghost var target := TruncRem(result * Pow(b, e), mod);
      if e % 2 == 1 {
        TruncRemIdempotent(result * b, mod);
        result := TruncRem(result * b, mod);
        touched := true;
      }
      b := TruncRem(b * b, mod);
      e := e / 2;
      assert TruncRem(result * Pow(b, e), mod) == target;
    }
    assert result * Pow(b, e) == result;
    if exp > 0 {
      assert TruncRem(result, mod) == result;
    }
  }

  /** The invariant `result * b^e` (truncated) is kept by one iteration. */
  lemma LoopStep(result: int, b: int, e: nat, m: int)
    requires m > 0 && e > 0
    ensures e % 2 == 1 ==>
      TruncRem(TruncRem(result * b, m) * Pow(TruncRem(b * b, m), e / 2), m) == TruncRem(result * Pow(b, e), m)
    ensures e % 2 == 0 ==>
      TruncRem(result * Pow(TruncRem(b * b, m), e / 2), m) == TruncRem(result * Pow(b, e), m)
  {
    var half := e / 2;
    PowSplit(b, e);
    if e % 2 == 1 {
      SquareStep(result * b, b * b, half, m);
      TruncRemMulLeft(result * b, Pow(TruncRem(b * b, m), half), m);
      assert result * Pow(b, e) == (result * b) * Pow(b * b, half);
    } else {
      SquareStep(result, b * b, half, m);
    }
  }

  /** b^e == b^(e%2) * (b*b)^(e/2). */
  lemma PowSplit(b: int, e: nat)
    ensures e % 2 == 1 ==> Pow(b, e) == b * Pow(b * b, e / 2)
    ensures e % 2 == 0 ==> Pow(b, e) == Pow(b * b, e / 2)
  {
    var half := e / 2;
    var even := e - e % 2;
    assert even == 2 * half;
    PowMul(b, 2, half);
    PowSquare(b);
    assert Pow(b, even) == Pow(b * b, half);
    if e % 2 == 1 {
      assert Pow(b, e) == b * Pow(b, e - 1);
    }
  }

  lemma PowSquare(b: int)
    ensures Pow(b, 2) == b * b
  {
    assert Pow(b, 1) == b;
  }

  /** Replacing the squared base by its truncating remainder keeps the
      remainder of the whole product. */
  lemma SquareStep(r: int, sq: int, k: nat, m: int)
    requires m > 0
    ensures TruncRem(r * Pow(TruncRem(sq, m), k), m) == TruncRem(r * Pow(sq, k), m)
  {
    calc {
      TruncRem(r * Pow(TruncRem(sq, m), k), m);
      { TruncRemMulRight(r, Pow(TruncRem(sq, m), k), m); }
      TruncRem(r * TruncRem(Pow(TruncRem(sq, m), k), m), m);
      { TruncRemPow(sq, k, m); }
      TruncRem(r * TruncRem(Pow(sq, k), m), m);
      { TruncRemMulRight(r, Pow(sq, k), m); }
      TruncRem(r * Pow(sq, k), m);
    }
  }

  /** Every product the loop forms is bounded by (mod-1)^2, so the int64
      arithmetic of the source cannot overflow once (mod-1)^2 <= INT64_MAX. */
  lemma StepProductBound(x: int, y: int, m: int)
    requires m > 0
    requires -m < x < m || x == 1
    requires -m < y < m
    ensures Abs(x * y) <= (m - 1) * (m - 1)
    ensures (m - 1) * (m - 1) <= INT64_MAX ==> IsInt64(x * y)
  {
    if m == 1 {
      assert y == 0;
    } else {
      AbsMul(x, y);
      MulLe(Abs(x), m - 1, Abs(y));
      MulLe(Abs(y), m - 1, m - 1);
    }
  }

  lemma AbsMul(x: int, y: int)
    ensures Abs(x * y) == Abs(x) * Abs(y)
  {
  }

  lemma MulLe(a: int, b: int, c: int)
    requires 0 <= a <= b && c >= 0
    ensures a * c <= b * c && c * a <= c * b
  {
  }

  /** Applying `exp >>= 1` any number of times to a negative exponent keeps it
      negative: the loop `while (exp)` never ends for exp < 0, which is why
      every caller passes a non-negative exponent. */
  function ShiftRight(e: int, k: nat): int
    decreases k
  {
    if k == 0 then e else ShiftRight(e / 2, k - 1)
  }

  lemma {:induction false} NegativeExpNeverReachesZero(e: int, k: nat)
    requires e < 0
    ensures ShiftRight(e, k) < 0
    decreases k
  {
    if k > 0 {
      NegativeExpNeverReachesZero(e / 2, k - 1);
    }
  }

  // ---------------------------------------------------------------------
  // Properties of pow_mod

  /** For exp >= 1 the result is congruent to base^exp, lies strictly between
      -mod and mod, and is non-negative for a non-negative base. */
  lemma PowModCongruent(b: int, e: nat, m: int)
    requires m > 0 && e >= 1
    ensures (PowMod(b, e, m) - Pow(b, e)) % m == 0
    ensures -m < PowMod(b, e, m) < m
    ensures b >= 0 ==> 0 <= PowMod(b, e, m)
  {
    TruncRemCongruent(Pow(b, e), m);
    CongruentIffDiff(Pow(b, e), TruncRem(Pow(b, e), m), m);
    CongruentIffDiff(TruncRem(Pow(b, e), m), Pow(b, e), m);
    if b >= 0 {
      PowNonNeg(b, e);
    }
  }

  /** The truncating sign rule: negating the base negates the result for an
      odd exponent and leaves it unchanged for an even one. */
  lemma PowModNegBase(b: int, e: nat, m: int)
    requires m > 0
    ensures e % 2 == 1 ==> PowMod(-b, e, m) == -PowMod(b, e, m)
    ensures e % 2 == 0 ==> PowMod(-b, e, m) == PowMod(b, e, m)
  {
    PowNegBase(b, e);
    TruncRemNeg(Pow(b, e), m);
  }

  /** Exponentiating twice is exponentiating by the product of the exponents,
      for any base, once m >= 2 (with m == 1, 1 is not reduced but 1^e is). */
  lemma PowModCompose(c: int, a: nat, b: nat, m: int)
    requires m >= 2
    ensures PowMod(PowMod(c, a, m), b, m) == PowMod(c, a * b, m)
  {
    if a == 0 {
      if b > 0 {
        PowOne(b);
        DivModUnique(1, m, 0, 1);
      }
    } else if b > 0 {
      TruncRemPow(Pow(c, a), b, m);
      PowMul(c, a, b);
      assert a * b >= 1 by {
        assert a * b == a + a * (b - 1);
      }
    }
  }

  lemma {:induction false} PowOne(e: nat)
    ensures Pow(1, e) == 1
    decreases e
  {
    if e > 0 {
      PowOne(e - 1);
    }
  }

  /** The commutative-cipher law: two exponentiation layers under the same
      modulus can be applied in either order. */
  lemma PowModCommute(c: int, a: nat, b: nat, m: int)
    requires m >= 2
    ensures PowMod(PowMod(c, a, m), b, m) == PowMod(PowMod(c, b, m), a, m)
  {
    PowModCompose(c, a, b, m);
    PowModCompose(c, b, a, m);
    assert a * b == b * a;
  }

  /** The commutativity law fails for m == 1: a zero exponent leaves 1 unreduced. */
  lemma PowModCommuteNeedsModulusTwo()
    ensures PowMod(PowMod(5, 0, 1), 1, 1) != PowMod(PowMod(5, 1, 1), 0, 1)
  {
    assert Pow(1, 1) == 1;
  }

  // ---------------------------------------------------------------------
  // extended_gcd

  /** Extended Euclid on a >= b: (g, x, y) with a*x + b*y == g, g dividing both. */
  function Euclid(a: int, b: int): (r: (int, int, int))
    requires 0 <= b <= a && 0 < a
    ensures r.0 > 0 && a % r.0 == 0 && b % r.0 == 0
    ensures a * r.1 + b * r.2 == r.0
    ensures b > 0 ==> Abs(r.1) * r.0 <= b && Abs(r.2) * r.0 <= a
    ensures b == 0 ==> r == (a, 1, 0)
    decreases b
  {
    if b == 0 then
      MultipleMod(0, a);
      (a, 1, 0)
    else
      var q, rem := a / b, a % b;
      DivRem(a, b);
      var t := Euclid(b, rem);
      EuclidStep(a, b, q, rem, t.0, t.1, t.2);
      (t.0, t.2, t.1 - q * t.2)
  }

  lemma DivRem(a: int, b: int)
    requires b > 0
    ensures a == (a / b) * b + a % b && 0 <= a % b < b
  {
  }

  /** One step of extended Euclid: coefficients for (b, a % b) give
      coefficients for (a, b). */
  lemma EuclidStep(a: int, b: int, q: int, rem: int, g: int, x: int, y: int)
    requires 0 < b <= a && a == q * b + rem && 0 <= rem < b
    requires g > 0 && b % g == 0 && rem % g == 0
    requires b * x + rem * y == g
    requires rem > 0 ==> Abs(x) * g <= rem && Abs(y) * g <= b
    requires rem == 0 ==> g == b && x == 1 && y == 0
    ensures a % g == 0
    ensures a * y + b * (x - q * y) == g
    ensures Abs(y) * g <= b && Abs(x - q * y) * g <= a
  {
    if q <= 0 {
      MulLe(q, 0, b);
    }
    DivisibleCombination(q, b, rem, g);
    BezoutStep(a, b, q, rem, x, y);
    if rem == 0 {
      assert x - q * y == 1;
    } else {
      CoefficientBound(q, b, rem, g, x, y);
    }
  }

  /** A multiple of b plus rem is divisible by every common divisor of b and rem. */
  lemma DivisibleCombination(q: int, b: int, rem: int, g: int)
    requires g > 0 && b % g == 0 && rem % g == 0
    ensures (q * b + rem) % g == 0
  {
    var k := q * (b / g) + rem / g;
    assert b == (b / g) * g;
    assert rem == (rem / g) * g;
    assert q * b == (q * (b / g)) * g;
    assert q * b + rem == k * g;
    MultipleMod(k, g);
  }

  lemma BezoutStep(a: int, b: int, q: int, rem: int, x: int, y: int)
    requires a == q * b + rem
    ensures a * y + b * (x - q * y) == b * x + rem * y
  {
    assert a * y == q * b * y + rem * y;
    assert b * (x - q * y) == b * x - q * b * y;
  }

  lemma CoefficientBound(q: int, b: int, rem: int, g: int, x: int, y: int)
    requires q >= 1 && g > 0
    requires Abs(x) * g <= rem && Abs(y) * g <= b
    ensures Abs(x - q * y) * g <= q * b + rem
  {
    var ax, ay := Abs(x), Abs(y);
    assert Abs(q * y) == q * ay by {
      AbsMul(q, y);
    }
    assert Abs(x - q * y) <= ax + q * ay;
    MulLe(Abs(x - q * y), ax + q * ay, g);
    assert (ax + q * ay) * g == ax * g + q * (ay * g);
    MulLe(ay * g, b, q);
  }

  /** extended_gcd(first, second): the operands are ordered so the larger comes
      first; (g, x, y) satisfies larger*x + smaller*y == g, g divides both
      operands (so it is their greatest common divisor), and y, the last
      element, is the coefficient of the smaller operand, bounded by the
      larger one. */
  function ExtendedGcd(first: int, second: int): (r: (int, int, int))
    requires first > 0 && second > 0
    ensures r.0 > 0 && first % r.0 == 0 && second % r.0 == 0
    ensures first >= second ==> first * r.1 + second * r.2 == r.0
    ensures first < second ==> second * r.1 + first * r.2 == r.0
    ensures Abs(r.2) * r.0 <= if first < second then second else first
  {
    if first < second then Euclid(second, first) else Euclid(first, second)
  }

  /** The result is a function of the unordered pair. */
  lemma ExtendedGcdSymmetric(a: int, b: int)
    requires a > 0 && b > 0
    ensures ExtendedGcd(a, b) == ExtendedGcd(b, a)
  {
  }

  /** Every common divisor divides g, so g is the greatest one. */
  lemma ExtendedGcdIsGreatest(a: int, b: int, d: int)
    requires a > 0 && b > 0 && d > 0 && a % d == 0 && b % d == 0
    ensures ExtendedGcd(a, b).0 % d == 0
  {
    var r := ExtendedGcd(a, b);
    var lo, hi := if a < b then a else b, if a < b then b else a;
    assert hi * r.1 + lo * r.2 == r.0;
    DivisibleLinear(hi, lo, r.1, r.2, d);
  }

  lemma DivisibleLinear(u: int, v: int, x: int, y: int, d: int)
    requires d > 0 && u % d == 0 && v % d == 0
    ensures (u * x + v * y) % d == 0
  {
    var ku, kv := u / d, v / d;
    assert u == ku * d && v == kv * d;
    assert u * x == (ku * x) * d;
    assert v * y == (kv * y) * d;
    assert u * x + v * y == (ku * x + kv * y) * d;
    MultipleMod(ku * x + kv * y, d);
  }

  /** When k < n and gcd(k, n) == 1, the last coefficient is an inverse of k
      modulo n, and adding n once when it is negative makes it non-negative
      without changing that. */
  lemma BackCoefficientIsInverse(k: int, n: int)
    requires 0 < k < n
    requires ExtendedGcd(k, n).0 == 1
    ensures var y := ExtendedGcd(k, n).2;
      -n <= y <= n && (k * y) % n == 1
      && var d := if y < 0 then y + n else y;
         0 < d < n && (k * d) % n == 1
  {
    var r := ExtendedGcd(k, n);
    assert n * r.1 + k * r.2 == 1 && Abs(r.2) <= n;
    InverseNormalised(k, n, r.1, r.2);
  }

  /** A Bezout coefficient y of k modulo n, with |y| <= n, is an inverse of k,
      and so is y + n when y is negative; the result lies in (0, n). */
  lemma InverseNormalised(k: int, n: int, x: int, y: int)
    requires 0 < k < n && n * x + k * y == 1 && -n <= y <= n
    ensures (k * y) % n == 1
    ensures var d := if y < 0 then y + n else y;
      0 < d < n && (k * d) % n == 1
  {
    assert (k * y) % n == 1 by {
      assert k * y == 1 + (-x) * n;
      AddMultipleMod(1, -x, n);
      DivModUnique(1, n, 0, 1);
    }
    var d := if y < 0 then y + n else y;
    assert (k * d) % n == 1 by {
      if y < 0 {
        assert k * d == k * y + k * n;
        AddMultipleMod(k * y, k, n);
      }
    }
    assert d != 0 && d != n by {
      MultipleMod(k, n);
      MultipleMod(0, n);
      assert k * n % n == 0 && k * 0 == 0;
    }
  }

  // ---------------------------------------------------------------------
  // Products of exponents

  function Product(keys: seq<nat>): nat
    decreases |keys|
  {
    if |keys| == 0 then 1 else keys[0] * Product(keys[1..])
  }

  /** An encryption exponent e and a decryption exponent d undo each other on
      every residue. */
  ghost predicate ExponentsInvert(e: nat, d: nat, m: int) {
    m > 0 && forall x :: 0 <= x < m ==> PowMod(PowMod(x, e, m), d, m) == x
  }

  /** Inverse exponents modulo at least 2 are both positive: a zero exponent
      sends 0 to 1. */
  lemma ExponentsPositive(e: nat, d: nat, m: int)
    requires m >= 2 && ExponentsInvert(e, d, m)
    ensures e >= 1 && d >= 1
  {
    assert PowMod(PowMod(0, e, m), d, m) == 0;
    if e == 0 {
      PowOne(d);
      DivModUnique(1, m, 0, 1);
    }
  }

  /** pow_mod of a non-negative base with a positive exponent is the
      remainder of the power. */
  lemma PowModNonNeg(x: int, k: nat, m: int)
    requires m > 0 && x >= 0 && k >= 1
    ensures PowMod(x, k, m) == Pow(x, k) % m
  {
    PowNonNeg(x, k);
  }

  lemma {:induction false} ProductRemove(ks: seq<nat>, j: nat)
    requires j < |ks|
    ensures Product(ks) == ks[j] * Product(ks[..j] + ks[j + 1..])
    decreases j
  {
    if j > 0 {
      ProductRemove(ks[1..], j - 1);
      assert ks[1..][..j - 1] + ks[1..][j..] == (ks[..j] + ks[j + 1..])[1..];
      assert (ks[..j] + ks[j + 1..])[0] == ks[0];
      assert ks[0] * (ks[j] * Product(ks[1..][..j - 1] + ks[1..][j..]))
          == ks[j] * (ks[0] * Product(ks[1..][..j - 1] + ks[1..][j..]));
    } else {
      assert ks[..0] + ks[1..] == ks[1..];
    }
  }

  /** The product of the keys does not depend on their order. */
  lemma {:induction false} ProductPermutation(ks1: seq<nat>, ks2: seq<nat>)
    requires multiset(ks1) == multiset(ks2)
    ensures Product(ks1) == Product(ks2)
    decreases |ks1|
  {
    if |ks1| == 0 {
      assert |ks2| == |multiset(ks2)| == 0;
    } else {
      var k := ks1[0];
      assert k in multiset(ks2);
      var j :| 0 <= j < |ks2| && ks2[j] == k;
      var rest2 := ks2[..j] + ks2[j + 1..];
      assert ks2 == ks2[..j] + [k] + ks2[j + 1..];
      assert ks1 == [k] + ks1[1..];
      assert multiset(ks2) == multiset(ks2[..j]) + multiset{k} + multiset(ks2[j + 1..]);
      assert multiset(rest2) == multiset(ks2[..j]) + multiset(ks2[j + 1..]);
      assert multiset(ks1) == multiset{k} + multiset(ks1[1..]);
      assert multiset(ks1[1..]) == multiset(ks1) - multiset{k};
      assert multiset(rest2) == multiset(ks2) - multiset{k};
      ProductPermutation(ks1[1..], rest2);
      ProductRemove(ks2, j);
    }
  }

  /** The first vector pinned by the project's tests, in both argument orders. */
  lemma ExtendedGcdSmallExample()
    ensures ExtendedGcd(240, 46) == (2, -9, 47)
    ensures ExtendedGcd(46, 240) == (2, -9, 47)
  {
  }

  /** The last remainder steps of the second vector pinned by the tests. */
  lemma EuclidLargeExampleTail()
    ensures Euclid(2304367, 285324) == (13, 2791, -22541)
  {
    assert Euclid(13, 0) == (13, 1, 0);
    assert Euclid(91, 13) == (13, 0, 1);
    assert Euclid(104, 91) == (13, 1, -1);
    assert Euclid(715, 104) == (13, -1, 7);
    assert Euclid(1534, 715) == (13, 7, -15);
    assert Euclid(2249, 1534) == (13, -15, 22);
    assert Euclid(21775, 2249) == (13, 22, -213);
    assert Euclid(285324, 21775) == (13, -213, 2791);
  }

  /** The second vector pinned by the project's tests, in both argument orders. */
  lemma ExtendedGcdLargeExample()
    ensures ExtendedGcd(1524345121234, 3124312425) == (13, -30561593, 14910933623)
    ensures ExtendedGcd(3124312425, 1524345121234) == (13, -30561593, 14910933623)
  {
    EuclidLargeExampleTail();
    assert Euclid(7198425, 2304367) == (13, -22541, 70414);
    assert Euclid(9502792, 7198425) == (13, 70414, -92955);
    assert Euclid(16701217, 9502792) == (13, -92955, 163369);
    assert Euclid(26204009, 16701217) == (13, 163369, -256324);
    assert Euclid(42905226, 26204009) == (13, -256324, 419693);
    assert Euclid(69109235, 42905226) == (13, 419693, -676017);
    assert Euclid(250232931, 69109235) == (13, -676017, 2447744);
    assert Euclid(319342166, 250232931) == (13, 2447744, -3123761);
    assert Euclid(2804970259, 319342166) == (13, -3123761, 27437832);
    assert Euclid(3124312425, 2804970259) == (13, 27437832, -30561593);
    assert Euclid(1524345121234, 3124312425) == (13, -30561593, 14910933623);
  }
}

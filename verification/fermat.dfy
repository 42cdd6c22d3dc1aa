/** Fermat's little theorem and its two consequences the ciphers rely on:
    exponents that are inverse modulo p-1 undo each other modulo a prime p
    (SRA poker, the Shamir three-pass cipher), and exponents inverse modulo
    (P-1)(Q-1) undo each other modulo P*Q for distinct primes P, Q (RSA). */
module Fermat {
  import opened ModArith
  import opened NumberTheory

  // ---------------------------------------------------------------------
  // Divisibility by a prime

  lemma DivisorLe(d: int, n: int)
    requires d > 0 && n > 0 && n % d == 0
    ensures d <= n
  {
    var k := n / d;
    assert n == k * d;
    assert k >= 1;
    MulLe(1, k, d);
  }

  /** A prime is coprime to every number strictly between 0 and itself. */
  lemma PrimeCoprime(p: int, a: int)
    requires IsPrime(p) && 0 < a < p
    ensures ExtendedGcd(a, p).0 == 1
  {
    var g := ExtendedGcd(a, p).0;
    DivisorLe(g, a);
    if g != 1 {
      assert false;
    }
  }

  /** Euclid's lemma: a prime dividing a product divides one of the factors. */
  lemma EuclidLemma(p: int, a: int, b: int)
    requires IsPrime(p) && (a * b) % p == 0 && a % p != 0
    ensures b % p == 0
  {
    var a' := a % p;
    MulModLeft(a, b, p);
    assert (a' * b) % p == 0;
    PrimeCoprime(p, a');
    var r := ExtendedGcd(a', p);
    assert p * r.1 + a' * r.2 == 1;
    BezoutScale(p, a', b, r.1, r.2);
    MultipleMod(1, p);
    DivisibleLinear(p, a' * b, r.1 * b, r.2, p);
  }

  lemma BezoutScale(p: int, c: int, b: int, x: int, y: int)
    requires p * x + c * y == 1
    ensures b == p * (x * b) + (c * b) * y
  {
    calc {
      b;
      b * (p * x + c * y);
      p * (x * b) + (c * b) * y;
    }
  }

  /** Two distinct primes do not divide each other. */
  lemma DistinctPrimes(p: int, q: int)
    requires IsPrime(p) && IsPrime(q) && p != q
    ensures p % q != 0
  {
    if p % q == 0 {
      DivisorLe(q, p);
      assert false;
    }
  }

  /** Two distinct primes dividing z means their product divides z. */
  lemma ProductOfPrimesDivides(p: int, q: int, z: int)
    requires IsPrime(p) && IsPrime(q) && p != q
    requires z % p == 0 && z % q == 0
    ensures z % (p * q) == 0
  {
    var k := z / p;
    assert z == p * k;
    DistinctPrimes(p, q);
    EuclidLemma(q, p, k);
    var j := k / q;
    assert k == j * q;
    assert z == j * (p * q);
    MultipleMod(j, p * q);
  }

  /** A product of factors none of which a prime divides is not divisible by it. */
  lemma {:induction false} ProductNotDivisible(p: int, xs: seq<nat>)
    requires IsPrime(p)
    requires forall i :: 0 <= i < |xs| ==> xs[i] % p != 0
    ensures Product(xs) % p != 0
    decreases |xs|
  {
    if |xs| == 0 {
      DivModUnique(1, p, 0, 1);
    } else {
      ProductNotDivisible(p, xs[1..]);
      if Product(xs) % p == 0 {
        assert (xs[0] * Product(xs[1..])) % p == 0;
        EuclidLemma(p, xs[0], Product(xs[1..]));
        assert false;
      }
    }
  }

  // ---------------------------------------------------------------------
  // Multiplying 1..p-1 by a unit permutes them

  /** [1, 2, ..., n]. */
  function Range(n: nat): (r: seq<nat>)
    ensures |r| == n
    ensures forall i :: 0 <= i < n ==> r[i] == i + 1
  {
    seq(n, i requires 0 <= i < n => i + 1)
  }

  /** Every element multiplied by a, reduced modulo p. */
  function ScaleMod(a: int, xs: seq<nat>, p: int): (r: seq<nat>)
    requires p > 0
    ensures |r| == |xs|
    ensures forall i :: 0 <= i < |xs| ==> r[i] == (a * xs[i]) % p
    decreases |xs|
  {
    if |xs| == 0 then [] else [(a * xs[0]) % p] + ScaleMod(a, xs[1..], p)
  }

  predicate Distinct(xs: seq<nat>) {
    forall i, j :: 0 <= i < j < |xs| ==> xs[i] != xs[j]
  }

  predicate Within(xs: seq<nat>, lo: int, hi: int) {
    forall i :: 0 <= i < |xs| ==> lo <= xs[i] <= hi
  }

  /** Scaling by a unit keeps 1..p-1 distinct and inside 1..p-1. */
  lemma ScaledRangeDistinct(p: int, a: int)
    requires IsPrime(p) && 0 < a < p
    ensures Distinct(ScaleMod(a, Range(p - 1), p))
    ensures Within(ScaleMod(a, Range(p - 1), p), 1, p - 1)
  {
    var t := ScaleMod(a, Range(p - 1), p);
    forall i | 0 <= i < p - 1
      ensures 1 <= t[i] <= p - 1
    {
      ScaledInRange(p, a, i + 1);
    }
    forall i, j | 0 <= i < j < p - 1
      ensures t[i] != t[j]
    {
      ScaledDistinct(p, a, i + 1, j + 1);
    }
  }

  /** a * x mod p is non-zero for a unit a and 0 < x < p. */
  lemma ScaledInRange(p: int, a: int, x: int)
    requires IsPrime(p) && 0 < a < p && 0 < x < p
    ensures 1 <= (a * x) % p <= p - 1
  {
    DivModUnique(a, p, 0, a);
    DivModUnique(x, p, 0, x);
    if (a * x) % p == 0 {
      EuclidLemma(p, a, x);
      assert false;
    }
  }

  /** Multiplying by a unit modulo p is injective on 0 < x < p. */
  lemma ScaledDistinct(p: int, a: int, x: int, y: int)
    requires IsPrime(p) && 0 < a < p && 0 < x < y < p
    ensures (a * x) % p != (a * y) % p
  {
    if (a * x) % p == (a * y) % p {
      CongruentIffDiff(a * y, a * x, p);
      assert a * y - a * x == a * (y - x);
      DivModUnique(a, p, 0, a);
      DivModUnique(y - x, p, 0, y - x);
      EuclidLemma(p, a, y - x);
      assert false;
    }
  }

  function Elements(xs: seq<nat>): set<nat> {
    set x | x in xs
  }

  lemma {:induction false} DistinctElements(xs: seq<nat>)
    requires Distinct(xs)
    ensures |Elements(xs)| == |xs|
    decreases |xs|
  {
    if |xs| > 0 {
      DistinctElements(xs[1..]);
      assert Elements(xs) == {xs[0]} + Elements(xs[1..]);
      assert xs[0] !in Elements(xs[1..]);
    } else {
      assert Elements(xs) == {};
    }
  }

  lemma {:induction false} DistinctMultiplicity(xs: seq<nat>, x: nat)
    requires Distinct(xs)
    ensures multiset(xs)[x] == if x in xs then 1 else 0
    decreases |xs|
  {
    if |xs| > 0 {
      DistinctMultiplicity(xs[1..], x);
      assert xs == [xs[0]] + xs[1..];
      assert multiset(xs) == multiset{xs[0]} + multiset(xs[1..]);
      assert xs[0] !in xs[1..];
    }
  }

  lemma SubsetOfSameSize(a: set<nat>, b: set<nat>)
    requires a <= b && |a| == |b|
    ensures a == b
  {
    if a != b {
      var x :| x in b && x !in a;
      assert a <= b - {x};
      assert |b - {x}| == |b| - 1;
      SubsetSize(a, b - {x});
      assert false;
    }
  }

  lemma {:induction false} SubsetSize(a: set<nat>, b: set<nat>)
    requires a <= b
    ensures |a| <= |b|
    decreases |a|
  {
    if a != {} {
      var x :| x in a;
      SubsetSize(a - {x}, b - {x});
    }
  }

  /** n distinct values taken from 1..n are a rearrangement of 1..n. */
  lemma PermutationOfRange(t: seq<nat>, n: nat)
    requires |t| == n && Distinct(t)
    requires Within(t, 1, n)
    ensures multiset(t) == multiset(Range(n))
  {
    var s := Range(n);
    assert Distinct(s);
    DistinctElements(t);
    DistinctElements(s);
    assert Elements(t) <= Elements(s) by {
      forall x | x in Elements(t) ensures x in Elements(s) {
        var i :| 0 <= i < n && t[i] == x;
        assert s[x - 1] == x;
      }
    }
    SubsetOfSameSize(Elements(t), Elements(s));
    forall x: nat ensures multiset(t)[x] == multiset(s)[x] {
      DistinctMultiplicity(t, x);
      DistinctMultiplicity(s, x);
      assert (x in t) == (x in Elements(t));
      assert (x in s) == (x in Elements(s));
    }
  }

  /** Reducing each scaled factor modulo p does not change the product
      modulo p: it is a^n times the original product. */
  lemma {:induction false} ScaledProduct(a: int, xs: seq<nat>, p: int)
    requires p > 0
    ensures Product(ScaleMod(a, xs, p)) % p == (Pow(a, |xs|) * Product(xs)) % p
    decreases |xs|
  {
    if |xs| > 0 {
      var x0, rest := xs[0], xs[1..];
      var n := |xs|;
      ScaledProduct(a, rest, p);
      var r := Product(ScaleMod(a, rest, p));
      var pr := Product(rest);
      assert ScaleMod(a, xs, p)[1..] == ScaleMod(a, rest, p);
      assert Product(ScaleMod(a, xs, p)) == ((a * x0) % p) * r;
      MulCongruent(a * x0, r, Pow(a, n - 1) * pr, p);
      Rearrange(a, x0, Pow(a, n - 1), pr);
      assert Pow(a, n) == a * Pow(a, n - 1);
      assert Product(xs) == x0 * pr;
    } else {
      assert Pow(a, 0) == 1;
    }
  }

  lemma MulCongruent(u: int, r: int, v: int, p: int)
    requires p > 0 && r % p == v % p
    ensures ((u % p) * r) % p == (u * v) % p
  {
    calc {
      ((u % p) * r) % p;
      { MulModLeft(u, r, p); }
      (u * r) % p;
      { MulMod(u, r, p); }
      ((u % p) * (r % p)) % p;
      ((u % p) * (v % p)) % p;
      { MulMod(u, v, p); }
      (u * v) % p;
    }
  }

  lemma FactorOut(x: int, f: int)
    ensures x * f - f == f * (x - 1)
  {
  }

  // ---------------------------------------------------------------------
  // Fermat's little theorem

  /** a^(p-1) is 1 modulo p for every a not divisible by the prime p. */
  lemma FermatLittle(p: int, a: int)
    requires IsPrime(p) && 0 < a < p
    ensures Pow(a, p - 1) % p == 1
  {
    var s := Range(p - 1);
    var t := ScaleMod(a, s, p);
    ScaledRangeDistinct(p, a);
    PermutationOfRange(t, p - 1);
    ProductPermutation(t, s);
    ScaledProduct(a, s, p);
    var f := Product(s);
    var x := Pow(a, p - 1);
    assert (x * f) % p == f % p;
    forall i | 0 <= i < |s| ensures s[i] % p != 0 {
      DivModUnique(i + 1, p, 0, i + 1);
    }
    ProductNotDivisible(p, s);
    CongruentIffDiff(x * f, f, p);
    FactorOut(x, f);
    EuclidLemma(p, f, x - 1);
    CongruentIffDiff(x, 1, p);
    DivModUnique(1, p, 0, 1);
  }

  /** x^k == x modulo p for every k with k == 1 modulo p-1. */
  lemma PowCongruentPrime(p: int, x: int, k: nat)
    requires IsPrime(p) && x >= 0 && k >= 1 && (k - 1) % (p - 1) == 0
    ensures Pow(x, k) % p == x % p
  {
    var x' := x % p;
    PowNonNeg(x, k);
    PowNonNeg(x', k);
    TruncRemPow(x, k, p);
    assert Pow(x, k) % p == Pow(x', k) % p;
    if x' == 0 {
      PowAdd(0, 1, k - 1);
      assert Pow(0, k) == 0;
    } else {
      PowCongruentUnit(p, x', k);
    }
  }

  lemma PowCongruentUnit(p: int, x: int, k: nat)
    requires IsPrime(p) && 0 < x < p && k >= 1 && (k - 1) % (p - 1) == 0
    ensures Pow(x, k) % p == x
  {
    var t := (k - 1) / (p - 1);
    assert k == 1 + (p - 1) * t;
    PowAdd(x, 1, (p - 1) * t);
    PowMul(x, p - 1, t);
    var y := Pow(x, p - 1);
    PowNonNeg(x, p - 1);
    FermatLittle(p, x);
    PowUnitPower(y, t, p);
    assert Pow(x, k) == x * Pow(y, t);
    MulMod(x, Pow(y, t), p);
    DivModUnique(x, p, 0, x);
  }

  /** A power of something congruent to 1 is congruent to 1. */
  lemma PowUnitPower(y: int, t: nat, p: int)
    requires p >= 2 && y >= 0 && y % p == 1
    ensures Pow(y, t) % p == 1
  {
    PowNonNeg(y, t);
    TruncRemPow(y, t, p);
    PowOne(t);
    DivModUnique(1, p, 0, 1);
  }

  /** Exponents inverse modulo p-1 undo each other modulo the prime p. */
  lemma PrimeExponentsInvert(p: int, e: nat, d: nat)
    requires IsPrime(p) && (e * d) % (p - 1) == 1
    ensures ExponentsInvert(e, d, p)
  {
    assert e * d >= 1;
    MultipleMod(e * d, 1);
    assert p - 1 >= 2;
    DivModUnique(1, p - 1, 0, 1);
    CongruentIffDiff(e * d, 1, p - 1);
    forall x | 0 <= x < p
      ensures PowMod(PowMod(x, e, p), d, p) == x
    {
      PowModCompose(x, e, d, p);
      PowCongruentPrime(p, x, e * d);
      DivModUnique(x, p, 0, x);
      PowNonNeg(x, e * d);
    }
  }

  /** RSA: exponents inverse modulo (P-1)(Q-1) undo each other modulo P*Q. */
  lemma RsaExponentsInvert(p: int, q: int, e: nat, d: nat)
    requires IsPrime(p) && IsPrime(q) && p != q
    requires (e * d) % ((p - 1) * (q - 1)) == 1
    ensures ExponentsInvert(e, d, p * q)
  {
    var n := p * q;
    ExponentsModFactors(p - 1, q - 1, e * d);
    forall x | 0 <= x < n
      ensures PowMod(PowMod(x, e, n), d, n) == x
    {
      RsaPointInverts(p, q, e, d, x);
    }
  }

  /** k == 1 modulo a*b makes k - 1 a multiple of both a and b. */
  lemma ExponentsModFactors(a: int, b: int, k: nat)
    requires a >= 1 && b >= 1 && k % (a * b) == 1
    ensures k >= 1 && (k - 1) % a == 0 && (k - 1) % b == 0
  {
    var t := k / (a * b);
    assert k - 1 == (a * b) * t;
    assert (a * b) * t == (b * t) * a == (a * t) * b;
    MultipleMod(b * t, a);
    MultipleMod(a * t, b);
  }

  /** One residue of the RSA modulus: x^(e*d) is x modulo P and modulo Q,
      hence modulo P*Q. */
  lemma RsaPointInverts(p: int, q: int, e: nat, d: nat, x: int)
    requires IsPrime(p) && IsPrime(q) && p != q && 0 <= x < p * q && e * d >= 1
    requires (e * d - 1) % (p - 1) == 0 && (e * d - 1) % (q - 1) == 0
    ensures PowMod(PowMod(x, e, p * q), d, p * q) == x
  {
    var n, k := p * q, e * d;
    PowModCompose(x, e, d, n);
    PowCongruentPrime(p, x, k);
    PowCongruentPrime(q, x, k);
    CongruentIffDiff(Pow(x, k), x, p);
    CongruentIffDiff(Pow(x, k), x, q);
    ProductOfPrimesDivides(p, q, Pow(x, k) - x);
    CongruentIffDiff(Pow(x, k), x, n);
    DivModUnique(x, n, 0, x);
    PowNonNeg(x, k);
  }
}

/** Facts about Dafny's Euclidean `%` and `/` by a positive modulus. */
module ModArith {

  lemma DivModUnique(a: int, m: int, q: int, r: int)
    requires m > 0 && 0 <= r < m && a == q * m + r
    ensures a / m == q && a % m == r
  {
    var q0, r0 := a / m, a % m;
    var d := q - q0;
    assert d * m == r0 - r by {
      assert q * m - q0 * m == r0 - r;
      assert q * m - q0 * m == (q - q0) * m;
    }
  }

  lemma AddMultipleMod(x: int, k: int, m: int)
    requires m > 0
    ensures (x + k * m) % m == x % m
  {
    DivModUnique(x + k * m, m, x / m + k, x % m);
  }

  lemma MultipleMod(k: int, m: int)
    requires m > 0
    ensures (k * m) % m == 0
  {
    DivModUnique(k * m, m, k, 0);
  }

  lemma MulModLeft(a: int, b: int, m: int)
    requires m > 0
    ensures (a * b) % m == ((a % m) * b) % m
  {
    var q := a / m;
    assert a * b == (a % m) * b + (q * b) * m;
    AddMultipleMod((a % m) * b, q * b, m);
  }

  lemma MulMod(a: int, b: int, m: int)
    requires m > 0
    ensures (a * b) % m == ((a % m) * (b % m)) % m
  {
    MulModLeft(a, b, m);
    MulModLeft(b, a % m, m);
  }

  /** Two numbers are congruent exactly when their difference is a multiple of m. */
  lemma CongruentIffDiff(a: int, b: int, m: int)
    requires m > 0
    ensures a % m == b % m <==> (a - b) % m == 0
  {
    var q := (a - b) / m;
    if (a - b) % m == 0 {
      assert a == b + q * m;
      AddMultipleMod(b, q, m);
    }
    if a % m == b % m {
      assert a - b == (a / m - b / m) * m;
      MultipleMod(a / m - b / m, m);
    }
  }
}

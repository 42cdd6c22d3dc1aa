/** The key-parameter generators of the example programs: rejection loops
    over random candidates whose exit conditions make the keys valid. Every
    candidate comes from a raw draw supplied by the caller; a loop whose
    draws run out fails with KeyGenerationExhausted. */
module GenParams {
  import opened Wrappers
  import opened ModArith
  import opened NumberTheory
  import opened Fermat
  import opened Random

  /** crypt_user_params. */
  datatype UserParams = UserParams(privateKey: int, sharedKey: int)

  /** shamir_sys_params. */
  datatype ShamirSysParams = ShamirSysParams(recv: UserParams, send: UserParams, mod: int)

  /** The fields of dh_system_params that elgamal_gen_sys uses. */
  datatype DhSystemParams = DhSystemParams(mod: int, base: int)

  /** elgamal_sys_params. */
  datatype ElgamalSysParams = ElgamalSysParams(dhSysParams: DhSystemParams, recv: UserParams, sessionKey: int)

  /** rsa_sys_params. */
  datatype RsaSysParams = RsaSysParams(recv: UserParams, mod: int)

  /** gost_sys_params. */
  datatype GostSysParams = GostSysParams(send: UserParams, ellipticExp: int, ellipticCoef: int, mod: int)

  /** The public exponent rsa_gen_sys fixes. */
  const RSA_SHARED_KEY: int := 3

  // ---------------------------------------------------------------------
  // Drawing primes

  /** The candidate a raw draw gives in [lo, hi] is a prime other than avoid. */
  predicate PrimeAccepted(lo: int, hi: int, avoid: int, raw: nat)
    requires lo <= hi
  {
    var p := Uniform(lo, hi, raw);
    IsPrime(p) && p != avoid
  }

  /** The index of the first draw, from start on, whose candidate is a
      prime other than avoid; |draws| when there is none. */
  function FirstPrimeIndex(lo: int, hi: int, avoid: int, draws: seq<nat>, start: nat): (k: nat)
    requires lo <= hi && start <= |draws|
    ensures start <= k <= |draws|
    decreases |draws| - start
  {
    if start == |draws| || PrimeAccepted(lo, hi, avoid, draws[start]) then start
    else FirstPrimeIndex(lo, hi, avoid, draws, start + 1)
  }

  /** FirstPrimeIndex is the first accepted draw: it is accepted when there
      is one, and every draw before it is rejected. */
  lemma {:induction false} FirstPrimeIndexIsFirst(lo: int, hi: int, avoid: int, draws: seq<nat>, start: nat)
    requires lo <= hi && start <= |draws|
    ensures var k := FirstPrimeIndex(lo, hi, avoid, draws, start);
      (k < |draws| ==> PrimeAccepted(lo, hi, avoid, draws[k]))
      && forall j :: start <= j < k ==> !PrimeAccepted(lo, hi, avoid, draws[j])
    decreases |draws| - start
  {
    if start < |draws| && !PrimeAccepted(lo, hi, avoid, draws[start]) {
      FirstPrimeIndexIsFirst(lo, hi, avoid, draws, start + 1);
    }
  }

  /** A do-while loop that draws from [lo, hi] until it finds a prime other
      than avoid, reading draws from index start on: it stops at the first
      accepted draw and reports the index after it. */
  method DrawPrime(lo: int, hi: int, avoid: int, draws: seq<nat>, start: nat) returns (found: bool, p: int, next: nat)
    requires lo <= hi && start <= |draws|
    ensures start <= next <= |draws|
    ensures found <==> FirstPrimeIndex(lo, hi, avoid, draws, start) < |draws|
    ensures found ==> next == FirstPrimeIndex(lo, hi, avoid, draws, start) + 1
    ensures found ==> start < next && p == Uniform(lo, hi, draws[next - 1])
    ensures found ==> IsPrime(p) && p != avoid && lo <= p <= hi
    ensures !found ==> next == |draws|
  {
    next := start;
    while next < |draws|
      invariant start <= next <= |draws|
      invariant FirstPrimeIndex(lo, hi, avoid, draws, next) == FirstPrimeIndex(lo, hi, avoid, draws, start)
    {
      p := Uniform(lo, hi, draws[next]);
      next := next + 1;
      if IsPrime(p) && p != avoid {
        return true, p, next;
      }
    }
    return false, 0, next;
  }

  /** 32767 = 7 * 4681 is not prime. */
  lemma Int16MaxNotPrime()
    ensures !IsPrime(INT16_MAX)
  {
    assert INT16_MAX % 7 == 0;
  }

  // ---------------------------------------------------------------------
  // shamir_gen_user_params, shamir_gen_sys

  /** The private key a raw draw gives is coprime to mod - 1. */
  predicate ShamirKeyAccepted(mod: int, raw: nat)
    requires mod - 1 >= INT16_MAX
  {
    ExtendedGcd(mod - 1, Uniform(INT16_MAX, mod - 1, raw)).0 == 1
  }

  /** privateKey is the candidate of the first accepted draw. */
  predicate FirstShamirKey(mod: int, draws: seq<nat>, privateKey: int)
    requires mod - 1 >= INT16_MAX
  {
    exists i :: 0 <= i < |draws| && ShamirKeyAccepted(mod, draws[i])
      && (forall j :: 0 <= j < i ==> !ShamirKeyAccepted(mod, draws[j]))
      && privateKey == Uniform(INT16_MAX, mod - 1, draws[i])
  }

  /** Some draw gives a private key coprime to mod - 1. */
  predicate ShamirKeyAvailable(mod: int, draws: seq<nat>) {
    mod - 1 >= INT16_MAX && exists i :: 0 <= i < |draws| && ShamirKeyAccepted(mod, draws[i])
  }

  /** Exponents for the Shamir cipher modulo mod: the private one at least
      INT16_MAX, both in (0, mod - 1) and inverse modulo mod - 1. */
  predicate ShamirKeyPair(mod: int, u: UserParams) {
    && INT16_MAX <= u.privateKey < mod - 1
    && 0 < u.sharedKey < mod - 1
    && (u.privateKey * u.sharedKey) % (mod - 1) == 1
  }

  /** shamir_gen_user_params: draws the private key from [INT16_MAX, mod - 1]
      until it is coprime to mod - 1; the shared key is its Bezout
      coefficient, moved into [0, mod - 1) when negative. */
  method ShamirGenUserParams(mod: int, draws: seq<nat>) returns (r: Result<UserParams, Error>)
    requires mod - 1 >= INT16_MAX
    ensures r.Success? <==> exists i :: 0 <= i < |draws| && ShamirKeyAccepted(mod, draws[i])
    ensures r.Failure? ==> r.error == KeyGenerationExhausted
    ensures r.Success? ==> FirstShamirKey(mod, draws, r.value.privateKey)
    ensures r.Success? ==> ShamirKeyPair(mod, r.value)
  {
    var i := 0;
    while i < |draws|
      invariant 0 <= i <= |draws|
      invariant forall j :: 0 <= j < i ==> !ShamirKeyAccepted(mod, draws[j])
    {
      var privateKey := Uniform(INT16_MAX, mod - 1, draws[i]);
      var gcdResult := ExtendedGcd(mod - 1, privateKey);
      if gcdResult.0 == 1 {
        var sharedKey := gcdResult.2;
        CoprimeBelow(mod - 1, privateKey);
        ExtendedGcdSymmetric(mod - 1, privateKey);
        BackCoefficientIsInverse(privateKey, mod - 1);
        if sharedKey < 0 {
          sharedKey := sharedKey + (mod - 1);
        }
        return Success(UserParams(privateKey, sharedKey));
      }
      i := i + 1;
    }
    return Failure(KeyGenerationExhausted);
  }

  /** A number of at least 2 is not coprime to itself, so a key coprime to
      n and at most n is below n. */
  lemma CoprimeBelow(n: int, k: int)
    requires 2 <= n && 0 < k <= n && ExtendedGcd(n, k).0 == 1
    ensures k < n
  {
    if k == n {
      var g := ExtendedGcd(n, n);
      assert n * (g.1 + g.2) == 1;
      if g.1 + g.2 <= 0 {
        MulLe(0, -(g.1 + g.2), n);
      } else {
        MulLe(1, g.1 + g.2, n);
      }
    }
  }

  /** shamir_gen_sys: draws the modulus from [INT16_MAX, INT32_MAX] until it
      is prime, then generates the two users' exponents for it. The sender's
      pair is stored in the `recv` field and the receiver's in `send`, as the
      source's initialiser does. */
  method ShamirGenSys(modDraws: seq<nat>, senderDraws: seq<nat>, receiverDraws: seq<nat>)
    returns (r: Result<ShamirSysParams, Error>)
    ensures r.Failure? ==> r.error == KeyGenerationExhausted
    ensures var k := FirstPrimeIndex(INT16_MAX, INT32_MAX, 0, modDraws, 0);
      r.Success? <==> k < |modDraws| && ShamirKeyAvailable(Uniform(INT16_MAX, INT32_MAX, modDraws[k]), senderDraws)
                      && ShamirKeyAvailable(Uniform(INT16_MAX, INT32_MAX, modDraws[k]), receiverDraws)
    ensures var k := FirstPrimeIndex(INT16_MAX, INT32_MAX, 0, modDraws, 0);
      r.Success? ==> k < |modDraws| && r.value.mod == Uniform(INT16_MAX, INT32_MAX, modDraws[k])
    ensures r.Success? ==> IsPrime(r.value.mod) && INT16_MAX < r.value.mod <= INT32_MAX
    ensures r.Success? ==> ShamirKeyPair(r.value.mod, r.value.recv) && ShamirKeyPair(r.value.mod, r.value.send)
    ensures r.Success? ==> FirstShamirKey(r.value.mod, senderDraws, r.value.recv.privateKey)
    ensures r.Success? ==> FirstShamirKey(r.value.mod, receiverDraws, r.value.send.privateKey)
  {
    var found, mod, next := DrawPrime(INT16_MAX, INT32_MAX, 0, modDraws, 0);
    if !found {
      return Failure(KeyGenerationExhausted);
    }
    Int16MaxNotPrime();
    var senderParams := ShamirGenUserParams(mod, senderDraws);
    if senderParams.Failure? {
      return Failure(KeyGenerationExhausted);
    }
    var receiverParams := ShamirGenUserParams(mod, receiverDraws);
    if receiverParams.Failure? {
      return Failure(KeyGenerationExhausted);
    }
    return Success(ShamirSysParams(senderParams.value, receiverParams.value, mod));
  }

  /** The partner of shamir_gen_sys: with the prime modulus, each user's
      exponents undo each other, in either order. */
  lemma ShamirKeysInvert(mod: int, u: UserParams)
    requires IsPrime(mod) && ShamirKeyPair(mod, u)
    ensures ExponentsInvert(u.privateKey, u.sharedKey, mod)
    ensures ExponentsInvert(u.sharedKey, u.privateKey, mod)
  {
    PrimeExponentsInvert(mod, u.privateKey, u.sharedKey);
    assert u.sharedKey * u.privateKey == u.privateKey * u.sharedKey;
    PrimeExponentsInvert(mod, u.sharedKey, u.privateKey);
  }

  // ---------------------------------------------------------------------
  // elgamal_gen_sys

  /** The session key a raw draw gives is coprime to mod - 1. */
  predicate SessionKeyAccepted(mod: int, raw: nat)
    requires mod >= 4
  {
    ExtendedGcd(Uniform(1, mod - 2, raw), mod - 1).0 == 1
  }

  /** elgamal_gen_sys over the system parameters gen_dh_system produced: the
      receiver's private key is drawn from [2, mod - 2] and its shared key is
      base^private; the session key is drawn from [1, mod - 2] until it is
      coprime to mod - 1. */
  method ElgamalGenSys(dh: DhSystemParams, privateDraw: nat, sessionDraws: seq<nat>)
    returns (r: Result<ElgamalSysParams, Error>)
    requires dh.mod >= 4
    ensures r.Success? <==> exists i :: 0 <= i < |sessionDraws| && SessionKeyAccepted(dh.mod, sessionDraws[i])
    ensures r.Failure? ==> r.error == KeyGenerationExhausted
    ensures r.Success? ==> r.value.dhSysParams == dh
    ensures r.Success? ==> r.value.recv.privateKey == Uniform(2, dh.mod - 2, privateDraw)
    ensures r.Success? ==> 2 <= r.value.recv.privateKey <= dh.mod - 2
    ensures r.Success? ==> r.value.recv.sharedKey == PowMod(dh.base, r.value.recv.privateKey, dh.mod)
    ensures r.Success? ==> 1 <= r.value.sessionKey <= dh.mod - 2
    ensures r.Success? ==> ExtendedGcd(r.value.sessionKey, dh.mod - 1).0 == 1
    ensures r.Success? ==>
      exists i :: 0 <= i < |sessionDraws| && r.value.sessionKey == Uniform(1, dh.mod - 2, sessionDraws[i])
        && forall j :: 0 <= j < i ==> !SessionKeyAccepted(dh.mod, sessionDraws[j])
  {
    var recvPrivateKey := Uniform(2, dh.mod - 2, privateDraw);
    var recvSharedKey := ComputePowMod(dh.base, recvPrivateKey, dh.mod);
    var i := 0;
    while i < |sessionDraws|
      invariant 0 <= i <= |sessionDraws|
      invariant forall j :: 0 <= j < i ==> !SessionKeyAccepted(dh.mod, sessionDraws[j])
    {
      var sessionKey := Uniform(1, dh.mod - 2, sessionDraws[i]);
      if ExtendedGcd(sessionKey, dh.mod - 1).0 == 1 {
        return Success(ElgamalSysParams(dh, UserParams(recvPrivateKey, recvSharedKey), sessionKey));
      }
      i := i + 1;
    }
    return Failure(KeyGenerationExhausted);
  }

  /** The partner of elgamal_gen_sys: the session key is invertible modulo
      mod - 1, as an ElGamal signature needs. */
  lemma SessionKeyInvertible(mod: int, k: int)
    requires mod >= 4 && 1 <= k <= mod - 2 && ExtendedGcd(k, mod - 1).0 == 1
    ensures var y := ExtendedGcd(k, mod - 1).2;
      var inverse := if y < 0 then y + (mod - 1) else y;
      0 < inverse < mod - 1 && (k * inverse) % (mod - 1) == 1
  {
    BackCoefficientIsInverse(k, mod - 1);
  }

  // ---------------------------------------------------------------------
  // rsa_gen_sys

  /** An RSA key pair over two distinct primes p and q from [UINT8_MAX,
      INT16_MAX]: the modulus is p*q, the shared key is 3 and is coprime to
      (p-1)(q-1), and the private key is its inverse modulo (p-1)(q-1). */
  predicate RsaKeyPair(params: RsaSysParams, p: int, q: int) {
    && IsPrime(p) && IsPrime(q) && p != q
    && UINT8_MAX <= p <= INT16_MAX && UINT8_MAX <= q <= INT16_MAX
    && params.mod == p * q
    && params.recv.sharedKey == RSA_SHARED_KEY
    && ExtendedGcd(RSA_SHARED_KEY, (p - 1) * (q - 1)).0 == 1
    && 0 < params.recv.privateKey < (p - 1) * (q - 1)
    && (RSA_SHARED_KEY * params.recv.privateKey) % ((p - 1) * (q - 1)) == 1
  }

  /** 3 does not divide (P-1)(Q-1); by CoprimeToThree this is the test
      rsa_gen_sys makes on the gcd of the two. */
  predicate SharedKeyFits(p: int, q: int) {
    ((p - 1) * (q - 1)) % RSA_SHARED_KEY != 0
  }

  /** The extended gcd of 3 and n is 1 exactly when 3 does not divide n. */
  lemma CoprimeToThree(n: int)
    requires n > RSA_SHARED_KEY
    ensures ExtendedGcd(RSA_SHARED_KEY, n).0 == 1 <==> n % RSA_SHARED_KEY != 0
  {
    var g := ExtendedGcd(RSA_SHARED_KEY, n);
    if n % 3 == 0 {
      var k := n / 3;
      assert n * g.1 + 3 * g.2 == 3 * (k * g.1 + g.2);
      assert g.0 == 3;
    }
  }

  /** The primes P and Q on which the outer loop of rsa_gen_sys settles when
      it reads the draws from index start on: the first prime P, then the
      first prime Q other than P after it, and the next round after Q while 3
      is not coprime to (P-1)(Q-1). None when the draws run out first. */
  function RsaPrimes(draws: seq<nat>, start: nat): Option<(int, int)>
    requires start <= |draws|
    decreases |draws| - start
  {
    var kp := FirstPrimeIndex(UINT8_MAX, INT16_MAX, 0, draws, start);
    if kp == |draws| then None
    else
      var p := Uniform(UINT8_MAX, INT16_MAX, draws[kp]);
      var kq := FirstPrimeIndex(UINT8_MAX, INT16_MAX, p, draws, kp + 1);
      if kq == |draws| then None
      else
        var q := Uniform(UINT8_MAX, INT16_MAX, draws[kq]);
        if SharedKeyFits(p, q) then Some((p, q))
        else RsaPrimes(draws, kq + 1)
  }

  /** rsa_gen_sys: draws P, then Q distinct from P, both prime, from one
      stream of draws, and starts over while 3 is not coprime to
      (P-1)(Q-1); the private key is 3's Bezout coefficient, moved into
      [0, (P-1)(Q-1)) when negative. p and q are the primes found. */
  method RsaGenSys(draws: seq<nat>) returns (r: Result<RsaSysParams, Error>, ghost p: int, ghost q: int)
    ensures r.Failure? ==> r.error == KeyGenerationExhausted
    ensures r.Success? <==> RsaPrimes(draws, 0).Some?
    ensures r.Success? ==> RsaPrimes(draws, 0).value == (p, q)
    ensures r.Success? ==> RsaKeyPair(r.value, p, q)
  {
    var i: nat := 0;
    p, q := 0, 0;
    ghost var outcome := RsaPrimes(draws, 0);
    while true
      invariant i <= |draws|
      invariant RsaPrimes(draws, i) == outcome
      decreases |draws| - i
    {
      var foundP, modPartP, afterP := DrawPrime(UINT8_MAX, INT16_MAX, 0, draws, i);
      if !foundP {
        return Failure(KeyGenerationExhausted), p, q;
      }
      var foundQ, modPartQ, afterQ := DrawPrime(UINT8_MAX, INT16_MAX, modPartP, draws, afterP);
      if !foundQ {
        RsaPrimesNoQ(draws, i, afterP);
        return Failure(KeyGenerationExhausted), p, q;
      }
      var eulerFuncRes := (modPartP - 1) * (modPartQ - 1);
      EulerBound(modPartP, modPartQ);
      var gcdResult := ExtendedGcd(RSA_SHARED_KEY, eulerFuncRes);
      CoprimeToThree(eulerFuncRes);
      if gcdResult.0 == 1 {
        RsaPrimesFound(draws, i, afterP, afterQ);
        var recvPrivateKey := gcdResult.2;
        if recvPrivateKey < 0 {
          recvPrivateKey := recvPrivateKey + eulerFuncRes;
        }
        RsaKeysFound(modPartP, modPartQ, eulerFuncRes, recvPrivateKey);
        p, q := modPartP, modPartQ;
        return Success(RsaSysParams(UserParams(recvPrivateKey, RSA_SHARED_KEY), modPartP * modPartQ)), p, q;
      }
      RsaPrimesRetry(draws, i, afterP, afterQ);
      i := afterQ;
    }
  }

  /** The private key rsa_gen_sys derives from 3's Bezout coefficient
      completes an RSA key pair over the primes found. */
  lemma RsaKeysFound(p: int, q: int, phi: int, privateKey: int)
    requires IsPrime(p) && IsPrime(q) && p != q
    requires UINT8_MAX <= p <= INT16_MAX && UINT8_MAX <= q <= INT16_MAX
    requires phi == (p - 1) * (q - 1) && phi > RSA_SHARED_KEY && ExtendedGcd(RSA_SHARED_KEY, phi).0 == 1
    requires var y := ExtendedGcd(RSA_SHARED_KEY, phi).2; privateKey == if y < 0 then y + phi else y
    ensures RsaKeyPair(RsaSysParams(UserParams(privateKey, RSA_SHARED_KEY), p * q), p, q)
  {
    BackCoefficientIsInverse(RSA_SHARED_KEY, phi);
  }

  /** A round that finds P but no Q ends the search. */
  lemma RsaPrimesNoQ(draws: seq<nat>, start: nat, afterP: nat)
    requires start < afterP <= |draws|
    requires afterP - 1 == FirstPrimeIndex(UINT8_MAX, INT16_MAX, 0, draws, start)
    requires FirstPrimeIndex(UINT8_MAX, INT16_MAX, Uniform(UINT8_MAX, INT16_MAX, draws[afterP - 1]), draws, afterP) == |draws|
    ensures RsaPrimes(draws, start) == None
  {
  }

  /** A round whose primes fit 3 settles the search. */
  lemma RsaPrimesFound(draws: seq<nat>, start: nat, afterP: nat, afterQ: nat)
    requires start < afterP < afterQ <= |draws|
    requires afterP - 1 == FirstPrimeIndex(UINT8_MAX, INT16_MAX, 0, draws, start)
    requires afterQ - 1 == FirstPrimeIndex(UINT8_MAX, INT16_MAX, Uniform(UINT8_MAX, INT16_MAX, draws[afterP - 1]), draws, afterP)
    requires SharedKeyFits(Uniform(UINT8_MAX, INT16_MAX, draws[afterP - 1]), Uniform(UINT8_MAX, INT16_MAX, draws[afterQ - 1]))
    ensures RsaPrimes(draws, start) == Some((Uniform(UINT8_MAX, INT16_MAX, draws[afterP - 1]), Uniform(UINT8_MAX, INT16_MAX, draws[afterQ - 1])))
  {
  }

  /** A round whose primes do not fit 3 leaves the outcome to the rounds
      that start after Q. */
  lemma RsaPrimesRetry(draws: seq<nat>, start: nat, afterP: nat, afterQ: nat)
    requires start < afterP < afterQ <= |draws|
    requires afterP - 1 == FirstPrimeIndex(UINT8_MAX, INT16_MAX, 0, draws, start)
    requires afterQ - 1 == FirstPrimeIndex(UINT8_MAX, INT16_MAX, Uniform(UINT8_MAX, INT16_MAX, draws[afterP - 1]), draws, afterP)
    requires !SharedKeyFits(Uniform(UINT8_MAX, INT16_MAX, draws[afterP - 1]), Uniform(UINT8_MAX, INT16_MAX, draws[afterQ - 1]))
    ensures RsaPrimes(draws, start) == RsaPrimes(draws, afterQ)
  {
  }

  /** (P-1)(Q-1) exceeds 3 for P, Q at least UINT8_MAX. */
  lemma EulerBound(p: int, q: int)
    requires p >= UINT8_MAX && q >= UINT8_MAX
    ensures (p - 1) * (q - 1) > RSA_SHARED_KEY
  {
    MulLe(1, p - 1, q - 1);
  }

  /** The partner of rsa_gen_sys: the two keys undo each other modulo the
      modulus, which lies above every byte and below 2^30, so its residues
      fit an int32_t. */
  lemma RsaKeysInvert(params: RsaSysParams, p: int, q: int)
    requires RsaKeyPair(params, p, q)
    ensures ExponentsInvert(params.recv.sharedKey, params.recv.privateKey, params.mod)
    ensures ExponentsInvert(params.recv.privateKey, params.recv.sharedKey, params.mod)
    ensures 0x100 <= params.mod < 0x4000_0000
  {
    var e, d := params.recv.sharedKey, params.recv.privateKey;
    RsaExponentsInvert(p, q, e, d);
    assert d * e == e * d;
    RsaExponentsInvert(p, q, d, e);
    MulLe(UINT8_MAX, p, q);
    MulLe(UINT8_MAX, UINT8_MAX, q);
    MulLe(p, INT16_MAX, q);
    MulLe(q, INT16_MAX, INT16_MAX);
  }

  // ---------------------------------------------------------------------
  // gost_gen_sys

  /** The exponent q, the factor t and the base the three loops of
      gost_gen_sys settle on: each is the candidate of the first accepted
      draw of its own sequence. None when a sequence runs out first. */
  function GostDraws(expDraws: seq<nat>, coefDraws: seq<nat>, baseDraws: seq<nat>): Option<(int, int, int)>
  {
    var ke := FirstPrimeIndex(UINT16_MAX / 2 + 1, UINT16_MAX, 0, expDraws, 0);
    if ke == |expDraws| then None
    else
      var q := Uniform(UINT16_MAX / 2 + 1, UINT16_MAX, expDraws[ke]);
      CoefRange(q);
      var kt := FirstModulusIndex(q, coefDraws, 0);
      if kt == |coefDraws| then None
      else
        var t := Uniform(INT16_MAX, INT32_MAX / q - 1, coefDraws[kt]);
        var kb := FirstCoefficientIndex(t * q + 1, t, baseDraws, 0);
        if kb == |baseDraws| then None
        else Some((q, t, Uniform(1, t * q, baseDraws[kb])))
  }

  /** gost_gen_sys: draws the prime q from [2^15, 2^16 - 1], then t from
      [INT16_MAX, INT32_MAX / q - 1] until t*q + 1 is a prime p, then a base
      from [1, p - 1] until a = base^t mod p exceeds 1; the private key is
      drawn from [1, q - 1] and the shared key is a^private mod p.
      tmpCoef and tmpBase are the t and base found. */
  method GostGenSys(expDraws: seq<nat>, coefDraws: seq<nat>, baseDraws: seq<nat>, privateDraw: nat)
    returns (r: Result<GostSysParams, Error>, ghost tmpCoef: int, ghost tmpBase: int)
    ensures r.Failure? ==> r.error == KeyGenerationExhausted
    ensures r.Success? <==> GostDraws(expDraws, coefDraws, baseDraws).Some?
    ensures r.Success? ==> GostDraws(expDraws, coefDraws, baseDraws).value == (r.value.ellipticExp, tmpCoef, tmpBase)
    ensures r.Success? ==> IsPrime(r.value.ellipticExp) && UINT16_MAX / 2 + 1 <= r.value.ellipticExp <= UINT16_MAX
    ensures r.Success? ==> IsPrime(r.value.mod) && r.value.mod == tmpCoef * r.value.ellipticExp + 1
    ensures r.Success? ==> INT16_MAX <= tmpCoef && r.value.mod <= INT32_MAX
    ensures r.Success? ==> 1 <= tmpBase < r.value.mod
    ensures r.Success? ==> r.value.ellipticCoef == PowMod(tmpBase, tmpCoef, r.value.mod) > 1
    ensures r.Success? ==> r.value.send.privateKey == Uniform(1, r.value.ellipticExp - 1, privateDraw)
    ensures r.Success? ==> 1 <= r.value.send.privateKey < r.value.ellipticExp
    ensures r.Success? ==> r.value.send.sharedKey == PowMod(r.value.ellipticCoef, r.value.send.privateKey, r.value.mod)
  {
    tmpCoef, tmpBase := 0, 0;
    var found, ellipticExp, afterExp := DrawPrime(UINT16_MAX / 2 + 1, UINT16_MAX, 0, expDraws, 0);
    if !found {
      return Failure(KeyGenerationExhausted), tmpCoef, tmpBase;
    }
    CoefRange(ellipticExp);
    var coef, mod;
    found, coef, mod := DrawModulus(ellipticExp, coefDraws);
    tmpCoef := coef;
    if !found {
      return Failure(KeyGenerationExhausted), tmpCoef, tmpBase;
    }
    var base, ellipticCoef;
    found, base, ellipticCoef := DrawCoefficient(mod, coef, baseDraws);
    tmpBase := base;
    if !found {
      return Failure(KeyGenerationExhausted), tmpCoef, tmpBase;
    }
    var sendPrivateKey := Uniform(1, ellipticExp - 1, privateDraw);
    var sendSharedKey := ComputePowMod(ellipticCoef, sendPrivateKey, mod);
    return Success(GostSysParams(UserParams(sendPrivateKey, sendSharedKey), ellipticExp, ellipticCoef, mod)),
      tmpCoef, tmpBase;
  }

  /** For q at most 2^16 - 1 the range of t is not empty, and t*q + 1 stays
      within INT32_MAX. */
  lemma CoefRange(q: int)
    requires UINT16_MAX / 2 + 1 <= q <= UINT16_MAX
    ensures INT16_MAX <= INT32_MAX / q - 1
    ensures forall t :: INT16_MAX <= t <= INT32_MAX / q - 1 ==> t * q + 1 <= INT32_MAX
  {
    var k := INT32_MAX / q;
    assert 0x8000 * q <= 0x8000 * UINT16_MAX <= INT32_MAX by {
      MulLe(q, UINT16_MAX, 0x8000);
    }
    DivRem(INT32_MAX, q);
    if k < 0x8000 {
      MulLe(k, 0x7FFF, q);
      assert false;
    }
    forall t | INT16_MAX <= t <= k - 1
      ensures t * q + 1 <= INT32_MAX
    {
      MulLe(t, k - 1, q);
    }
  }

  /** The factor t a raw draw gives makes t*q + 1 prime. */
  predicate ModulusAccepted(q: int, raw: nat)
    requires q > 0 && INT16_MAX <= INT32_MAX / q - 1
  {
    IsPrime(Uniform(INT16_MAX, INT32_MAX / q - 1, raw) * q + 1)
  }

  /** The index of the first draw, from start on, accepted by the middle
      loop of gost_gen_sys; |draws| when there is none. */
  function FirstModulusIndex(q: int, draws: seq<nat>, start: nat): (k: nat)
    requires q > 0 && INT16_MAX <= INT32_MAX / q - 1 && start <= |draws|
    ensures start <= k <= |draws|
    decreases |draws| - start
  {
    if start == |draws| || ModulusAccepted(q, draws[start]) then start
    else FirstModulusIndex(q, draws, start + 1)
  }

  /** FirstModulusIndex is the first accepted draw. */
  lemma {:induction false} FirstModulusIndexIsFirst(q: int, draws: seq<nat>, start: nat)
    requires q > 0 && INT16_MAX <= INT32_MAX / q - 1 && start <= |draws|
    ensures var k := FirstModulusIndex(q, draws, start);
      (k < |draws| ==> ModulusAccepted(q, draws[k]))
      && forall j :: start <= j < k ==> !ModulusAccepted(q, draws[j])
    decreases |draws| - start
  {
    if start < |draws| && !ModulusAccepted(q, draws[start]) {
      FirstModulusIndexIsFirst(q, draws, start + 1);
    }
  }

  /** The middle loop of gost_gen_sys: t from [INT16_MAX, INT32_MAX / q - 1]
      until t*q + 1 is prime. */
  method DrawModulus(q: int, draws: seq<nat>) returns (found: bool, t: int, mod: int)
    requires UINT16_MAX / 2 + 1 <= q <= UINT16_MAX && INT16_MAX <= INT32_MAX / q - 1
    requires forall t :: INT16_MAX <= t <= INT32_MAX / q - 1 ==> t * q + 1 <= INT32_MAX
    ensures found <==> FirstModulusIndex(q, draws, 0) < |draws|
    ensures found ==> t == Uniform(INT16_MAX, INT32_MAX / q - 1, draws[FirstModulusIndex(q, draws, 0)])
    ensures found ==> INT16_MAX <= t <= INT32_MAX / q - 1 && mod == t * q + 1
    ensures found ==> IsPrime(mod) && mod <= INT32_MAX
  {
    var i := 0;
    while i < |draws|
      invariant 0 <= i <= |draws|
      invariant FirstModulusIndex(q, draws, i) == FirstModulusIndex(q, draws, 0)
    {
      t := Uniform(INT16_MAX, INT32_MAX / q - 1, draws[i]);
      mod := t * q + 1;
      if IsPrime(mod) {
        return true, t, mod;
      }
      i := i + 1;
    }
    return false, 0, 0;
  }

  /** The base a raw draw gives raises to a coefficient above 1. */
  predicate CoefficientAccepted(mod: int, t: int, raw: nat)
    requires mod >= 2 && t >= 0
  {
    PowMod(Uniform(1, mod - 1, raw), t, mod) > 1
  }

  /** The index of the first draw, from start on, accepted by the last loop
      of gost_gen_sys; |draws| when there is none. */
  function FirstCoefficientIndex(mod: int, t: int, draws: seq<nat>, start: nat): (k: nat)
    requires mod >= 2 && t >= 0 && start <= |draws|
    ensures start <= k <= |draws|
    decreases |draws| - start
  {
    if start == |draws| || CoefficientAccepted(mod, t, draws[start]) then start
    else FirstCoefficientIndex(mod, t, draws, start + 1)
  }

  /** FirstCoefficientIndex is the first accepted draw. */
  lemma {:induction false} FirstCoefficientIndexIsFirst(mod: int, t: int, draws: seq<nat>, start: nat)
    requires mod >= 2 && t >= 0 && start <= |draws|
    ensures var k := FirstCoefficientIndex(mod, t, draws, start);
      (k < |draws| ==> CoefficientAccepted(mod, t, draws[k]))
      && forall j :: start <= j < k ==> !CoefficientAccepted(mod, t, draws[j])
    decreases |draws| - start
  {
    if start < |draws| && !CoefficientAccepted(mod, t, draws[start]) {
      FirstCoefficientIndexIsFirst(mod, t, draws, start + 1);
    }
  }

  /** The last loop of gost_gen_sys: a base from [1, p - 1] until base^t
      mod p exceeds 1. */
  method DrawCoefficient(mod: int, t: int, draws: seq<nat>) returns (found: bool, base: int, coef: int)
    requires mod >= 2 && t >= 0
    ensures found <==> FirstCoefficientIndex(mod, t, draws, 0) < |draws|
    ensures found ==> base == Uniform(1, mod - 1, draws[FirstCoefficientIndex(mod, t, draws, 0)])
    ensures found ==> 1 <= base < mod && coef == PowMod(base, t, mod) && coef > 1
  {
    var i := 0;
    while i < |draws|
      invariant 0 <= i <= |draws|
      invariant FirstCoefficientIndex(mod, t, draws, i) == FirstCoefficientIndex(mod, t, draws, 0)
    {
      base := Uniform(1, mod - 1, draws[i]);
      coef := ComputePowMod(base, t, mod);
      if coef > 1 {
        return true, base, coef;
      }
      i := i + 1;
    }
    return false, 0, 0;
  }

  /** The partner of gost_gen_sys: the coefficient a = base^t has order
      dividing q, a^q == 1 mod p, by Fermat's little theorem on
      base^(t*q) == base^(p-1). */
  lemma GostCoefOrder(mod: int, q: int, t: int, base: int)
    requires IsPrime(mod) && q >= 1 && t >= 1 && mod == t * q + 1 && 1 <= base < mod
    ensures PowMod(PowMod(base, t, mod), q, mod) == 1
  {
    PowModCompose(base, t, q, mod);
    PowModNonNeg(base, t * q, mod);
    FermatLittle(mod, base);
  }
}

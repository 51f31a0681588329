/**
 * The nonce-reuse ("fixed k") attack on ECDSA: two messages signed with the
 * same private key `d` and the same nonce `k` share `r`, which reveals `k`
 * and then `d` by modular inverses modulo the group order `n`.
 *
 * `n` is prime. The curve library's point arithmetic is the opaque
 * `curveR`, the `r` component it derives from the nonce.
 */
module NonceReuse {
  import opened Wrappers
  import opened Modular

  datatype Signature = Signature(r: int, s: int)

  /** Solving `k * s == m (mod n)` with the inverse of `k`. */
  lemma InverseSolves(k: int, kinv: int, m: int, n: int)
    requires n > 0 && MulMod(k, kinv, n) == 1 % n
    ensures (k * ((kinv * m) % n)) % n == m % n
  {
    ModMulRight(k, kinv * m, n);
    assert k * (kinv * m) == (k * kinv) * m;
    ModMulLeft(k * kinv, m, n);
    UnitFactor(m, n);
  }

  /** `(m * x^-1 mod n) * x == m (mod n)`. */
  lemma QuotientSolves(m: int, x: int, inv: int, n: int)
    requires n > 0 && MulMod(x, inv, n) == 1 % n
    ensures (((m * inv) % n) * x) % n == m % n
  {
    var p := m * inv;
    ModMulLeft(p, x, n);
    assert p * x == (x * inv) * m;
    ModMulLeft(x * inv, m, n);
    UnitFactor(m, n);
  }

  /** `k^-1 mod n`, which exists for a nonce in `[1, n)`. */
  function NonceInverse(k: int, n: int): (kinv: int)
    requires Prime(n) && 1 <= k < n
    ensures MulMod(k, kinv, n) == 1 % n
  {
    InverseExistsIffNonzero(k, n);
    ModUnique(k, n, 0, k);
    ModInverse(k, n).value
  }

  /**
   * `private_key_object.sign(h, k)`: `r` from the curve and
   * `s = k^-1 * (h + r * d) mod n`.
   */
  function Sign(curveR: int -> int, n: int, d: int, h: int, k: int): (sig: Signature)
    requires Prime(n) && 1 <= k < n
    ensures sig.r == curveR(k)
    ensures 0 <= sig.s < n
    ensures (k * sig.s) % n == (h + sig.r * d) % n
  {
    var r := curveR(k);
    var kinv := NonceInverse(k, n);
    var m := h + r * d;
    InverseSolves(k, kinv, m, n);
    Signature(r, (kinv * m) % n)
  }

  /**
   * `k_derived`: `(h1 - h2) * (s1 - s2)^-1 mod n`, `None` where `pow` finds
   * no inverse and raises.
   */
  function RecoverNonce(n: int, h1: int, h2: int, sig1: Signature, sig2: Signature): (k: Option<int>)
    requires n > 1
    ensures k.Some? ==> 0 <= k.value < n && (k.value * (sig1.s - sig2.s)) % n == (h1 - h2) % n
  {
    match ModInverse(sig1.s - sig2.s, n)
    case None => None
    case Some(inv) =>
      var k := ((h1 - h2) * inv) % n;
      QuotientSolves(h1 - h2, sig1.s - sig2.s, inv, n);
      Some(k)
  }

  /**
   * `private_key_derived`: `r^-1 * (s1 * k - h1) mod n`, `None` where `pow`
   * finds no inverse of `r` and raises.
   */
  function RecoverKey(n: int, h1: int, sig1: Signature, k: int): (d: Option<int>)
    requires n > 1
    ensures d.Some? ==> 0 <= d.value < n && (sig1.r * d.value) % n == (sig1.s * k - h1) % n
  {
    match ModInverse(sig1.r, n)
    case None => None
    case Some(inv) =>
      var d := (inv * (sig1.s * k - h1)) % n;
      InverseSolves(sig1.r, inv, sig1.s * k - h1, n);
      Some(d)
  }

  /** Both signatures made with one nonce carry the same `r`. */
  lemma SameNonceSameR(curveR: int -> int, n: int, d: int, h1: int, h2: int, k: int)
    requires Prime(n) && 1 <= k < n
    ensures Sign(curveR, n, d, h1, k).r == Sign(curveR, n, d, h2, k).r
  {
  }

  /** The two signing equations subtract to `k * (s1 - s2) == h1 - h2 (mod n)`. */
  lemma NonceEquation(curveR: int -> int, n: int, d: int, k: int, h1: int, h2: int)
    requires Prime(n) && 1 <= k < n
    ensures var s1, s2 := Sign(curveR, n, d, h1, k).s, Sign(curveR, n, d, h2, k).s;
      (k * (s1 - s2)) % n == (h1 - h2) % n
  {
    var sig1, sig2 := Sign(curveR, n, d, h1, k), Sign(curveR, n, d, h2, k);
    var rd := sig1.r * d;
    AddCongruent(k * sig1.s, h1 + rd, k * sig2.s, h2 + rd, n);
    assert k * (sig1.s - sig2.s) == k * sig1.s - k * sig2.s;
  }

  /** Modulo a prime, a factor that is not zero modulo `n` cannot make a product vanish. */
  lemma CancelNonzero(k: int, x: int, n: int)
    requires Prime(n) && k % n != 0
    ensures (k * x) % n == 0 <==> x % n == 0
  {
    ModMulRight(k, x, n);
    if x % n != 0 && (k * x) % n == 0 {
      InverseExistsIffNonzero(k, n);
      var kinv := ModInverse(k, n).value;
      InverseCancels(x, k, kinv, n);
      assert x * k == k * x;
      MulCongruent(x * k, 0, kinv, n);
    }
  }

  /** When `k * x == m (mod n)` and `k` is reduced, multiplying `m` by the inverse of `x` gives `k` back. */
  lemma DivideOut(k: int, x: int, m: int, inv: int, n: int)
    requires n > 0 && 0 <= k < n && (k * x) % n == m % n && MulMod(x, inv, n) == 1 % n
    ensures (m * inv) % n == k && (inv * m) % n == k
  {
    MulCongruent(m, k * x, inv, n);
    InverseCancels(k, x, inv, n);
    ModUnique(k, n, 0, k);
    assert inv * m == m * inv;
  }

  /**
   * Line 40 recovers the nonce exactly (the assertion at line 42), unless the
   * two hashes agree modulo `n`, where `s1 == s2` and the inverse does not exist.
   */
  lemma NonceRecovered(curveR: int -> int, n: int, d: int, k: int, h1: int, h2: int)
    requires Prime(n) && 1 <= k < n
    ensures RecoverNonce(n, h1, h2, Sign(curveR, n, d, h1, k), Sign(curveR, n, d, h2, k)) ==
      if h1 % n == h2 % n then None else Some(k)
  {
    var sig1, sig2 := Sign(curveR, n, d, h1, k), Sign(curveR, n, d, h2, k);
    var delta := sig1.s - sig2.s;
    NonceEquation(curveR, n, d, k, h1, h2);
    SubZero(h1, h2, n);
    ModUnique(k, n, 0, k);
    CancelNonzero(k, delta, n);
    InverseExistsIffNonzero(delta, n);
    if h1 % n != h2 % n {
      var inv := ModInverse(delta, n).value;
      DivideOut(k, delta, h1 - h2, inv, n);
    }
  }

  /**
   * With the true nonce, line 45 recovers the private key exactly (the
   * assertion at line 47), unless `r` is zero modulo `n`, where its inverse
   * does not exist.
   */
  lemma KeyRecovered(curveR: int -> int, n: int, d: int, k: int, h1: int)
    requires Prime(n) && 1 <= d < n && 1 <= k < n
    ensures RecoverKey(n, h1, Sign(curveR, n, d, h1, k), k) ==
      if curveR(k) % n == 0 then None else Some(d)
  {
    var sig1 := Sign(curveR, n, d, h1, k);
    var r := sig1.r;
    InverseExistsIffNonzero(r, n);
    if r % n != 0 {
      var inv := ModInverse(r, n).value;
      AddCongruent(k * sig1.s, h1 + r * d, h1, h1, n);
      assert sig1.s * k == k * sig1.s && d * r == r * d;
      DivideOut(d, r, sig1.s * k - h1, inv, n);
    }
  }

  /**
   * The whole attack: from two messages with distinct hashes modulo `n`,
   * signed with one nonce whose `r` is non-zero modulo `n`, both assertions
   * hold: the derived nonce is `k` and the derived key is `d`.
   */
  lemma NonceReuseRecoversKey(curveR: int -> int, n: int, d: int, k: int, h1: int, h2: int)
    requires Prime(n) && 1 <= d < n && 1 <= k < n
    requires h1 % n != h2 % n && curveR(k) % n != 0
    ensures var sig1, sig2 := Sign(curveR, n, d, h1, k), Sign(curveR, n, d, h2, k);
      && sig1.r == sig2.r
      && RecoverNonce(n, h1, h2, sig1, sig2) == Some(k)
      && RecoverKey(n, h1, sig1, RecoverNonce(n, h1, h2, sig1, sig2).value) == Some(d)
  {
    NonceRecovered(curveR, n, d, k, h1, h2);
    KeyRecovered(curveR, n, d, k, h1);
  }
}

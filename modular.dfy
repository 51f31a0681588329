/**
 * Arithmetic modulo a positive `n` as Python does it: `%` with a positive
 * modulus is never negative (Dafny's `%` agrees there), and
 * `pow(x, -1, n)` is the modular inverse, computed here by the extended
 * Euclidean algorithm.
 */
module Modular {
  import opened Wrappers

  /** `d` divides `m`. */
  predicate Divides(d: int, m: int)
    requires d > 0
  {
    m % d == 0
  }

  predicate Prime(n: int) {
    n >= 2 && forall d :: 2 <= d < n ==> !Divides(d, n)
  }

  /** `(a * b) % n`, named so that quantifiers over it have a trigger. */
  function MulMod(a: int, b: int, n: int): int
    requires n > 0
  {
    (a * b) % n
  }

  // ---- congruences

  lemma {:induction false} MulAtLeast(a: int, n: int)
    requires a >= 1 && n >= 0
    ensures a * n >= n
    decreases a
  {
    if a > 1 {
      MulAtLeast(a - 1, n);
      assert a * n == (a - 1) * n + n;
    }
  }

  /** The quotient and remainder are unique. */
  lemma ModUnique(m: int, n: int, q: int, r: int)
    requires n > 0 && m == q * n + r && 0 <= r < n
    ensures m % n == r && m / n == q
  {
    var q0, r0 := m / n, m % n;
    assert m == q0 * n + r0;
    var t := q - q0;
    assert t * n == q * n - q0 * n;
    assert t * n == r0 - r;
    if t > 0 {
      MulAtLeast(t, n);
    } else if t < 0 {
      MulAtLeast(-t, n);
    }
    assert t == 0;
  }

  lemma ModAddMultiple(m: int, c: int, n: int)
    requires n > 0
    ensures (m + c * n) % n == m % n
  {
    assert m + c * n == (m / n + c) * n + m % n;
    ModUnique(m + c * n, n, m / n + c, m % n);
  }

  lemma ModMulLeft(a: int, b: int, n: int)
    requires n > 0
    ensures (a * b) % n == ((a % n) * b) % n
  {
    assert a * b == (a % n) * b + ((a / n) * b) * n;
    ModAddMultiple((a % n) * b, (a / n) * b, n);
  }

  lemma ModMulRight(a: int, b: int, n: int)
    requires n > 0
    ensures (a * b) % n == (a * (b % n)) % n
  {
    ModMulLeft(b, a, n);
    assert a * b == b * a && a * (b % n) == (b % n) * a;
  }

  /** Multiplication respects congruence on either side. */
  lemma MulCongruent(a: int, b: int, c: int, n: int)
    requires n > 0 && a % n == b % n
    ensures (a * c) % n == (b * c) % n
    ensures (c * a) % n == (c * b) % n
  {
    ModMulLeft(a, c, n);
    ModMulLeft(b, c, n);
    ModMulRight(c, a, n);
    ModMulRight(c, b, n);
  }

  /** `a + c` modulo `n` depends only on the residues of `a` and `c`. */
  lemma AddResidues(a: int, c: int, n: int)
    requires n > 0
    ensures (a + c) % n == (a % n + c % n) % n
  {
    var qa, ra, qc, rc := a / n, a % n, c / n, c % n;
    assert a == qa * n + ra && c == qc * n + rc;
    assert qa * n + qc * n == (qa + qc) * n;
    assert a + c == (ra + rc) + (qa + qc) * n;
    ModAddMultiple(ra + rc, qa + qc, n);
  }

  /** ... and so does `a - c`. */
  lemma SubResidues(a: int, c: int, n: int)
    requires n > 0
    ensures (a - c) % n == (a % n - c % n) % n
  {
    var qa, ra, qc, rc := a / n, a % n, c / n, c % n;
    var t := qa - qc;
    assert a == qa * n + ra && c == qc * n + rc;
    assert qa * n - qc * n == t * n;
    assert a - c == (ra - rc) + t * n;
    ModAddMultiple(ra - rc, t, n);
  }

  lemma AddCongruent(a: int, b: int, c: int, d: int, n: int)
    requires n > 0 && a % n == b % n && c % n == d % n
    ensures (a + c) % n == (b + d) % n
    ensures (a - c) % n == (b - d) % n
  {
    AddResidues(a, c, n);
    AddResidues(b, d, n);
    SubResidues(a, c, n);
    SubResidues(b, d, n);
  }

  /** A difference vanishes modulo `n` exactly when the two sides are congruent. */
  lemma SubZero(a: int, b: int, n: int)
    requires n > 0
    ensures (a - b) % n == 0 <==> a % n == b % n
  {
    SubResidues(a, b, n);
    var t := a % n - b % n;
    assert -n < t < n;
    if t < 0 {
      ModUnique(t, n, -1, t + n);
    } else {
      ModUnique(t, n, 0, t);
    }
  }

  // ---- the extended Euclidean algorithm

  /** `g == a * x + b * y`, with `a == g * ca` and `b == g * cb`. */
  datatype Bezout = Bezout(g: nat, x: int, y: int, ca: nat, cb: nat)

  /** The coefficients for `(a, b)` from those for `(b, a % b)`, with `q == a / b`. */
  function Combine(e: Bezout, q: nat): Bezout {
    Bezout(e.g, e.y, e.x - q * e.y, q * e.ca + e.cb, e.ca)
  }

  lemma EgcdStep(a: nat, b: nat, q: nat, r: nat, e: Bezout)
    requires a == q * b + r
    requires b * e.x + r * e.y == e.g && b == e.g * e.ca && r == e.g * e.cb
    ensures var c := Combine(e, q); a * c.x + b * c.y == c.g && a == c.g * c.ca && b == c.g * c.cb
  {
    assert a * e.y + b * (e.x - q * e.y) == b * e.x + (a - q * b) * e.y;
    assert e.g * (q * e.ca + e.cb) == q * (e.g * e.ca) + e.g * e.cb;
  }

  lemma NatDivMod(a: nat, b: nat)
    requires b > 0
    ensures a == (a / b) * b + a % b && a / b >= 0 && a % b >= 0
  {
  }

  /** Extended Euclid: the greatest common divisor of `a` and `b` with Bezout coefficients. */
  function Egcd(a: nat, b: nat): (e: Bezout)
    ensures a * e.x + b * e.y == e.g
    ensures a == e.g * e.ca && b == e.g * e.cb
    decreases b
  {
    if b == 0 then Bezout(a, 1, 0, 1, 0)
    else
      NatDivMod(a, b);
      var q: nat, r: nat := a / b, a % b;
      var e' := Egcd(b, r);
      EgcdStep(a, b, q, r, e');
      Combine(e', q)
  }

  /** No integer multiple of a number above 1 is 1. */
  lemma NotUnitMultiple(g: int, t: int)
    requires g >= 2
    ensures g * t != 1
  {
    if t >= 1 {
      assert g * t >= g;
    } else {
      assert g * t <= 0;
    }
  }

  lemma FactorOfResidue(x: int, y: int, n: int, g: int, cx: int, cn: int)
    requires n > 0 && x % n == g * cx && n == g * cn
    ensures x * y == g * (((x / n) * cn + cx) * y)
  {
    assert x == (x / n) * n + x % n;
    assert (x / n) * n == g * ((x / n) * cn);
    assert x == g * ((x / n) * cn + cx);
  }

  lemma RemainderFactor(p: int, q: int, n: int, rem: int, g: int, m: int, cn: int)
    requires p == q * n + rem && p == g * m && n == g * cn
    ensures rem == g * (m - q * cn)
  {
    assert q * n == g * (q * cn);
  }

  /** A factor above 1 shared by `x mod n` and `n` rules out `x * y == 1` modulo `n`. */
  lemma CommonFactorNoInverse(x: int, y: int, n: int, g: int, cx: int, cn: int)
    requires n > 0 && g >= 2 && x % n == g * cx && n == g * cn
    ensures MulMod(x, y, n) != 1 % n
  {
    NotUnitMultiple(g, cn);
    FactorOfResidue(x, y, n, g, cx, cn);
    var m := ((x / n) * cn + cx) * y;
    RemainderFactor(x * y, (x * y) / n, n, (x * y) % n, g, m, cn);
    NotUnitMultiple(g, m - ((x * y) / n) * cn);
    ModUnique(1, n, 0, 1);
  }

  /**
   * `pow(x, -1, n)`: the inverse of `x` modulo `n` in `[0, n)`, or `None`
   * where Python raises `ValueError` because there is none.
   */
  function ModInverse(x: int, n: int): (r: Option<int>)
    requires n > 0
    ensures r.Some? ==> 0 <= r.value < n && MulMod(x, r.value, n) == 1 % n
    ensures r.None? ==> forall y :: MulMod(x, y, n) != 1 % n
  {
    var e := Egcd(x % n, n);
    if e.g == 1 then
      var y := e.x % n;
      assert (x % n) * e.x + n * e.y == 1;
      ModAddMultiple((x % n) * e.x, e.y, n);
      assert ((x % n) * e.x) % n == 1 % n;
      ModMulLeft(x, e.x, n);
      ModMulRight(x, e.x, n);
      Some(y)
    else
      assert e.g >= 2 by {
        assert e.g != 0;
      }
      forall y ensures MulMod(x, y, n) != 1 % n {
        CommonFactorNoInverse(x, y, n, e.g, e.ca, e.cb);
      }
      None
  }

  /** Modulo a prime, exactly the non-zero residues have an inverse. */
  lemma InverseExistsIffNonzero(x: int, n: int)
    requires Prime(n)
    ensures ModInverse(x, n).Some? <==> x % n != 0
  {
    var a := x % n;
    var e := Egcd(a, n);
    if a == 0 {
      assert Egcd(n, 0).g == n;
      assert e.g == Egcd(n, 0 % n).g;
    } else if e.g != 1 {
      assert e.ca >= 1;
      assert e.g <= a by {
        assert e.g * e.ca >= e.g * 1;
      }
      ModUnique(n, e.g, e.cb, 0);
      assert Divides(e.g, n);
    }
  }

  /** Multiplying by `1 % n` changes nothing modulo `n`. */
  lemma UnitFactor(m: int, n: int)
    requires n > 0
    ensures ((1 % n) * m) % n == m % n
  {
    ModMulLeft(1, m, n);
  }

  /** An inverse cancels the factor it inverts. */
  lemma InverseCancels(a: int, x: int, inv: int, n: int)
    requires n > 0 && MulMod(x, inv, n) == 1 % n
    ensures ((a * x) * inv) % n == a % n
  {
    assert (a * x) * inv == (x * inv) * a;
    ModMulLeft(x * inv, a, n);
    UnitFactor(a, n);
  }
}

/** Small facts about natural-number multiplication and floor division,
    each proved in isolation so that the lemmas using them stay linear. */
module NatArith {

  /** a / d and a % d split a into whole multiples of d and a remainder below d. */
  lemma DivMod(a: nat, d: nat)
    requires d > 0
    ensures (a / d) * d + a % d == a
    ensures a % d < d
  {
  }

  /** The floor quotient is the largest multiple count not exceeding a. */
  lemma FloorDivBounds(a: nat, d: nat)
    requires d > 0
    ensures (a / d) * d <= a < (a / d + 1) * d
  {
    DivMod(a, d);
  }

  /** The floor of a / d, characterised by its bounds. */
  function FloorDiv(a: nat, d: nat): (q: nat)
    requires d > 0
    ensures q * d <= a < (q + 1) * d
  {
    var q := a / d;
    FloorDivBounds(a, d);
    assert q * d <= a < (q + 1) * d;
    q
  }

  /** Scaling both sides of an inequality by the same natural number keeps it. */
  lemma MulMonotone(a: nat, b: nat, c: nat)
    requires a <= b
    ensures a * c <= b * c
  {
  }

  /** A strict bound between multiples of a positive number bounds the multipliers. */
  lemma MulCancel(a: nat, b: nat, c: nat)
    requires c > 0
    requires a * c < (b + 1) * c
    ensures a <= b
  {
  }

  /** Integer division by a positive divisor is determined by its bounds. */
  lemma QuotientUnique(a: nat, d: nat, q: nat)
    requires d > 0
    requires q * d <= a < (q + 1) * d
    ensures a / d == q
  {
    FloorDivBounds(a, d);
    MulCancel(q, a / d, d);
    MulCancel(a / d, q, d);
  }

  lemma MulSucc(k: nat, u: nat)
    ensures (k + 1) * u == k * u + u
  {
  }

  lemma MulAssocComm(q: nat, p: nat, k: nat)
    ensures q * (p * k) == (q * k) * p
  {
  }

  /** Flooring twice, by p and then by k, is flooring once by p * k. */
  lemma NestedQuotient(a: nat, p: nat, k: nat)
    requires p > 0 && k > 0
    ensures (a / p) / k == a / (p * k)
  {
    var t := a / p;
    var q := t / k;
    FloorDivBounds(a, p);
    FloorDivBounds(t, k);
    BoundsCompose(a, p, k, t, q);
    QuotientUnique(a, p * k, q);
  }

  /** If t counts the p's in a and q counts the k's in t, then q counts the (p * k)'s in a. */
  lemma BoundsCompose(a: nat, p: nat, k: nat, t: nat, q: nat)
    requires t * p <= a < (t + 1) * p
    requires q * k <= t < (q + 1) * k
    ensures q * (p * k) <= a < (q + 1) * (p * k)
  {
    MulMonotone(q * k, t, p);
    MulMonotone(t + 1, (q + 1) * k, p);
    MulAssocComm(q, p, k);
    MulAssocComm(q + 1, p, k);
  }

  lemma CastMul(a: nat, b: nat)
    ensures (a * b) as real == a as real * b as real
  {
  }

  lemma RealScaleCancel(a: real, b: real, c: real)
    requires c > 0.0
    ensures a * c <= b * c ==> a <= b
    ensures a * c < b * c ==> a < b
  {
  }

  lemma RealNestedQuotient(b: real, p: real, k: real)
    requires p > 0.0 && k > 0.0
    ensures (b / p) / k == b / (p * k)
  {
  }

  /** Real division version of the floor bounds: t <= b / u < t + 1. */
  lemma RealQuotientBounds(b: nat, u: nat, t: nat)
    requires u > 0
    requires t * u <= b < (t + 1) * u
    ensures t as real <= b as real / u as real < t as real + 1.0
  {
    CastMul(t, u);
    CastMul(t + 1, u);
    RealDivMonotone((t * u) as real, b as real, u as real);
    RealDivMonotone(b as real, ((t + 1) * u) as real, u as real);
    RealMulDiv(t as real, u as real);
    RealMulDiv(t as real + 1.0, u as real);
  }

  lemma RealDivMonotone(a: real, b: real, c: real)
    requires c > 0.0
    ensures a <= b ==> a / c <= b / c
    ensures a < b ==> a / c < b / c
  {
  }

  lemma RealMulDiv(a: real, c: real)
    requires c > 0.0
    ensures (a * c) / c == a
  {
  }
}

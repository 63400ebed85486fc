/**
 * Lemmas about real multiplication. Products are named through `Mul` so
 * that a product of two differences is one term for the prover: lemmas
 * stated about `Mul(a, b)` then apply to compound `a` and `b` as they are.
 */
module RealArith {

  /** Real multiplication. */
  function Mul(a: real, b: real): real { a * b }

  lemma MulCommutes(a: real, b: real)
    ensures Mul(a, b) == Mul(b, a)
  {
  }

  lemma MulAssociates(a: real, b: real, c: real)
    ensures Mul(Mul(a, b), c) == Mul(a, Mul(b, c))
  {
  }

  lemma MulNonNegative(a: real, b: real)
    requires 0.0 <= a && 0.0 <= b
    ensures 0.0 <= Mul(a, b)
  {
  }

  lemma MulPositive(a: real, b: real)
    requires 0.0 < a && 0.0 < b
    ensures 0.0 < Mul(a, b)
  {
  }

  lemma MulMonotone(a: real, b: real, c: real)
    requires 0.0 <= a && b <= c
    ensures Mul(a, b) <= Mul(a, c)
  {
    MulNonNegative(a, c - b);
    assert a * (c - b) == a * c - a * b;
  }

  lemma MulStrict(a: real, b: real, c: real)
    requires 0.0 < a && b < c
    ensures Mul(a, b) < Mul(a, c)
  {
    MulPositive(a, c - b);
    assert a * (c - b) == a * c - a * b;
  }

  lemma MulComplement(a: real, k: real)
    ensures Mul(a, 1.0 - k) == a - Mul(a, k)
  {
  }

  lemma MulNegate(a: real, k: real)
    ensures Mul(-a, k) == -Mul(a, k)
  {
  }

  lemma MulSuccessor(m: real, r: real)
    ensures Mul(m + 1.0, r) == Mul(m, r) + r
  {
  }

}

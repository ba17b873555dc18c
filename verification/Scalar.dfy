/** Scalar arithmetic modulo the curve order, and how multiplication of points
    carries it into the group. */
module Scalar {
  import opened Numbers
  import opened Curve

  function ScalarAdd(n: Pos, a: nat, b: nat): (r: nat)
    ensures r < n
    ensures r == Mod(a, n) + Mod(b, n) || r + n == Mod(a, n) + Mod(b, n)
  {
    ModOnce(Mod(a, n) + Mod(b, n), n);
    Mod(Mod(a, n) + Mod(b, n), n)
  }

  function ScalarSub(n: Pos, a: nat, b: nat): (r: nat)
    ensures r < n
    ensures r + Mod(b, n) == Mod(a, n) || r + Mod(b, n) == Mod(a, n) + n
  {
    ModOnce(Mod(a, n) + (n - Mod(b, n)), n);
    Mod(Mod(a, n) + (n - Mod(b, n)), n)
  }

  function ScalarMul(n: Pos, a: nat, b: nat): (r: nat)
    ensures r < n
  {
    Mod(Mod(a, n) * Mod(b, n), n)
  }

  /** mul(scalar_add(a, b), Q) == mul(a, Q) + mul(b, Q) */
  lemma MulAdd<P(!new)>(ec: Curve<P>, a: nat, b: nat, q: P)
    requires Lawful(ec)
    ensures Times(ec, ScalarAdd(ec.n, a, b), q) == ec.add(Times(ec, a, q), Times(ec, b, q))
  {
    ModAdd(a, b, ec.n);
    TimesMod(ec, a + b, q);
    TimesAdd(ec, a, b, q);
  }

  /** mul(scalar_mul(a, b), Q) == mul(a, mul(b, Q)) */
  lemma MulMul<P(!new)>(ec: Curve<P>, a: nat, b: nat, q: P)
    requires Lawful(ec)
    ensures Times(ec, ScalarMul(ec.n, a, b), q) == Times(ec, a, Times(ec, b, q))
  {
    ModMul(a, b, ec.n);
    TimesMod(ec, a * b, q);
    TimesMul(ec, a, b, q);
  }

  /** scalar_add undoes scalar_sub, modulo the order. */
  lemma SubThenAdd(n: Pos, a: nat, b: nat)
    ensures ScalarAdd(n, ScalarSub(n, a, b), b) == Mod(a, n)
  {
  }

  /** mul(scalar_sub(a, b), Q) == mul(a, Q) - mul(b, Q) */
  lemma MulSub<P(!new)>(ec: Curve<P>, a: nat, b: nat, q: P)
    requires Lawful(ec)
    ensures Times(ec, ScalarSub(ec.n, a, b), q) == Sub(ec, Times(ec, a, q), Times(ec, b, q))
  {
    MulAdd(ec, ScalarSub(ec.n, a, b), b, q);
    SubThenAdd(ec.n, a, b);
    TimesMod(ec, a, q);
    AddSub(ec, Times(ec, ScalarSub(ec.n, a, b), q), Times(ec, b, q));
  }

  /** A difference vanishes exactly on equal residues. */
  lemma SubIsZero(n: Pos, a: nat, b: nat)
    ensures ScalarSub(n, a, b) == 0 <==> Mod(a, n) == Mod(b, n)
  {
  }
}

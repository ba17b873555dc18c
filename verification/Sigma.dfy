/** What the sigma protocols share: the honest response, and the witness two
    accepting transcripts with one commitment give. */
module Sigma {
  import opened Numbers
  import opened Curve
  import opened Scalar

  /** s = k + c*x modulo the order. */
  function Response(n: Pos, k: nat, c: nat, x: nat): (s: nat)
    ensures s < n
  {
    ScalarAdd(n, k, ScalarMul(n, c, x))
  }

  lemma ResponseMul<P(!new)>(ec: Curve<P>, k: nat, c: nat, x: nat, q: P)
    requires Lawful(ec)
    ensures Times(ec, Response(ec.n, k, c, x), q) == ec.add(Times(ec, k, q), Times(ec, c, Times(ec, x, q)))
  {
    MulAdd(ec, k, ScalarMul(ec.n, c, x), q);
    MulMul(ec, c, x, q);
  }

  /** The response with witness x and the nonce k = s - c*x is s again. */
  lemma ResponseOfNonce(n: Pos, s: nat, c: nat, x: nat)
    ensures Response(n, ScalarSub(n, s, ScalarMul(n, c, x)), c, x) == Mod(s, n)
  {
    SubThenAdd(n, s, ScalarMul(n, c, x));
  }

  /** A nonce chosen from the response reproduces the simulated commitment. */
  lemma NonceCommitment<P(!new)>(ec: Curve<P>, s: nat, c: nat, x: nat, q: P)
    requires Lawful(ec)
    ensures Times(ec, ScalarSub(ec.n, s, ScalarMul(ec.n, c, x)), q)
         == Sub(ec, Times(ec, s, q), Times(ec, c, Times(ec, x, q)))
  {
    MulSub(ec, s, ScalarMul(ec.n, c, x), q);
    MulMul(ec, c, x, q);
  }

  /** Responses tell nonces apart, modulo the order. */
  lemma ResponseInjective(n: Pos, k: nat, k': nat, c: nat, x: nat)
    ensures Response(n, k, c, x) == Response(n, k', c, x) <==> Mod(k, n) == Mod(k', n)
  {
  }

  /** (s - s') / (c - c') modulo the order. */
  function Witness(n: Pos, c: nat, s: nat, c': nat, s': nat): (x: nat)
    requires IsPrime(n) && Mod(c, n) != Mod(c', n)
    ensures x < n
  {
    SubIsZero(n, c, c');
    ScalarMul(n, ModInverse(ScalarSub(n, c, c'), n), ScalarSub(n, s, s'))
  }

  /** A transcript equation over two bases:
      s1*q1 + s2*q2 == a + c*y. */
  ghost predicate Holds<P>(ec: Curve<P>, q1: P, q2: P, a: P, y: P, c: nat, s1: nat, s2: nat) {
    ec.add(Times(ec, s1, q1), Times(ec, s2, q2)) == ec.add(a, Times(ec, c, y))
  }

  /** Special soundness: two transcripts with one commitment and different
      challenges determine how y decomposes over the bases. */
  lemma Extract<P(!new)>(ec: Curve<P>, q1: P, q2: P, a: P, y: P,
                         c: nat, s1: nat, s2: nat, c': nat, s1': nat, s2': nat)
    requires Lawful(ec) && Mod(c, ec.n) != Mod(c', ec.n)
    requires Holds(ec, q1, q2, a, y, c, s1, s2) && Holds(ec, q1, q2, a, y, c', s1', s2')
    ensures y == ec.add(Times(ec, Witness(ec.n, c, s1, c', s1'), q1),
                       Times(ec, Witness(ec.n, c, s2, c', s2'), q2))
  {
    var d, d1, d2 := ScalarSub(ec.n, c, c'), ScalarSub(ec.n, s1, s1'), ScalarSub(ec.n, s2, s2');
    SubIsZero(ec.n, c, c');
    var e := ModInverse(d, ec.n);
    SubCommon(ec, a, Times(ec, c, y), Times(ec, c', y));
    MulSub(ec, c, c', y);
    SubPair(ec, Times(ec, s1, q1), Times(ec, s2, q2), Times(ec, s1', q1), Times(ec, s2', q2));
    MulSub(ec, s1, s1', q1);
    MulSub(ec, s2, s2', q2);
    assert ec.add(Times(ec, d1, q1), Times(ec, d2, q2)) == Times(ec, d, y);
    Unscale(ec, d, e, y);
    TimesSum(ec, e, Times(ec, d1, q1), Times(ec, d2, q2));
    MulMul(ec, e, d1, q1);
    MulMul(ec, e, d2, q2);
  }

  /** (a + b) - (c + d) == (a - c) + (b - d) */
  lemma SubPair<P(!new)>(ec: Curve<P>, a: P, b: P, c: P, d: P)
    requires Lawful(ec)
    ensures Sub(ec, ec.add(a, b), ec.add(c, d)) == ec.add(Sub(ec, a, c), Sub(ec, b, d))
  {
    AddSub(ec, a, c);
    AddSub(ec, b, d);
    Interchange(ec, Sub(ec, a, c), Sub(ec, b, d), c, d);
    AddSub(ec, ec.add(Sub(ec, a, c), Sub(ec, b, d)), ec.add(c, d));
  }

  /** A one-base equation s*q == a + c*y is a two-base one. */
  lemma HoldsSingle<P(!new)>(ec: Curve<P>, q: P, a: P, y: P, c: nat, s: nat)
    requires Lawful(ec)
    ensures Holds(ec, q, ec.zero, a, y, c, s, 0) <==> Times(ec, s, q) == ec.add(a, Times(ec, c, y))
  {
    ZeroLeft(ec, Times(ec, s, q));
  }

  lemma ExtractSingle<P(!new)>(ec: Curve<P>, q: P, a: P, y: P, c: nat, s: nat, c': nat, s': nat)
    requires Lawful(ec) && Mod(c, ec.n) != Mod(c', ec.n)
    requires Times(ec, s, q) == ec.add(a, Times(ec, c, y))
    requires Times(ec, s', q) == ec.add(a, Times(ec, c', y))
    ensures y == Times(ec, Witness(ec.n, c, s, c', s'), q)
  {
    HoldsSingle(ec, q, a, y, c, s);
    HoldsSingle(ec, q, a, y, c', s');
    Extract(ec, q, ec.zero, a, y, c, s, 0, c', s', 0);
    TimesZero(ec, Witness(ec.n, c, 0, c', 0));
    ZeroLeft(ec, Times(ec, Witness(ec.n, c, s, c', s'), q));
  }

  /** d * ((s - s') / d) is s - s'. */
  lemma WitnessScales<P(!new)>(ec: Curve<P>, q: P, c: nat, s: nat, c': nat, s': nat)
    requires Lawful(ec) && Mod(c, ec.n) != Mod(c', ec.n)
    ensures Times(ec, ScalarSub(ec.n, c, c'), Times(ec, Witness(ec.n, c, s, c', s'), q)) == Times(ec, ScalarSub(ec.n, s, s'), q)
  {
    var d, d1 := ScalarSub(ec.n, c, c'), ScalarSub(ec.n, s, s');
    SubIsZero(ec.n, c, c');
    var e := ModInverse(d, ec.n);
    MulMul(ec, e, d1, q);
    MulComm(d, e);
    Unscale(ec, e, d, Times(ec, d1, q));
  }

  /** The converse of extraction: if y is the extracted multiple, the two
      transcripts have one commitment. */
  lemma SameCommitment<P(!new)>(ec: Curve<P>, q: P, a: P, a': P, y: P, c: nat, s: nat, c': nat, s': nat)
    requires Lawful(ec) && Mod(c, ec.n) != Mod(c', ec.n)
    requires Times(ec, s, q) == ec.add(a, Times(ec, c, y))
    requires Times(ec, s', q) == ec.add(a', Times(ec, c', y))
    ensures a == a' <==> y == Times(ec, Witness(ec.n, c, s, c', s'), q)
  {
    if a == a' {
      ExtractSingle(ec, q, a, y, c, s, c', s');
    } else if y == Times(ec, Witness(ec.n, c, s, c', s'), q) {
      WitnessScales(ec, q, c, s, c', s');
      MulSub(ec, c, c', y);
      MulSub(ec, s, s', q);
      var x := Sub(ec, Times(ec, c, y), Times(ec, c', y));
      SubPair(ec, a, Times(ec, c, y), a', Times(ec, c', y));
      ZeroLeft(ec, x);
      CancelRight(ec, Sub(ec, a, a'), ec.zero, x);
      SubZero(ec, a, a');
    }
  }
}

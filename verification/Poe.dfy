/** Proof of exponentiation: knowledge of x with y = g^x. */
module Poe {
  import opened Numbers
  import opened Outcomes
  import opened Curve
  import opened Scalar
  import opened Transcript
  import opened Sigma

  datatype Proof = Proof(a: Affine, s: nat, c: nat)

  /** Comparison through affine forms: fails if either side is the point at
      infinity. */
  function EqualAffine<P(==)>(ec: Curve<P>, lhs: P, rhs: P): Result<bool> {
    var l :- ToAffine(ec, lhs);
    var r :- ToAffine(ec, rhs);
    Ok(l == r)
  }

  lemma EqualAffineCompares<P(!new)>(ec: Curve<P>, lhs: P, rhs: P)
    requires Lawful(ec)
    ensures EqualAffine(ec, lhs, rhs) ==
            if lhs == ec.zero || rhs == ec.zero then Err(PointAtInfinity) else Ok(lhs == rhs)
  {
    if lhs != ec.zero && rhs != ec.zero {
      AffineRoundTrip(ec, lhs, rhs);
    }
  }

  /** gen^s == a + y^c, without recomputing the challenge. */
  function VerifyInternal<P(==)>(ec: Curve<P>, y: P, gen: P, a: P, c: nat, s: nat): Result<bool> {
    EqualAffine(ec, Times(ec, s, gen), ec.add(a, Times(ec, c, y)))
  }

  /** `r` is the prover's random draw. */
  function Prove<P(==)>(ec: Curve<P>, ro: Oracle, x: nat, prefix: nat, r: nat): Result<(P, Proof)> {
    var y := Times(ec, x, ec.g);
    var a := Times(ec, r, ec.g);
    var c :- PoseidonChallenge(ec, ro, prefix, [a]);
    var s := Response(ec.n, r, c, x);
    var affine :- ToAffine(ec, a);
    Ok((y, Proof(affine, s, c)))
  }

  function Verify<P(==)>(ec: Curve<P>, ro: Oracle, y: P, proof: Proof, prefix: nat): Result<bool> {
    var a :- FromAffine(ec, proof.a);
    var c :- PoseidonChallenge(ec, ro, prefix, [a]);
    if proof.c != c then Ok(false)
    else VerifyInternal(ec, y, ec.g, a, proof.c, proof.s)
  }

  /** Completeness, exactly: the prover fails only when the nonce is a
      multiple of the order; an honest proof never fails the equation, and the
      verifier reports the point at infinity exactly when the response is 0. */
  lemma Complete<P(!new)>(ec: Curve<P>, ro: Oracle, x: nat, prefix: nat, r: nat)
    requires Lawful(ec)
    ensures match Prove(ec, ro, x, prefix, r)
            case Err(e) => e == PointAtInfinity && Mod(r, ec.n) == 0
            case Ok((y, proof)) =>
              && Mod(r, ec.n) != 0
              && y == Times(ec, x, ec.g)
              && Verify(ec, ro, y, proof, prefix) == if proof.s == 0 then Err(PointAtInfinity) else Ok(true)
  {
    TimesIsZero(ec, r, ec.g);
    var a := Times(ec, r, ec.g);
    assert [a][0] == a;
    match Prove(ec, ro, x, prefix, r)
    case Err(_) =>
    case Ok((y, proof)) =>
      AffineRoundTrip(ec, a, a);
      ResponseMul(ec, r, proof.c, x, ec.g);
      EqualAffineCompares(ec, Times(ec, proof.s, ec.g), ec.add(a, Times(ec, proof.c, y)));
      TimesIsZero(ec, proof.s, ec.g);
  }

  /** What acceptance means, for any proof: the commitment parses, the challenge
      is the recomputed one, and the equation holds away from infinity. */
  lemma VerifyMeans<P(!new)>(ec: Curve<P>, ro: Oracle, y: P, proof: Proof, prefix: nat)
    requires Lawful(ec)
    ensures Verify(ec, ro, y, proof, prefix) == Ok(true) <==>
            var a := FromAffine(ec, proof.a);
            && a.Ok? && PoseidonChallenge(ec, ro, prefix, [a.value]) == Ok(proof.c)
            && Times(ec, proof.s, ec.g) == ec.add(a.value, Times(ec, proof.c, y)) && Times(ec, proof.s, ec.g) != ec.zero
  {
    if FromAffine(ec, proof.a).Ok? {
      var a := FromAffine(ec, proof.a).value;
      EqualAffineCompares(ec, Times(ec, proof.s, ec.g), ec.add(a, Times(ec, proof.c, y)));
    }
  }

  /** Extraction: two accepted proofs with one commitment and different
      challenges give an exponent of y. */
  lemma Sound<P(!new)>(ec: Curve<P>, ro: Oracle, ro': Oracle, y: P,
                       proof: Proof, prefix: nat, proof': Proof, prefix': nat)
    requires Lawful(ec)
    requires Verify(ec, ro, y, proof, prefix) == Ok(true)
    requires Verify(ec, ro', y, proof', prefix') == Ok(true)
    requires proof.a == proof'.a && Mod(proof.c, ec.n) != Mod(proof'.c, ec.n)
    ensures y == Times(ec, Witness(ec.n, proof.c, proof.s, proof'.c, proof'.s), ec.g)
  {
    VerifyMeans(ec, ro, y, proof, prefix);
    VerifyMeans(ec, ro', y, proof', prefix');
    ExtractSingle(ec, ec.g, FromAffine(ec, proof.a).value, y, proof.c, proof.s, proof'.c, proof'.s);
  }

  /** (t - a) / c. */
  function Solution<P>(ec: Curve<P>, a: P, t: P, c: nat): P
    requires IsPrime(ec.n) && Mod(c, ec.n) != 0
  {
    Times(ec, ModInverse(Mod(c, ec.n), ec.n), Sub(ec, t, a))
  }

  /** t == a + c*y has exactly one solution y. */
  lemma SolutionSolves<P(!new)>(ec: Curve<P>, a: P, t: P, c: nat, y: P)
    requires Lawful(ec) && Mod(c, ec.n) != 0
    ensures t == ec.add(a, Times(ec, c, y)) <==> y == Solution(ec, a, t, c)
  {
    var d, u := Mod(c, ec.n), Sub(ec, t, a);
    var e := ModInverse(d, ec.n);
    TimesMod(ec, c, y);
    Unscale(ec, d, e, y);
    MulComm(d, e);
    Unscale(ec, e, d, u);
    AddSub(ec, t, a);
    AddSub(ec, Times(ec, c, y), a);
    assert Comm(ec, a, Times(ec, c, y)) && Comm(ec, a, u);
  }

  /** The challenge does not bind y: any commitment and response are a proof,
      for exactly one y, unless the challenge vanishes.  (Then it is one for
      every y or for none.) */
  lemma StatementOf<P(!new)>(ec: Curve<P>, ro: Oracle, y: P, a: P, s: nat, c: nat, prefix: nat)
    requires Lawful(ec) && a != ec.zero && PoseidonChallenge(ec, ro, prefix, [a]) == Ok(c)
    ensures Verify(ec, ro, y, Proof(ec.coords(a), s, c), prefix) == Ok(true) <==>
            && Mod(s, ec.n) != 0
            && if Mod(c, ec.n) != 0 then y == Solution(ec, a, Times(ec, s, ec.g), c) else Times(ec, s, ec.g) == a
  {
    AffineRoundTrip(ec, a, a);
    VerifyMeans(ec, ro, y, Proof(ec.coords(a), s, c), prefix);
    TimesIsZero(ec, s, ec.g);
    if Mod(c, ec.n) != 0 {
      SolutionSolves(ec, a, Times(ec, s, ec.g), c, y);
    } else {
      TimesIsZero(ec, c, y);
      ZeroLeft(ec, a);
    }
  }

  // ----- the prover's draw

  /** Two proofs of one statement are equal exactly when the draws were, modulo
      the order. */
  lemma DrawsShow<P(!new)>(ec: Curve<P>, ro: Oracle, x: nat, prefix: nat, r: nat, proof: Proof, r': nat, proof': Proof)
    requires Lawful(ec)
    requires Prove(ec, ro, x, prefix, r) == Ok((Times(ec, x, ec.g), proof))
    requires Prove(ec, ro, x, prefix, r') == Ok((Times(ec, x, ec.g), proof'))
    ensures proof == proof' <==> Mod(r, ec.n) == Mod(r', ec.n)
  {
    hide Lawful, Times, Mod, Response, PoseidonChallenge;
    if Mod(r, ec.n) == Mod(r', ec.n) {
      TimesCongruent(ec, r, r', ec.g);
    }
    ResponseInjective(ec.n, r, r', proof.c, x);
  }

  /** The honest proofs are exactly the accepted ones: each accepted proof with a
      reduced response is what the prover returns on the draw s - c*x. */
  lemma AcceptedIsHonest<P(!new)>(ec: Curve<P>, ro: Oracle, x: nat, prefix: nat, proof: Proof)
    requires Lawful(ec) && proof.s < ec.n && Verify(ec, ro, Times(ec, x, ec.g), proof, prefix) == Ok(true)
    ensures Prove(ec, ro, x, prefix, ScalarSub(ec.n, proof.s, ScalarMul(ec.n, proof.c, x))) == Ok((Times(ec, x, ec.g), proof))
  {
    var y := Times(ec, x, ec.g);
    VerifyMeans(ec, ro, y, proof, prefix);
    FromAffineFinite(ec, proof.a);
    var a := FromAffine(ec, proof.a).value;
    NonceCommitment(ec, proof.s, proof.c, x, ec.g);
    AddSub(ec, a, Times(ec, proof.c, y));
    ResponseOfNonce(ec.n, proof.s, proof.c, x);
  }
}

/** Okamoto's two-base proof: knowledge of x1, x2 with y = g1^x1 * g2^x2.  Its
    Pedersen challenge is not reduced modulo the order; the responses are. */
module Poe2 {
  import opened Numbers
  import opened Outcomes
  import opened Curve
  import opened Scalar
  import opened Transcript
  import opened Sigma
  import opened Poe

  datatype Proof2 = Proof2(a: Affine, s1: nat, s2: nat, c: nat)

  function Combine<P>(ec: Curve<P>, x1: nat, g1: P, x2: nat, g2: P): P {
    ec.add(Times(ec, x1, g1), Times(ec, x2, g2))
  }

  function VerifyInternal2<P(==)>(ec: Curve<P>, y: P, g1: P, g2: P, a: P, c: nat, s1: nat, s2: nat): Result<bool> {
    EqualAffine(ec, Combine(ec, s1, g1, s2, g2), ec.add(a, Times(ec, c, y)))
  }

  function Prove2<P(==)>(ec: Curve<P>, ro: Oracle, x1: nat, x2: nat, g1: P, g2: P, prefix: nat, k1: nat, k2: nat)
    : Result<(P, Proof2)>
  {
    var y := Combine(ec, x1, g1, x2, g2);
    var a := Combine(ec, k1, g1, k2, g2);
    var c :- PedersenChallenge(ec, ro, prefix, [a]);
    var s1 := Response(ec.n, k1, c, x1);
    var s2 := Response(ec.n, k2, c, x2);
    var affine :- ToAffine(ec, a);
    Ok((y, Proof2(affine, s1, s2, c)))
  }

  function Verify2<P(==)>(ec: Curve<P>, ro: Oracle, y: P, g1: P, g2: P, proof: Proof2, prefix: nat): Result<bool> {
    var a :- FromAffine(ec, proof.a);
    var c :- PedersenChallenge(ec, ro, prefix, [a]);
    if proof.c != c then Ok(false)
    else VerifyInternal2(ec, y, g1, g2, a, proof.c, proof.s1, proof.s2)
  }

  /** The honest two-base equation. */
  lemma CombineResponses<P(!new)>(ec: Curve<P>, k1: nat, k2: nat, c: nat, x1: nat, x2: nat, q1: P, q2: P)
    requires Lawful(ec)
    ensures Combine(ec, Response(ec.n, k1, c, x1), q1, Response(ec.n, k2, c, x2), q2)
         == ec.add(Combine(ec, k1, q1, k2, q2), Times(ec, c, Combine(ec, x1, q1, x2, q2)))
  {
    ResponseMul(ec, k1, c, x1, q1);
    ResponseMul(ec, k2, c, x2, q2);
    Interchange(ec, Times(ec, k1, q1), Times(ec, c, Times(ec, x1, q1)), Times(ec, k2, q2), Times(ec, c, Times(ec, x2, q2)));
    TimesSum(ec, c, Times(ec, x1, q1), Times(ec, x2, q2));
  }

  lemma Complete2<P(!new)>(ec: Curve<P>, ro: Oracle, x1: nat, x2: nat, g1: P, g2: P, prefix: nat, k1: nat, k2: nat)
    requires Lawful(ec)
    ensures match Prove2(ec, ro, x1, x2, g1, g2, prefix, k1, k2)
            case Err(e) => e == PointAtInfinity && Combine(ec, k1, g1, k2, g2) == ec.zero
            case Ok((y, proof)) =>
              && Combine(ec, k1, g1, k2, g2) != ec.zero
              && y == Combine(ec, x1, g1, x2, g2)
              && Verify2(ec, ro, y, g1, g2, proof, prefix) ==
                 if Combine(ec, proof.s1, g1, proof.s2, g2) == ec.zero then Err(PointAtInfinity) else Ok(true)
  {
    var a := Combine(ec, k1, g1, k2, g2);
    assert [a][0] == a;
    match Prove2(ec, ro, x1, x2, g1, g2, prefix, k1, k2)
    case Err(_) =>
    case Ok((y, proof)) =>
      AffineRoundTrip(ec, a, a);
      CombineResponses(ec, k1, k2, proof.c, x1, x2, g1, g2);
      EqualAffineCompares(ec, Combine(ec, proof.s1, g1, proof.s2, g2), ec.add(a, Times(ec, proof.c, y)));
  }

  lemma Sound2<P(!new)>(ec: Curve<P>, ro: Oracle, ro': Oracle, y: P, g1: P, g2: P,
                        proof: Proof2, prefix: nat, proof': Proof2, prefix': nat)
    requires Lawful(ec)
    requires Verify2(ec, ro, y, g1, g2, proof, prefix) == Ok(true)
    requires Verify2(ec, ro', y, g1, g2, proof', prefix') == Ok(true)
    requires proof.a == proof'.a && Mod(proof.c, ec.n) != Mod(proof'.c, ec.n)
    ensures y == Combine(ec, Witness(ec.n, proof.c, proof.s1, proof'.c, proof'.s1), g1,
                            Witness(ec.n, proof.c, proof.s2, proof'.c, proof'.s2), g2)
  {
    var a := FromAffine(ec, proof.a).value;
    EqualAffineCompares(ec, Combine(ec, proof.s1, g1, proof.s2, g2), ec.add(a, Times(ec, proof.c, y)));
    EqualAffineCompares(ec, Combine(ec, proof'.s1, g1, proof'.s2, g2), ec.add(a, Times(ec, proof'.c, y)));
    Extract(ec, g1, g2, a, y, proof.c, proof.s1, proof.s2, proof'.c, proof'.s1, proof'.s2);
  }

  /** Nor does this challenge bind y or the bases: any commitment and responses
      are a proof, for exactly one y, unless the challenge vanishes. */
  lemma StatementOf2<P(!new)>(ec: Curve<P>, ro: Oracle, y: P, g1: P, g2: P, a: P, s1: nat, s2: nat, c: nat, prefix: nat)
    requires Lawful(ec) && a != ec.zero && PedersenChallenge(ec, ro, prefix, [a]) == Ok(c)
    ensures var t := Combine(ec, s1, g1, s2, g2);
            Verify2(ec, ro, y, g1, g2, Proof2(ec.coords(a), s1, s2, c), prefix) == Ok(true) <==>
              && t != ec.zero
              && if Mod(c, ec.n) != 0 then y == Solution(ec, a, t, c) else t == a
  {
    var t := Combine(ec, s1, g1, s2, g2);
    AffineRoundTrip(ec, a, a);
    EqualAffineCompares(ec, t, ec.add(a, Times(ec, c, y)));
    if Mod(c, ec.n) != 0 {
      SolutionSolves(ec, a, t, c, y);
    } else {
      TimesIsZero(ec, c, y);
      ZeroLeft(ec, a);
    }
  }

  /** Two proofs of one statement are equal exactly when both draws were, modulo
      the order. */
  lemma DrawsShow2<P(!new)>(ec: Curve<P>, ro: Oracle, x1: nat, x2: nat, g1: P, g2: P, prefix: nat,
                            k1: nat, k2: nat, y: P, proof: Proof2, k1': nat, k2': nat, y': P, proof': Proof2)
    requires Lawful(ec)
    requires Prove2(ec, ro, x1, x2, g1, g2, prefix, k1, k2) == Ok((y, proof))
    requires Prove2(ec, ro, x1, x2, g1, g2, prefix, k1', k2') == Ok((y', proof'))
    ensures proof == proof' <==> Mod(k1, ec.n) == Mod(k1', ec.n) && Mod(k2, ec.n) == Mod(k2', ec.n)
  {
    hide Lawful, Times, Mod, Response, PedersenChallenge;
    if Mod(k1, ec.n) == Mod(k1', ec.n) && Mod(k2, ec.n) == Mod(k2', ec.n) {
      TimesCongruent(ec, k1, k1', g1);
      TimesCongruent(ec, k2, k2', g2);
    }
    ResponseInjective(ec.n, k1, k1', proof.c, x1);
    ResponseInjective(ec.n, k2, k2', proof.c, x2);
  }

  /** The commitment of nonces chosen from the responses. */
  lemma NonceCommitment2<P(!new)>(ec: Curve<P>, s1: nat, s2: nat, c: nat, x1: nat, x2: nat, g1: P, g2: P)
    requires Lawful(ec)
    ensures Combine(ec, ScalarSub(ec.n, s1, ScalarMul(ec.n, c, x1)), g1, ScalarSub(ec.n, s2, ScalarMul(ec.n, c, x2)), g2)
         == Sub(ec, Combine(ec, s1, g1, s2, g2), Times(ec, c, Combine(ec, x1, g1, x2, g2)))
  {
    NonceCommitment(ec, s1, c, x1, g1);
    NonceCommitment(ec, s2, c, x2, g2);
    SubPair(ec, Times(ec, s1, g1), Times(ec, s2, g2), Times(ec, c, Times(ec, x1, g1)), Times(ec, c, Times(ec, x2, g2)));
    TimesSum(ec, c, Times(ec, x1, g1), Times(ec, x2, g2));
  }

  /** The honest proofs are exactly the accepted ones with reduced responses. */
  lemma AcceptedIsHonest2<P(!new)>(ec: Curve<P>, ro: Oracle, x1: nat, x2: nat, g1: P, g2: P, prefix: nat, proof: Proof2)
    requires Lawful(ec) && proof.s1 < ec.n && proof.s2 < ec.n
    requires Verify2(ec, ro, Combine(ec, x1, g1, x2, g2), g1, g2, proof, prefix) == Ok(true)
    ensures Prove2(ec, ro, x1, x2, g1, g2, prefix, ScalarSub(ec.n, proof.s1, ScalarMul(ec.n, proof.c, x1)),
                   ScalarSub(ec.n, proof.s2, ScalarMul(ec.n, proof.c, x2))) == Ok((Combine(ec, x1, g1, x2, g2), proof))
  {
    var y, a := Combine(ec, x1, g1, x2, g2), FromAffine(ec, proof.a).value;
    FromAffineFinite(ec, proof.a);
    EqualAffineCompares(ec, Combine(ec, proof.s1, g1, proof.s2, g2), ec.add(a, Times(ec, proof.c, y)));
    NonceCommitment2(ec, proof.s1, proof.s2, proof.c, x1, x2, g1, g2);
    AddSub(ec, a, Times(ec, proof.c, y));
    ResponseOfNonce(ec.n, proof.s1, proof.c, x1);
    ResponseOfNonce(ec.n, proof.s2, proof.c, x2);
  }
}

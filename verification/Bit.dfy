/** OR proof that V = g1^b * g2^r commits to a bit. */
module Bit {
  import opened Numbers
  import opened Outcomes
  import opened Curve
  import opened Scalar
  import opened Transcript
  import opened Sigma
  import opened Poe
  import opened Poe2

  datatype BitProof = BitProof(a0: Affine, a1: Affine, c0: nat, s0: nat, s1: nat)

  /** Random draws of one proof: response and challenge of the simulated
      branch, nonce of the real one. */
  datatype Draws = Draws(s: nat, c: nat, k: nat)

  const NOT_A_BIT: KmsError := CryptoError("Bit must be 0 or 1")

  /** A = gen^s - y^c, so that gen^s = A + y^c without knowing log y. */
  function SimulatePoe<P(==)>(ec: Curve<P>, y: P, gen: P, s: nat, c: nat): Result<P> {
    var neg :- Negate(ec, Times(ec, c, y));
    Ok(ec.add(Times(ec, s, gen), neg))
  }

  function ProveBit0<P(==)>(ec: Curve<P>, ro: Oracle, random: nat, g1: P, g2: P, prefix: nat,
                            draws: Draws): Result<(P, BitProof)> {
    var v := Times(ec, random, g2);
    var negG1 :- Negate(ec, g1);
    var v1 := ec.add(v, negG1);
    var a1 :- SimulatePoe(ec, v1, g2, draws.s, draws.c);
    var a0 := Times(ec, draws.k, g2);
    var c :- PoseidonChallenge(ec, ro, prefix, [v, a0, a1]);
    var c0 := ScalarSub(ec.n, c, draws.c);
    var s0 := Response(ec.n, draws.k, c0, random);
    var p0 :- ToAffine(ec, a0);
    var p1 :- ToAffine(ec, a1);
    Ok((v, BitProof(p0, p1, c0, s0, draws.s)))
  }

  function ProveBit1<P(==)>(ec: Curve<P>, ro: Oracle, random: nat, g1: P, g2: P, prefix: nat,
                            draws: Draws): Result<(P, BitProof)> {
    var v := ec.add(g1, Times(ec, random, g2));
    var a0 :- SimulatePoe(ec, v, g2, draws.s, draws.c);
    var a1 := Times(ec, draws.k, g2);
    var c :- PoseidonChallenge(ec, ro, prefix, [v, a0, a1]);
    var c1 := ScalarSub(ec.n, c, draws.c);
    var s1 := Response(ec.n, draws.k, c1, random);
    var p0 :- ToAffine(ec, a0);
    var p1 :- ToAffine(ec, a1);
    Ok((v, BitProof(p0, p1, draws.c, draws.s, s1)))
  }

  function Prove<P(==)>(ec: Curve<P>, ro: Oracle, bit: nat, random: nat, g1: P, g2: P, prefix: nat,
                        draws: Draws): Result<(P, BitProof)> {
    if bit == 0 then ProveBit0(ec, ro, random, g1, g2, prefix, draws)
    else if bit == 1 then ProveBit1(ec, ro, random, g1, g2, prefix, draws)
    else Err(NOT_A_BIT)
  }

  function Verify<P(==)>(ec: Curve<P>, ro: Oracle, v: P, g1: P, g2: P, proof: BitProof, prefix: nat): Result<bool> {
    var a0 :- FromAffine(ec, proof.a0);
    var a1 :- FromAffine(ec, proof.a1);
    var c :- PoseidonChallenge(ec, ro, prefix, [v, a0, a1]);
    var c1 := ScalarSub(ec.n, c, proof.c0);
    var first :- VerifyInternal(ec, v, g2, a0, proof.c0, proof.s0);
    if !first then Ok(false)
    else
      var negG1 :- Negate(ec, g1);
      VerifyInternal(ec, ec.add(v, negG1), g2, a1, c1, proof.s1)
  }

  // ----- what a transcript says

  /** Both branch equations, for the challenge split c0 + c1 = c. */
  ghost predicate Branches<P>(ec: Curve<P>, v: P, g1: P, g2: P, a0: P, a1: P, c: nat, proof: BitProof) {
    && Times(ec, proof.s0, g2) == ec.add(a0, Times(ec, proof.c0, v))
    && Times(ec, proof.s1, g2) == ec.add(a1, Times(ec, ScalarSub(ec.n, c, proof.c0), Sub(ec, v, g1)))
  }

  /** The verifier's answer on parsed points, in terms of the equations. */
  lemma VerifyMeans<P(!new)>(ec: Curve<P>, ro: Oracle, v: P, g1: P, g2: P, proof: BitProof, prefix: nat, a0: P, a1: P,
                             c: nat)
    requires Lawful(ec)
    requires FromAffine(ec, proof.a0) == Ok(a0) && FromAffine(ec, proof.a1) == Ok(a1)
    requires PoseidonChallenge(ec, ro, prefix, [v, a0, a1]) == Ok(c)
    ensures Verify(ec, ro, v, g1, g2, proof, prefix) == Ok(true) <==>
              && Branches(ec, v, g1, g2, a0, a1, c, proof)
              && g1 != ec.zero && Times(ec, proof.s0, g2) != ec.zero && Times(ec, proof.s1, g2) != ec.zero
    ensures Branches(ec, v, g1, g2, a0, a1, c, proof)
            ==> Verify(ec, ro, v, g1, g2, proof, prefix) in {Ok(true), Err(PointAtInfinity)}
  {
    var c1 := ScalarSub(ec.n, c, proof.c0);
    NegateIsNeg(ec, g1);
    EqualAffineCompares(ec, Times(ec, proof.s0, g2), ec.add(a0, Times(ec, proof.c0, v)));
    EqualAffineCompares(ec, Times(ec, proof.s1, g2), ec.add(a1, Times(ec, c1, Sub(ec, v, g1))));
  }

  // ----- completeness

  /** A simulated transcript satisfies its equation. */
  lemma Simulated<P(!new)>(ec: Curve<P>, y: P, gen: P, s: nat, c: nat)
    requires Lawful(ec)
    ensures match SimulatePoe(ec, y, gen, s, c)
            case Err(e) => e == PointAtInfinity && Times(ec, c, y) == ec.zero
            case Ok(a) =>
              && Times(ec, c, y) != ec.zero
              && a == Sub(ec, Times(ec, s, gen), Times(ec, c, y))
              && Times(ec, s, gen) == ec.add(a, Times(ec, c, y))
  {
    NegateIsNeg(ec, Times(ec, c, y));
    AddSub(ec, Times(ec, s, gen), Times(ec, c, y));
  }

  /** c - (c - d) is d modulo the order. */
  lemma SplitChallenge(n: Pos, c: nat, d: nat)
    ensures ScalarSub(n, c, ScalarSub(n, c, d)) == Mod(d, n)
  {
  }

  lemma CommitBit<P(!new)>(ec: Curve<P>, r: nat, g1: P, g2: P)
    requires Lawful(ec)
    ensures Combine(ec, 0, g1, r, g2) == Times(ec, r, g2)
    ensures Combine(ec, 1, g1, r, g2) == ec.add(g1, Times(ec, r, g2))
    ensures Sub(ec, Combine(ec, 1, g1, r, g2), g1) == Times(ec, r, g2)
  {
    ZeroLeft(ec, Times(ec, r, g2));
    TimesOne(ec, g1);
    assert Comm(ec, g1, Times(ec, r, g2));
    AddSub(ec, Times(ec, r, g2), g1);
  }

  /** What an honest proof carries: its commitments parse back, its challenge
      is the verifier's, and both equations hold. */
  ghost predicate Honest<P>(ec: Curve<P>, ro: Oracle, v: P, g1: P, g2: P, prefix: nat, proof: BitProof) {
    && FromAffine(ec, proof.a0).Ok? && FromAffine(ec, proof.a1).Ok?
    && var a0, a1 := FromAffine(ec, proof.a0).value, FromAffine(ec, proof.a1).value;
       var c := PoseidonChallenge(ec, ro, prefix, [v, a0, a1]);
       c.Ok? && Branches(ec, v, g1, g2, a0, a1, c.value, proof)
  }

  lemma HonestBit0<P(!new)>(ec: Curve<P>, ro: Oracle, random: nat, g1: P, g2: P, prefix: nat, draws: Draws, v: P,
                            proof: BitProof)
    requires Lawful(ec) && ProveBit0(ec, ro, random, g1, g2, prefix, draws) == Ok((v, proof))
    ensures v == Combine(ec, 0, g1, random, g2) && g1 != ec.zero && Honest(ec, ro, v, g1, g2, prefix, proof)
  {
    NegateIsNeg(ec, g1);
    var v1 := Sub(ec, v, g1);
    Simulated(ec, v1, g2, draws.s, draws.c);
    var a0, a1 := Times(ec, draws.k, g2), SimulatePoe(ec, v1, g2, draws.s, draws.c).value;
    var c := PoseidonChallenge(ec, ro, prefix, [v, a0, a1]).value;
    CommitBit(ec, random, g1, g2);
    AffineRoundTrip(ec, a0, a1);
    AffineRoundTrip(ec, a1, a0);
    ResponseMul(ec, draws.k, proof.c0, random, g2);
    SplitChallenge(ec.n, c, draws.c);
    TimesMod(ec, draws.c, v1);
    assert Branches(ec, v, g1, g2, a0, a1, c, proof);
  }

  lemma HonestBit1<P(!new)>(ec: Curve<P>, ro: Oracle, random: nat, g1: P, g2: P, prefix: nat, draws: Draws, v: P,
                            proof: BitProof)
    requires Lawful(ec) && ProveBit1(ec, ro, random, g1, g2, prefix, draws) == Ok((v, proof))
    ensures v == Combine(ec, 1, g1, random, g2) && Honest(ec, ro, v, g1, g2, prefix, proof)
  {
    Simulated(ec, v, g2, draws.s, draws.c);
    var a0, a1 := SimulatePoe(ec, v, g2, draws.s, draws.c).value, Times(ec, draws.k, g2);
    var c := PoseidonChallenge(ec, ro, prefix, [v, a0, a1]).value;
    CommitBit(ec, random, g1, g2);
    AffineRoundTrip(ec, a0, a1);
    AffineRoundTrip(ec, a1, a0);
    ResponseMul(ec, draws.k, ScalarSub(ec.n, c, draws.c), random, g2);
    assert Branches(ec, v, g1, g2, a0, a1, c, proof);
  }

  /** Completeness: a proof the prover returns commits to the bit and never
      fails an equation, simulated branch included; the verifier accepts it
      unless a point it compares or negates is the point at infinity. */
  lemma Complete<P(!new)>(ec: Curve<P>, ro: Oracle, bit: nat, random: nat, g1: P, g2: P, prefix: nat, draws: Draws,
                          v: P, proof: BitProof)
    requires Lawful(ec) && Prove(ec, ro, bit, random, g1, g2, prefix, draws) == Ok((v, proof))
    ensures bit <= 1 && v == Combine(ec, bit, g1, random, g2) && v != ec.zero
    ensures FromAffine(ec, ec.coords(v)) == Ok(v)
    ensures Verify(ec, ro, v, g1, g2, proof, prefix) ==
            if g1 == ec.zero || Times(ec, proof.s0, g2) == ec.zero || Times(ec, proof.s1, g2) == ec.zero
            then Err(PointAtInfinity) else Ok(true)
  {
    if bit == 0 {
      HonestBit0(ec, ro, random, g1, g2, prefix, draws, v, proof);
    } else {
      HonestBit1(ec, ro, random, g1, g2, prefix, draws, v, proof);
    }
    var a0, a1 := FromAffine(ec, proof.a0).value, FromAffine(ec, proof.a1).value;
    var c := PoseidonChallenge(ec, ro, prefix, [v, a0, a1]).value;
    VerifyMeans(ec, ro, v, g1, g2, proof, prefix, a0, a1, c);
    assert [v, a0, a1][0] == v;
    AffineRoundTrip(ec, v, v);
  }

  /** The prover fails only on a non-bit or the point at infinity. */
  lemma ProveErrors<P(!new)>(ec: Curve<P>, ro: Oracle, bit: nat, random: nat, g1: P, g2: P, prefix: nat, draws: Draws)
    requires Lawful(ec) && Prove(ec, ro, bit, random, g1, g2, prefix, draws).Err?
    ensures Prove(ec, ro, bit, random, g1, g2, prefix, draws).error == if bit <= 1 then PointAtInfinity else NOT_A_BIT
  {
    NegateIsNeg(ec, g1);
    Simulated(ec, Sub(ec, Times(ec, random, g2), g1), g2, draws.s, draws.c);
    Simulated(ec, ec.add(g1, Times(ec, random, g2)), g2, draws.s, draws.c);
  }

  // ----- extraction

  /** The challenge a verifier recomputes for a proof. */
  function TotalChallenge<P(==)>(ec: Curve<P>, ro: Oracle, v: P, proof: BitProof, prefix: nat): Result<nat> {
    var a0 :- FromAffine(ec, proof.a0);
    var a1 :- FromAffine(ec, proof.a1);
    PoseidonChallenge(ec, ro, prefix, [v, a0, a1])
  }

  lemma SplitsDiffer(n: Pos, c: nat, c0: nat, c': nat, c0': nat)
    requires Mod(c, n) != Mod(c', n) && Mod(c0, n) == Mod(c0', n)
    ensures Mod(ScalarSub(n, c, c0), n) != Mod(ScalarSub(n, c', c0'), n)
  {
    SubThenAdd(n, c, c0);
    SubThenAdd(n, c', c0');
  }

  /** Bit and randomness read off two transcripts: since c0 + c1 = c, some
      branch got two different challenges. */
  function Opening(n: Pos, c: nat, proof: BitProof, c': nat, proof': BitProof): (b: (nat, nat))
    requires IsPrime(n) && Mod(c, n) != Mod(c', n)
    ensures b.0 <= 1
  {
    if Mod(proof.c0, n) != Mod(proof'.c0, n) then
      (0, Witness(n, proof.c0, proof.s0, proof'.c0, proof'.s0))
    else
      assert Mod(ScalarSub(n, c, proof.c0), n) != Mod(ScalarSub(n, c', proof'.c0), n) by {
        SplitsDiffer(n, c, proof.c0, c', proof'.c0);
      }
      (1, Witness(n, ScalarSub(n, c, proof.c0), proof.s1, ScalarSub(n, c', proof'.c0), proof'.s1))
  }

  /** Extraction on the equations. */
  lemma OpeningOpens<P(!new)>(ec: Curve<P>, v: P, g1: P, g2: P, a0: P, a1: P,
                              c: nat, proof: BitProof, c': nat, proof': BitProof)
    requires Lawful(ec) && Mod(c, ec.n) != Mod(c', ec.n)
    requires Branches(ec, v, g1, g2, a0, a1, c, proof) && Branches(ec, v, g1, g2, a0, a1, c', proof')
    ensures var o := Opening(ec.n, c, proof, c', proof');
            v == Combine(ec, o.0, g1, o.1, g2)
  {
    var o := Opening(ec.n, c, proof, c', proof');
    CommitBit(ec, o.1, g1, g2);
    if o.0 == 0 {
      ExtractSingle(ec, g2, a0, v, proof.c0, proof.s0, proof'.c0, proof'.s0);
    } else {
      var c1, c1' := ScalarSub(ec.n, c, proof.c0), ScalarSub(ec.n, c', proof'.c0);
      ExtractSingle(ec, g2, a1, Sub(ec, v, g1), c1, proof.s1, c1', proof'.s1);
      AddSub(ec, v, g1);
      assert Comm(ec, g1, Times(ec, o.1, g2));
    }
  }

  /** Extraction: two accepted proofs for one V with the same A0, A1 and
      different total challenges open V as a commitment to a bit. */
  lemma Sound<P(!new)>(ec: Curve<P>, ro: Oracle, ro': Oracle, v: P, g1: P, g2: P,
                       proof: BitProof, prefix: nat, proof': BitProof, prefix': nat, c: nat, c': nat)
    requires Lawful(ec)
    requires Verify(ec, ro, v, g1, g2, proof, prefix) == Ok(true)
    requires Verify(ec, ro', v, g1, g2, proof', prefix') == Ok(true)
    requires proof.a0 == proof'.a0 && proof.a1 == proof'.a1
    requires TotalChallenge(ec, ro, v, proof, prefix) == Ok(c)
    requires TotalChallenge(ec, ro', v, proof', prefix') == Ok(c')
    requires Mod(c, ec.n) != Mod(c', ec.n)
    ensures var o := Opening(ec.n, c, proof, c', proof');
            v == Combine(ec, o.0, g1, o.1, g2)
  {
    var a0, a1 := FromAffine(ec, proof.a0).value, FromAffine(ec, proof.a1).value;
    VerifyMeans(ec, ro, v, g1, g2, proof, prefix, a0, a1, c);
    VerifyMeans(ec, ro', v, g1, g2, proof', prefix', a0, a1, c');
    OpeningOpens(ec, v, g1, g2, a0, a1, c, proof, c', proof');
  }

  // ----- hiding the bit

  ghost predicate FeltDraws(p: nat, draws: Draws) {
    draws.s < p && draws.c < p && draws.k < p
  }

  /** Some run of the bit-1 prover on opening r' outputs this proof. */
  ghost predicate Bit1Outputs<P>(ec: Curve<P>, ro: Oracle, r': nat, g1: P, g2: P, prefix: nat, v: P, proof: BitProof) {
    exists draws :: FeltDraws(ec.p, draws) && ProveBit1(ec, ro, r', g1, g2, prefix, draws) == Ok((v, proof))
  }

  ghost predicate Bit0Outputs<P>(ec: Curve<P>, ro: Oracle, r: nat, g1: P, g2: P, prefix: nat, v: P, proof: BitProof) {
    exists draws :: FeltDraws(ec.p, draws) && ProveBit0(ec, ro, r, g1, g2, prefix, draws) == Ok((v, proof))
  }

  /** The draws that make the bit-1 prover repeat a bit-0 proof. */
  function MirrorDraws(n: Pos, r': nat, c: nat, proof: BitProof): Draws {
    Draws(proof.s0, proof.c0, ScalarSub(n, proof.s1, ScalarMul(n, ScalarSub(n, c, proof.c0), r')))
  }

  /** A commitment that opens both ways: the proof the bit-0 prover returned is
      one the bit-1 prover returns too, exactly when the simulated response
      happens to be reduced and the real challenge is nonzero. */
  lemma Bit0ProofHidesBit<P(!new)>(ec: Curve<P>, ro: Oracle, r: nat, r': nat, g1: P, g2: P, prefix: nat, draws: Draws,
                                   v: P, proof: BitProof)
    requires Lawful(ec)
    requires Times(ec, r, g2) == ec.add(g1, Times(ec, r', g2))
    requires ProveBit0(ec, ro, r, g1, g2, prefix, draws) == Ok((v, proof))
    ensures Bit1Outputs(ec, ro, r', g1, g2, prefix, v, proof) <==> proof.s1 < ec.n && proof.c0 != 0
  {
    NegateIsNeg(ec, g1);
    var v1 := Sub(ec, v, g1);
    Simulated(ec, v1, g2, draws.s, draws.c);
    var a0, a1 := Times(ec, draws.k, g2), SimulatePoe(ec, v1, g2, draws.s, draws.c).value;
    var c := PoseidonChallenge(ec, ro, prefix, [v, a0, a1]).value;
    assert [v, a0, a1][0] == v;
    TimesIsZero(ec, proof.c0, v);
    Simulated(ec, v, g2, proof.s0, proof.c0);
    if proof.s1 < ec.n && proof.c0 != 0 {
      var mirror := MirrorDraws(ec.n, r', c, proof);
      CommitBit(ec, r', g1, g2);
      assert v1 == Times(ec, r', g2);
      SplitChallenge(ec.n, c, draws.c);
      var c1 := ScalarSub(ec.n, c, proof.c0);
      TimesMod(ec, draws.c, v1);
      NonceCommitment(ec, proof.s1, c1, r', g2);
      ResponseMul(ec, draws.k, proof.c0, r, g2);
      AddSub(ec, a0, Times(ec, proof.c0, v));
      ResponseOfNonce(ec.n, proof.s1, c1, r');
      assert ProveBit1(ec, ro, r', g1, g2, prefix, mirror) == Ok((v, proof));
    }
    if Bit1Outputs(ec, ro, r', g1, g2, prefix, v, proof) {
      var d :| FeltDraws(ec.p, d) && ProveBit1(ec, ro, r', g1, g2, prefix, d) == Ok((v, proof));
      Simulated(ec, v, g2, d.s, d.c);
    }
  }

  /** Draws with which the bit-0 prover repeats a transcript. */
  lemma RepeatAsBit0<P(!new)>(ec: Curve<P>, ro: Oracle, r: nat, g1: P, g2: P, prefix: nat,
                              v: P, proof: BitProof, a0: P, a1: P, c: nat)
    requires Lawful(ec) && g1 != ec.zero && v == Times(ec, r, g2) && c < ec.n
    requires a0 != ec.zero && a1 != ec.zero && ec.coords(a0) == proof.a0 && ec.coords(a1) == proof.a1
    requires PoseidonChallenge(ec, ro, prefix, [v, a0, a1]) == Ok(c)
    requires Branches(ec, v, g1, g2, a0, a1, c, proof)
    requires proof.s0 < ec.n && proof.c0 < ec.n && proof.s1 < ec.n
    requires Times(ec, ScalarSub(ec.n, c, proof.c0), Sub(ec, v, g1)) != ec.zero
    ensures Bit0Outputs(ec, ro, r, g1, g2, prefix, v, proof)
  {
    var c1, v1 := ScalarSub(ec.n, c, proof.c0), Sub(ec, v, g1);
    var mirror := Draws(proof.s1, c1, ScalarSub(ec.n, proof.s0, ScalarMul(ec.n, proof.c0, r)));
    NegateIsNeg(ec, g1);
    Simulated(ec, v1, g2, proof.s1, c1);
    AddSub(ec, a1, Times(ec, c1, v1));
    NonceCommitment(ec, proof.s0, proof.c0, r, g2);
    AddSub(ec, a0, Times(ec, proof.c0, v));
    SplitChallenge(ec.n, c, proof.c0);
    ResponseOfNonce(ec.n, proof.s0, proof.c0, r);
    assert ProveBit0(ec, ro, r, g1, g2, prefix, mirror) == Ok((v, proof));
  }

  /** The other way round: also the mirrored branch must not vanish, and both
      raw draws of the bit-1 prover must be reduced. */
  lemma Bit1ProofHidesBit<P(!new)>(ec: Curve<P>, ro: Oracle, r: nat, r': nat, g1: P, g2: P, prefix: nat, draws: Draws,
                                   v: P, proof: BitProof, c: nat)
    requires Lawful(ec) && g1 != ec.zero && g2 != ec.zero
    requires Times(ec, r, g2) == ec.add(g1, Times(ec, r', g2))
    requires ProveBit1(ec, ro, r', g1, g2, prefix, draws) == Ok((v, proof))
    requires TotalChallenge(ec, ro, v, proof, prefix) == Ok(c)
    ensures Bit0Outputs(ec, ro, r, g1, g2, prefix, v, proof) <==>
            proof.s0 < ec.n && proof.c0 < ec.n && proof.c0 != c && Mod(r', ec.n) != 0
  {
    HonestBit1(ec, ro, r', g1, g2, prefix, draws, v, proof);
    CommitBit(ec, r', g1, g2);
    var c1, v1 := ScalarSub(ec.n, c, proof.c0), Sub(ec, v, g1);
    var a0, a1 := FromAffine(ec, proof.a0).value, FromAffine(ec, proof.a1).value;
    FromAffineFinite(ec, proof.a0);
    FromAffineFinite(ec, proof.a1);
    SubIsZero(ec.n, c, proof.c0);
    TimesIsZero(ec, c1, v1);
    TimesIsZero(ec, r', g2);
    if proof.s0 < ec.n && proof.c0 < ec.n && proof.c0 != c && Mod(r', ec.n) != 0 {
      RepeatAsBit0(ec, ro, r, g1, g2, prefix, v, proof, a0, a1, c);
    }
    if Bit0Outputs(ec, ro, r, g1, g2, prefix, v, proof) {
      var d :| FeltDraws(ec.p, d) && ProveBit0(ec, ro, r, g1, g2, prefix, d) == Ok((v, proof));
      Bit0Reads(ec, ro, r, g1, g2, prefix, d, v, proof, a0, a1, c);
      TimesMod(ec, d.c, v1);
    }
  }

  /** What a bit-0 proof shows of its draws. */
  lemma Bit0Reads<P(!new)>(ec: Curve<P>, ro: Oracle, r: nat, g1: P, g2: P, prefix: nat, d: Draws,
                           v: P, proof: BitProof, a0: P, a1: P, c: nat)
    requires Lawful(ec) && ProveBit0(ec, ro, r, g1, g2, prefix, d) == Ok((v, proof))
    requires FromAffine(ec, proof.a0) == Ok(a0) && FromAffine(ec, proof.a1) == Ok(a1)
    requires PoseidonChallenge(ec, ro, prefix, [v, a0, a1]) == Ok(c)
    ensures proof.c0 == ScalarSub(ec.n, c, d.c) && proof.s0 < ec.n
    ensures Times(ec, d.c, Sub(ec, v, g1)) != ec.zero
    ensures ScalarSub(ec.n, c, proof.c0) == Mod(d.c, ec.n)
  {
    NegateIsNeg(ec, g1);
    var v1 := Sub(ec, v, g1);
    Simulated(ec, v1, g2, d.s, d.c);
    var b0, b1 := Times(ec, d.k, g2), SimulatePoe(ec, v1, g2, d.s, d.c).value;
    AffineRoundTrip(ec, b0, b1);
    AffineRoundTrip(ec, b1, b0);
    SplitChallenge(ec.n, c, d.c);
  }

  // ----- the prover's draws

  /** What a bit-0 proof consists of. */
  lemma Bit0Makes<P(!new)>(ec: Curve<P>, ro: Oracle, r: nat, g1: P, g2: P, prefix: nat, d: Draws, v: P, proof: BitProof)
    requires Lawful(ec) && ProveBit0(ec, ro, r, g1, g2, prefix, d) == Ok((v, proof))
    ensures var a0, a1 := Times(ec, d.k, g2), Sub(ec, Times(ec, d.s, g2), Times(ec, d.c, Sub(ec, v, g1)));
            && v == Times(ec, r, g2) && a0 != ec.zero && a1 != ec.zero
            && proof.a0 == ec.coords(a0) && proof.a1 == ec.coords(a1) && proof.s1 == d.s
            && PoseidonChallenge(ec, ro, prefix, [v, a0, a1]).Ok?
            && proof.c0 == ScalarSub(ec.n, PoseidonChallenge(ec, ro, prefix, [v, a0, a1]).value, d.c)
            && proof.s0 == Response(ec.n, d.k, proof.c0, r)
  {
    NegateIsNeg(ec, g1);
    Simulated(ec, Sub(ec, v, g1), g2, d.s, d.c);
  }

  /** What a bit-1 proof consists of. */
  lemma Bit1Makes<P(!new)>(ec: Curve<P>, ro: Oracle, r: nat, g1: P, g2: P, prefix: nat, d: Draws, v: P, proof: BitProof)
    requires Lawful(ec) && ProveBit1(ec, ro, r, g1, g2, prefix, d) == Ok((v, proof))
    ensures var a0, a1 := Sub(ec, Times(ec, d.s, g2), Times(ec, d.c, v)), Times(ec, d.k, g2);
            && v == ec.add(g1, Times(ec, r, g2)) && a0 != ec.zero && a1 != ec.zero
            && proof.a0 == ec.coords(a0) && proof.a1 == ec.coords(a1) && proof.s0 == d.s && proof.c0 == d.c
            && PoseidonChallenge(ec, ro, prefix, [v, a0, a1]).Ok?
            && proof.s1 == Response(ec.n, d.k, ScalarSub(ec.n, PoseidonChallenge(ec, ro, prefix, [v, a0, a1]).value, d.c), r)
  {
    Simulated(ec, v, g2, d.s, d.c);
  }

  lemma SubInjective(n: Pos, c: nat, d: nat, d': nat)
    ensures ScalarSub(n, c, d) == ScalarSub(n, c, d') <==> Mod(d, n) == Mod(d', n)
  {
    SplitChallenge(n, c, d);
    SplitChallenge(n, c, d');
  }

  /** Two bit-0 proofs of one commitment are equal exactly when the draws were:
      the raw response, and challenge and nonce modulo the order. */
  lemma Bit0DrawsShow<P(!new)>(ec: Curve<P>, ro: Oracle, r: nat, g1: P, g2: P, prefix: nat,
                               d: Draws, v: P, proof: BitProof, d': Draws, v': P, proof': BitProof)
    requires Lawful(ec) && g2 != ec.zero
    requires ProveBit0(ec, ro, r, g1, g2, prefix, d) == Ok((v, proof))
    requires ProveBit0(ec, ro, r, g1, g2, prefix, d') == Ok((v', proof'))
    ensures proof == proof' <==> d.s == d'.s && Mod(d.c, ec.n) == Mod(d'.c, ec.n) && Mod(d.k, ec.n) == Mod(d'.k, ec.n)
  {
    Bit0Makes(ec, ro, r, g1, g2, prefix, d, v, proof);
    Bit0Makes(ec, ro, r, g1, g2, prefix, d', v', proof');
    var v1 := Sub(ec, v, g1);
    var a0, a1 := Times(ec, d.k, g2), Sub(ec, Times(ec, d.s, g2), Times(ec, d.c, v1));
    var a0', a1' := Times(ec, d'.k, g2), Sub(ec, Times(ec, d'.s, g2), Times(ec, d'.c, v1));
    hide Lawful, ProveBit0, PoseidonChallenge, Times, Mod, Response, ScalarSub;
    var c := PoseidonChallenge(ec, ro, prefix, [v, a0, a1]).value;
    SubInjective(ec.n, c, d.c, d'.c);
    ResponseInjective(ec.n, d.k, d'.k, proof.c0, r);
    if proof == proof' {
      AffineRoundTrip(ec, a0, a0');
      AffineRoundTrip(ec, a1, a1');
      TimesInjective(ec, d.k, d'.k, g2);
    } else if Mod(d.c, ec.n) == Mod(d'.c, ec.n) && Mod(d.k, ec.n) == Mod(d'.k, ec.n) {
      TimesCongruent(ec, d.k, d'.k, g2);
      TimesCongruent(ec, d.c, d'.c, v1);
    }
  }

  /** For bit-1 proofs: the raw response and challenge, and the nonce modulo the
      order. */
  lemma Bit1DrawsShow<P(!new)>(ec: Curve<P>, ro: Oracle, r: nat, g1: P, g2: P, prefix: nat,
                               d: Draws, v: P, proof: BitProof, d': Draws, v': P, proof': BitProof)
    requires Lawful(ec) && g2 != ec.zero
    requires ProveBit1(ec, ro, r, g1, g2, prefix, d) == Ok((v, proof))
    requires ProveBit1(ec, ro, r, g1, g2, prefix, d') == Ok((v', proof'))
    ensures proof == proof' <==> d.s == d'.s && d.c == d'.c && Mod(d.k, ec.n) == Mod(d'.k, ec.n)
  {
    Bit1Makes(ec, ro, r, g1, g2, prefix, d, v, proof);
    Bit1Makes(ec, ro, r, g1, g2, prefix, d', v', proof');
    hide Lawful, ProveBit1, PoseidonChallenge, Mod, Response, ScalarSub;
    var a1, a1' := Times(ec, d.k, g2), Times(ec, d'.k, g2);
    if proof == proof' {
      AffineRoundTrip(ec, a1, a1');
      TimesInjective(ec, d.k, d'.k, g2);
    } else if d.s == d'.s && d.c == d'.c && Mod(d.k, ec.n) == Mod(d'.k, ec.n) {
      TimesCongruent(ec, d.k, d'.k, g2);
      var c := PoseidonChallenge(ec, ro, prefix, [v, Sub(ec, Times(ec, d.s, g2), Times(ec, d.c, v)), a1]).value;
      ResponseInjective(ec.n, d.k, d'.k, ScalarSub(ec.n, c, d.c), r);
    }
  }

  /** What the challenge hashes: the prefix, V and both commitments. */
  function ChallengeFelts<P>(ec: Curve<P>, v: P, proof: BitProof, prefix: nat): seq<nat> {
    [prefix, ec.coords(v).x, ec.coords(v).y, proof.a0.x, proof.a0.y, proof.a1.x, proof.a1.y]
  }

  /** Acceptance, exactly: finite V, commitments that parse, both branch equations
      for the recomputed challenge, and nothing compared or negated infinite. */
  lemma AcceptedMeans<P(!new)>(ec: Curve<P>, ro: Oracle, v: P, g1: P, g2: P, proof: BitProof, prefix: nat)
    requires Lawful(ec)
    ensures Verify(ec, ro, v, g1, g2, proof, prefix) == Ok(true) <==>
              var a0, a1 := FromAffine(ec, proof.a0), FromAffine(ec, proof.a1);
              var c := Mod(ro.poseidon(ChallengeFelts(ec, v, proof, prefix)), ec.n);
              && v != ec.zero && a0.Ok? && a1.Ok? && Branches(ec, v, g1, g2, a0.value, a1.value, c, proof)
              && g1 != ec.zero && Times(ec, proof.s0, g2) != ec.zero && Times(ec, proof.s1, g2) != ec.zero
  {
    if FromAffine(ec, proof.a0).Ok? && FromAffine(ec, proof.a1).Ok? {
      var a0, a1 := FromAffine(ec, proof.a0).value, FromAffine(ec, proof.a1).value;
      ChallengeHashes(ec, ro, v, proof, prefix, a0, a1);
      hide Mod, Times, Branches, ChallengeFelts;
      if v != ec.zero {
        VerifyMeans(ec, ro, v, g1, g2, proof, prefix, a0, a1, Mod(ro.poseidon(ChallengeFelts(ec, v, proof, prefix)), ec.n));
      }
    }
  }

  lemma ChallengeHashes<P(!new)>(ec: Curve<P>, ro: Oracle, v: P, proof: BitProof, prefix: nat, a0: P, a1: P)
    requires Lawful(ec) && FromAffine(ec, proof.a0) == Ok(a0) && FromAffine(ec, proof.a1) == Ok(a1)
    ensures PoseidonChallenge(ec, ro, prefix, [v, a0, a1]) ==
            if v == ec.zero then Err(PointAtInfinity)
            else Ok(Mod(ro.poseidon(ChallengeFelts(ec, v, proof, prefix)), ec.n))
  {
    FromAffineFinite(ec, proof.a0);
    FromAffineFinite(ec, proof.a1);
    var points, felts := [v, a0, a1], ChallengeFelts(ec, v, proof, prefix);
    assert points[0] == v;
    if v != ec.zero {
      forall i | 0 <= i < |points|
        ensures felts[2 * i + 1] == ec.coords(points[i]).x && felts[2 * i + 2] == ec.coords(points[i]).y
      {
        assert i == 0 || i == 1 || i == 2;
      }
      PoseidonHashes(ec, ro, prefix, points, felts);
    }
  }

  /** One proof accepted for one V under two prefixes: V is g1, or these two
      challenges collide. */
  lemma ProofBindsPrefix<P(!new)>(ec: Curve<P>, ro: Oracle, v: P, g1: P, g2: P, proof: BitProof, prefix: nat, prefix': nat)
    requires Lawful(ec) && prefix != prefix'
    requires Verify(ec, ro, v, g1, g2, proof, prefix) == Ok(true)
    requires Verify(ec, ro, v, g1, g2, proof, prefix') == Ok(true)
    ensures v == g1 || CollideMod(ro, ec.n, ChallengeFelts(ec, v, proof, prefix), ChallengeFelts(ec, v, proof, prefix'))
  {
    AcceptedMeans(ec, ro, v, g1, g2, proof, prefix);
    AcceptedMeans(ec, ro, v, g1, g2, proof, prefix');
    var f, f' := ChallengeFelts(ec, v, proof, prefix), ChallengeFelts(ec, v, proof, prefix');
    assert f[0] != f'[0];
    var c, c' := Mod(ro.poseidon(f), ec.n), Mod(ro.poseidon(f'), ec.n);
    hide Verify, Mod, Times, ChallengeFelts;
    var w, a1 := Sub(ec, v, g1), FromAffine(ec, proof.a1).value;
    var c1, c1' := ScalarSub(ec.n, c, proof.c0), ScalarSub(ec.n, c', proof.c0);
    assert Comm(ec, a1, Times(ec, c1, w)) && Comm(ec, a1, Times(ec, c1', w));
    CancelRight(ec, Times(ec, c1, w), Times(ec, c1', w), a1);
    SubZero(ec, v, g1);
    if v != g1 {
      TimesInjective(ec, c1, c1', w);
      SubThenAdd(ec.n, c, proof.c0);
      SubThenAdd(ec.n, c', proof.c0);
      ReducedTwice(ec.n, ro.poseidon(f), ro.poseidon(f'), c1, c1');
    }
  }

  lemma ReducedTwice(n: Pos, h: nat, h': nat, c1: nat, c1': nat)
    requires c1 < n && c1' < n && Mod(c1, n) == Mod(c1', n)
    ensures c1 == c1' && Mod(Mod(h, n), n) == Mod(h, n) && Mod(Mod(h', n), n) == Mod(h', n)
  {
  }

  /** When the bit-0 prover succeeds: exactly when nothing it negates, hashes or
      serialises is the point at infinity. */
  lemma Bit0ProvesWhen<P(!new)>(ec: Curve<P>, ro: Oracle, r: nat, g1: P, g2: P, prefix: nat, d: Draws)
    requires Lawful(ec)
    ensures ProveBit0(ec, ro, r, g1, g2, prefix, d).Ok? <==>
            var v := Times(ec, r, g2);
            && v != ec.zero && g1 != ec.zero && Times(ec, d.k, g2) != ec.zero
            && Times(ec, d.c, Sub(ec, v, g1)) != ec.zero
            && Sub(ec, Times(ec, d.s, g2), Times(ec, d.c, Sub(ec, v, g1))) != ec.zero
  {
    var v := Times(ec, r, g2);
    var a0, a1 := Times(ec, d.k, g2), Sub(ec, Times(ec, d.s, g2), Times(ec, d.c, Sub(ec, v, g1)));
    NegateIsNeg(ec, g1);
    Simulated(ec, Sub(ec, v, g1), g2, d.s, d.c);
    assert [v, a0, a1][0] == v && [v, a0, a1][1] == a0 && [v, a0, a1][2] == a1;
  }

  /** When the bit-1 prover does. */
  lemma Bit1ProvesWhen<P(!new)>(ec: Curve<P>, ro: Oracle, r: nat, g1: P, g2: P, prefix: nat, d: Draws)
    requires Lawful(ec)
    ensures ProveBit1(ec, ro, r, g1, g2, prefix, d).Ok? <==>
            var v := ec.add(g1, Times(ec, r, g2));
            && v != ec.zero && Times(ec, d.k, g2) != ec.zero && Times(ec, d.c, v) != ec.zero
            && Sub(ec, Times(ec, d.s, g2), Times(ec, d.c, v)) != ec.zero
  {
    var v := ec.add(g1, Times(ec, r, g2));
    var a0, a1 := Sub(ec, Times(ec, d.s, g2), Times(ec, d.c, v)), Times(ec, d.k, g2);
    Simulated(ec, v, g2, d.s, d.c);
    assert [v, a0, a1][0] == v && [v, a0, a1][1] == a0 && [v, a0, a1][2] == a1;
  }
}

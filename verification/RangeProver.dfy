/** The range prover, and that its proofs verify. */
module RangeProver {
  import opened Numbers
  import opened Outcomes
  import opened Bytes
  import opened Curve
  import opened Scalar
  import opened Transcript
  import opened Poe2
  import opened Range
  import Bit

  /** Binary digits of b, least significant first. */
  function BitsOf(b: nat, size: nat): (bits: seq<nat>)
    ensures |bits| == size
  {
    if size == 0 then [] else BitsOf(b, size - 1) + [(b / Pow2(size - 1)) % 2]
  }

  lemma {:induction false} BitsOfAt(b: nat, size: nat, i: nat)
    requires i < size
    ensures BitsOf(b, size)[i] == (b / Pow2(i)) % 2
  {
    if i < size - 1 {
      BitsOfAt(b, size - 1, i);
    }
  }

  /** A number below 2^size is the weighted sum of its digits. */
  lemma {:induction false} BitsOfSum(b: nat, size: nat)
    ensures Weighted(BitsOf(b, size)) == b % Pow2(size)
  {
    if size > 0 {
      var init := BitsOf(b, size - 1);
      BitsOfSum(b, size - 1);
      assert BitsOf(b, size)[..size - 1] == init;
      LowBits(b, size - 1);
      var d := (b / Pow2(size - 1)) % 2;
      assert Pow2(size - 1) * d == d * Pow2(size - 1);
    }
  }

  /** The i-th bit proof the prover asks for. */
  function BitProofAt<P(==)>(ec: Curve<P>, ro: Oracle, b: nat, g1: P, g2: P, prefix: nat,
                             randoms: seq<nat>, draws: nat -> Bit.Draws, i: nat): Result<(P, Bit.BitProof)>
    requires i < |randoms|
  {
    Bit.Prove(ec, ro, (b / Pow2(i)) % 2, randoms[i], g1, g2, BitPrefix(ec.p, prefix, i), draws(i))
  }

  /** A range proof made of the bit proofs, with the total randomness. */
  ghost predicate Proved<P>(ec: Curve<P>, ro: Oracle, b: nat, size: nat, g1: P, g2: P, prefix: nat,
                            randoms: seq<nat>, draws: nat -> Bit.Draws, range: RangeProof, total: nat) {
    && size <= 128 && |randoms| == size && b < Pow2(size)
    && SizesMatch(range, size)
    && (forall i :: 0 <= i < size ==> ProvedAt(ec, ro, b, g1, g2, prefix, randoms, draws, range, i))
    && total == Mod(Weighted(randoms), ec.n)
  }

  ghost predicate ProvedAt<P>(ec: Curve<P>, ro: Oracle, b: nat, g1: P, g2: P, prefix: nat,
                              randoms: seq<nat>, draws: nat -> Bit.Draws, range: RangeProof, i: nat)
    requires i < |randoms| && SizesMatch(range, |randoms|)
  {
    var bit := BitProofAt(ec, ro, b, g1, g2, prefix, randoms, draws, i);
    bit.Ok? && range.commitments[i] == ec.coords(bit.value.0) && range.proofs[i] == bit.value.1
  }

  ghost predicate ProveRefuses<P>(ec: Curve<P>, ro: Oracle, b: nat, size: nat, g1: P, g2: P, prefix: nat,
                                  randoms: seq<nat>, draws: nat -> Bit.Draws, e: KmsError) {
    if size > 128 then e == TOO_MANY_BITS
    else if |randoms| != size then e == LENGTH_MISMATCH
    else if b >= Pow2(size) then e == NOT_IN_RANGE
    else e == PointAtInfinity && exists i :: 0 <= i < size && BitProofAt(ec, ro, b, g1, g2, prefix, randoms, draws, i).Err?
  }

  /** `range::prove_with_randomness`; `draws(i)` are the i-th bit proof's
      random values. */
  method Prove<P(!new, ==)>(ec: Curve<P>, ro: Oracle, b: nat, size: nat, g1: P, g2: P, prefix: nat,
                            randoms: seq<nat>, draws: nat -> Bit.Draws)
    returns (r: Result<(RangeProof, nat)>)
    requires Lawful(ec) && b < TWO_128
    ensures r.Ok? ==> Proved(ec, ro, b, size, g1, g2, prefix, randoms, draws, r.value.0, r.value.1)
    ensures r.Err? ==> ProveRefuses(ec, ro, b, size, g1, g2, prefix, randoms, draws, r.error)
  {
    if size > 128 {
      return Err(TOO_MANY_BITS);
    }
    if |randoms| != size {
      return Err(LENGTH_MISMATCH);
    }
    var maxValue := if size == 128 then TWO_128 - 1 else Pow2(size) - 1;
    if size == 128 {
      Pow2Is128(size);
    }
    if b > maxValue {
      return Err(NOT_IN_RANGE);
    }
    var bits := BitsOf(b, size);
    var results: seq<(P, Bit.BitProof)> := [];
    for i := 0 to size
      invariant |results| == i
      invariant forall j :: 0 <= j < i ==> BitProofAt(ec, ro, b, g1, g2, prefix, randoms, draws, j) == Ok(results[j])
    {
      BitsOfAt(b, size, i);
      var bit := Bit.Prove(ec, ro, bits[i], randoms[i], g1, g2, BitPrefix(ec.p, prefix, i), draws(i));
      if bit.Err? {
        Bit.ProveErrors(ec, ro, bits[i], randoms[i], g1, g2, BitPrefix(ec.p, prefix, i), draws(i));
        assert BitProofAt(ec, ro, b, g1, g2, prefix, randoms, draws, i).Err?;
        return Err(bit.error);
      }
      results := results + [bit.value];
    }
    var range, total := Accumulate(ec, ro, b, size, g1, g2, prefix, randoms, draws, results);
    r := Ok((range, total));
  }

  /** The sequential accumulation phase. */
  method Accumulate<P(!new, ==)>(ec: Curve<P>, ghost ro: Oracle, ghost b: nat, size: nat, ghost g1: P, ghost g2: P,
                                 ghost prefix: nat,
                                 randoms: seq<nat>, ghost draws: nat -> Bit.Draws, results: seq<(P, Bit.BitProof)>)
    returns (range: RangeProof, total: nat)
    requires Lawful(ec) && size <= 128 && |randoms| == |results| == size && b < Pow2(size)
    requires forall j :: 0 <= j < size ==> BitProofAt(ec, ro, b, g1, g2, prefix, randoms, draws, j) == Ok(results[j])
    ensures Proved(ec, ro, b, size, g1, g2, prefix, randoms, draws, range, total)
  {
    hide BitProofAt;
    var proofs: seq<Bit.BitProof>, commitments: seq<Affine> := [], [];
    total := 0;
    for i := 0 to size
      invariant |proofs| == |commitments| == i
      invariant forall j :: 0 <= j < i ==> commitments[j] == ec.coords(results[j].0) && proofs[j] == results[j].1
      invariant total == Mod(Weighted(randoms[..i]), ec.n)
    {
      CommitmentFinite(ec, ro, b, g1, g2, prefix, randoms, draws, i, results[i]);
      proofs := proofs + [results[i].1];
      if ToAffine(ec, results[i].0).Err? {
        assert false;  // an honest commitment was hashed, so it is finite
      }
      commitments := commitments + [ec.coords(results[i].0)];
      AccumulateMod(ec.n, Weighted(randoms[..i]), Pow2(i), randoms[i]);
      WeightedSnoc(randoms, i);
      total := ScalarAdd(ec.n, total, ScalarMul(ec.n, Pow2(i), randoms[i]));
    }
    range := RangeProof(commitments, proofs);
    assert randoms[..size] == randoms;
  }

  lemma CommitmentFinite<P(!new)>(ec: Curve<P>, ro: Oracle, b: nat, g1: P, g2: P, prefix: nat,
                                  randoms: seq<nat>, draws: nat -> Bit.Draws, i: nat, result: (P, Bit.BitProof))
    requires Lawful(ec) && i < |randoms|
    requires BitProofAt(ec, ro, b, g1, g2, prefix, randoms, draws, i) == Ok(result)
    ensures result.0 != ec.zero
  {
    Bit.Complete(ec, ro, (b / Pow2(i)) % 2, randoms[i], g1, g2, BitPrefix(ec.p, prefix, i), draws(i), result.0, result.1);
  }

  /** No response of the proof, and not g1, is sent to the point at infinity. */
  ghost predicate Finite<P>(ec: Curve<P>, g1: P, g2: P, range: RangeProof) {
    g1 != ec.zero && forall i :: 0 <= i < |range.proofs| ==> FiniteAt(ec, g2, range.proofs[i])
  }

  ghost predicate FiniteAt<P>(ec: Curve<P>, g2: P, proof: Bit.BitProof) {
    Times(ec, proof.s0, g2) != ec.zero && Times(ec, proof.s1, g2) != ec.zero
  }

  lemma CheckHonest<P(!new)>(ec: Curve<P>, ro: Oracle, b: nat, size: nat, g1: P, g2: P, prefix: nat,
                             randoms: seq<nat>, draws: nat -> Bit.Draws, range: RangeProof, total: nat, i: nat)
    requires Lawful(ec) && i < size
    requires Proved(ec, ro, b, size, g1, g2, prefix, randoms, draws, range, total)
    ensures var v := Combine(ec, (b / Pow2(i)) % 2, g1, randoms[i], g2);
            Check(ec, ro, range, g1, g2, prefix, i) ==
            if g1 != ec.zero && FiniteAt(ec, g2, range.proofs[i]) then Ok(v) else Err(PointAtInfinity)
  {
    assert ProvedAt(ec, ro, b, g1, g2, prefix, randoms, draws, range, i);
    var bit := BitProofAt(ec, ro, b, g1, g2, prefix, randoms, draws, i);
    Bit.Complete(ec, ro, (b / Pow2(i)) % 2, randoms[i], g1, g2, BitPrefix(ec.p, prefix, i), draws(i),
                 bit.value.0, bit.value.1);
  }

  /** Completeness: on a proof the prover returned, the verifier reconstructs
      exactly g1^b * g2^total, or reports the point at infinity when one of
      the points it compares is; it never calls an honest bit proof false. */
  lemma Complete<P(!new)>(ec: Curve<P>, ro: Oracle, b: nat, size: nat, g1: P, g2: P, prefix: nat,
                          randoms: seq<nat>, draws: nat -> Bit.Draws, range: RangeProof, total: nat, r: Result<P>)
    requires Lawful(ec) && 1 <= size
    requires Proved(ec, ro, b, size, g1, g2, prefix, randoms, draws, range, total)
    requires Outcome(ec, ro, range, size, g1, g2, prefix, r)
    ensures r == if Finite(ec, g1, g2, range) then Ok(Combine(ec, b, g1, total, g2)) else Err(PointAtInfinity)
  {
    forall i | 0 <= i < size
      ensures Check(ec, ro, range, g1, g2, prefix, i) ==
              if g1 != ec.zero && FiniteAt(ec, g2, range.proofs[i])
              then Ok(Combine(ec, (b / Pow2(i)) % 2, g1, randoms[i], g2)) else Err(PointAtInfinity)
    {
      CheckHonest(ec, ro, b, size, g1, g2, prefix, randoms, draws, range, total, i);
    }
    match r
    case Err(e) =>
    case Ok(vTotal) =>
      var points :| Accepts(ec, ro, range, size, g1, g2, prefix, points, vTotal);
      assert Check(ec, ro, range, g1, g2, prefix, 0) == Ok(points[0]);
      forall i | 0 <= i < |range.proofs| ensures FiniteAt(ec, g2, range.proofs[i]) {
        assert Check(ec, ro, range, g1, g2, prefix, i) == Ok(points[i]);
      }
      HonestSum(ec, ro, b, size, g1, g2, prefix, randoms, draws, range, total, points, vTotal);
  }

  lemma HonestSum<P(!new)>(ec: Curve<P>, ro: Oracle, b: nat, size: nat, g1: P, g2: P, prefix: nat,
                           randoms: seq<nat>, draws: nat -> Bit.Draws, range: RangeProof, total: nat, points: seq<P>, vTotal: P)
    requires Lawful(ec)
    requires Proved(ec, ro, b, size, g1, g2, prefix, randoms, draws, range, total)
    requires Accepts(ec, ro, range, size, g1, g2, prefix, points, vTotal)
    ensures vTotal == Combine(ec, b, g1, total, g2)
  {
    var bits := BitsOf(b, size);
    forall i | 0 <= i < size
      ensures bits[i] <= 1 && points[i] == Combine(ec, bits[i], g1, randoms[i], g2)
    {
      CheckHonest(ec, ro, b, size, g1, g2, prefix, randoms, draws, range, total, i);
      assert Check(ec, ro, range, g1, g2, prefix, i) == Ok(points[i]);
      BitsOfAt(b, size, i);
    }
    Sound(ec, ro, range, size, g1, g2, prefix, points, vTotal, bits, randoms);
    BitsOfSum(b, size);
    RemSmall(b, Pow2(size));
  }

  /** What a range proof consists of: for each digit of b its bit proof, made
      with that digit's randomness and draws under prefix + i, and the sum of
      the randomness weighted by powers of two. */
  lemma ProvedMeans<P(!new)>(ec: Curve<P>, ro: Oracle, b: nat, size: nat, g1: P, g2: P, prefix: nat,
                             randoms: seq<nat>, draws: nat -> Bit.Draws, range: RangeProof, total: nat, i: nat)
    requires Lawful(ec) && prefix < ec.p && size <= ec.p && i < size
    requires Proved(ec, ro, b, size, g1, g2, prefix, randoms, draws, range, total)
    ensures var v := Combine(ec, (b / Pow2(i)) % 2, g1, randoms[i], g2);
            && Bit.Prove(ec, ro, (b / Pow2(i)) % 2, randoms[i], g1, g2, (prefix + i) % ec.p, draws(i)) == Ok((v, range.proofs[i]))
            && range.commitments[i] == ec.coords(v)
  {
    OneWrap(prefix + i, ec.p);
    assert ProvedAt(ec, ro, b, g1, g2, prefix, randoms, draws, range, i);
    var bit := BitProofAt(ec, ro, b, g1, g2, prefix, randoms, draws, i).value;
    Bit.Complete(ec, ro, (b / Pow2(i)) % 2, randoms[i], g1, g2, BitPrefix(ec.p, prefix, i), draws(i), bit.0, bit.1);
  }
}

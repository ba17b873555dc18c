/** Range proof: b in [0, 2^size) from one bit proof per binary digit. */
module Range {
  import opened Numbers
  import opened Outcomes
  import opened Curve
  import opened Scalar
  import opened Sigma
  import opened Transcript
  import opened Poe2
  import Bit

  datatype RangeProof = RangeProof(commitments: seq<Affine>, proofs: seq<Bit.BitProof>)

  const LENGTH_MISMATCH: KmsError := CryptoError("Length mismatch")
  const TOO_MANY_BITS: KmsError := CryptoError("exceeds maximum 128")
  const NOT_IN_RANGE: KmsError := CryptoError("Value is not in range")

  /** Sum of values[i] * 2^i. */
  function Weighted(values: seq<nat>): nat {
    if values == [] then 0
    else Weighted(values[..|values| - 1]) + Pow2(|values| - 1) * values[|values| - 1]
  }

  /** Sum of 2^i * points[i]. */
  function WeightedPoints<P>(ec: Curve<P>, points: seq<P>): P {
    if points == [] then ec.zero
    else ec.add(WeightedPoints(ec, points[..|points| - 1]), Times(ec, Pow2(|points| - 1), points[|points| - 1]))
  }

  /** The prefix of the i-th bit proof: initial_prefix + i in the field. */
  function BitPrefix(p: Pos, prefix: nat, i: nat): nat {
    if i == 0 then prefix else (prefix + i) % p
  }

  // ----- total randomness

  lemma AccumulateMod(n: Pos, w: nat, pow: nat, v: nat)
    ensures ScalarAdd(n, Mod(w, n), ScalarMul(n, pow, v)) == Mod(w + pow * v, n)
  {
    ModMul(pow, v, n);
    ModAdd(w, pow * v, n);
  }

  lemma WeightedSnoc(values: seq<nat>, i: nat)
    requires i < |values|
    ensures Weighted(values[..i + 1]) == Weighted(values[..i]) + Pow2(i) * values[i]
  {
    assert values[..i + 1][..i] == values[..i];
  }

  /** `compute_total_randomness`: the sum of r_i * 2^i modulo the order. */
  method ComputeTotalRandomness(n: Pos, values: seq<nat>) returns (r: Result<nat>)
    ensures r == if |values| > 128 then Err(TOO_MANY_BITS) else Ok(Mod(Weighted(values), n))
  {
    if |values| > 128 {
      return Err(TOO_MANY_BITS);
    }
    var total := 0;
    for i := 0 to |values|
      invariant total == Mod(Weighted(values[..i]), n)
    {
      AccumulateMod(n, Weighted(values[..i]), Pow2(i), values[i]);
      WeightedSnoc(values, i);
      total := ScalarAdd(n, total, ScalarMul(n, Pow2(i), values[i]));
    }
    assert values[..|values|] == values;
    r := Ok(total);
  }

  // ----- verification

  /** Outcome of the i-th bit: its commitment, or why it is refused. */
  function Check<P(==)>(ec: Curve<P>, ro: Oracle, range: RangeProof, g1: P, g2: P, prefix: nat, i: nat): Result<P>
    requires i < |range.commitments| && i < |range.proofs|
  {
    var v :- FromAffine(ec, range.commitments[i]);
    var ok :- Bit.Verify(ec, ro, v, g1, g2, range.proofs[i], BitPrefix(ec.p, prefix, i));
    if ok then Ok(v) else Err(BitProofFailed(i))
  }

  ghost predicate SizesMatch(range: RangeProof, size: nat) {
    |range.commitments| == size && |range.proofs| == size
  }

  /** Every bit is accepted; V is the weighted sum of the commitments. */
  ghost predicate Accepts<P>(ec: Curve<P>, ro: Oracle, range: RangeProof, size: nat, g1: P, g2: P, prefix: nat,
                             points: seq<P>, vTotal: P) {
    && SizesMatch(range, size) && |points| == size
    && (forall i :: 0 <= i < size ==> Check(ec, ro, range, g1, g2, prefix, i) == Ok(points[i]))
    && vTotal == WeightedPoints(ec, points)
  }

  /** The error is that of the first refused bit, or a length mismatch. */
  ghost predicate Refuses<P>(ec: Curve<P>, ro: Oracle, range: RangeProof, size: nat, g1: P, g2: P, prefix: nat,
                             e: KmsError) {
    if SizesMatch(range, size) then
      exists i :: 0 <= i < size && Check(ec, ro, range, g1, g2, prefix, i) == Err(e)
               && forall j :: 0 <= j < i ==> Check(ec, ro, range, g1, g2, prefix, j).Ok?
    else e == LENGTH_MISMATCH
  }

  /** The verifier's answer, pinned down. */
  ghost predicate Outcome<P(!new)>(ec: Curve<P>, ro: Oracle, range: RangeProof, size: nat, g1: P, g2: P, prefix: nat,
                                   r: Result<P>) {
    match r
    case Ok(vTotal) => exists points :: Accepts(ec, ro, range, size, g1, g2, prefix, points, vTotal)
    case Err(e) => Refuses(ec, ro, range, size, g1, g2, prefix, e)
  }

  /** `range::verify`. */
  method Verify<P(!new, ==)>(ec: Curve<P>, ro: Oracle, range: RangeProof, size: nat, g1: P, g2: P, prefix: nat)
    returns (r: Result<P>)
    requires Lawful(ec)
    requires 1 <= size <= 128
    ensures Outcome(ec, ro, range, size, g1, g2, prefix, r)
  {
    hide Check;
    if |range.commitments| != size || |range.proofs| != size {
      return Err(LENGTH_MISMATCH);
    }
    var first := Check(ec, ro, range, g1, g2, prefix, 0);
    if first.Err? {
      return Err(first.error);
    }
    var total := first.value;
    ghost var points := [total];
    TimesOne(ec, total);
    ZeroLeft(ec, total);
    for i := 1 to size
      invariant |points| == i
      invariant forall j :: 0 <= j < i ==> Check(ec, ro, range, g1, g2, prefix, j) == Ok(points[j])
      invariant total == WeightedPoints(ec, points)
    {
      var bit := Check(ec, ro, range, g1, g2, prefix, i);
      if bit.Err? {
        return Err(bit.error);
      }
      points := points + [bit.value];
      assert points[..i] == points[..|points| - 1];
      total := ec.add(total, Times(ec, Pow2(i), bit.value));
    }
    assert Accepts(ec, ro, range, size, g1, g2, prefix, points, total);
    r := Ok(total);
  }

  // ----- soundness

  ghost predicate Opens<P>(ec: Curve<P>, points: seq<P>, g1: P, g2: P, bits: seq<nat>, rs: seq<nat>) {
    && |points| == |bits| == |rs|
    && forall i :: 0 <= i < |points| ==> bits[i] <= 1 && points[i] == Combine(ec, bits[i], g1, rs[i], g2)
  }

  lemma {:induction false} WeightedBound(bits: seq<nat>)
    requires forall i :: 0 <= i < |bits| ==> bits[i] <= 1
    ensures Weighted(bits) < Pow2(|bits|)
  {
    if bits != [] {
      var k := |bits| - 1;
      WeightedBound(bits[..k]);
      if bits[k] == 0 {
        assert Pow2(k) * bits[k] == 0;
      }
    }
  }

  lemma WeightedPointsSnoc<P>(ec: Curve<P>, points: seq<P>, i: nat)
    requires i < |points|
    ensures WeightedPoints(ec, points[..i + 1])
         == ec.add(WeightedPoints(ec, points[..i]), Times(ec, Pow2(i), points[i]))
  {
    assert points[..i + 1][..i] == points[..i];
  }

  /** A weighted sum of openings is an opening of the weighted sums. */
  lemma {:induction false} WeightedOpening<P(!new)>(ec: Curve<P>, points: seq<P>, g1: P, g2: P, bits: seq<nat>,
                                                    rs: seq<nat>, k: nat)
    requires Lawful(ec) && Opens(ec, points, g1, g2, bits, rs) && k <= |points|
    ensures WeightedPoints(ec, points[..k]) == Combine(ec, Weighted(bits[..k]), g1, Weighted(rs[..k]), g2)
  {
    if k == 0 {
      assert Unit(ec, ec.zero);
    } else {
      var i := k - 1;
      WeightedOpening(ec, points, g1, g2, bits, rs, i);
      WeightedPointsSnoc(ec, points, i);
      WeightedSnoc(bits, i);
      WeightedSnoc(rs, i);
      ExtendOpening(ec, Weighted(bits[..i]), Weighted(rs[..i]), Pow2(i), bits[i], rs[i], g1, g2);
    }
  }

  lemma ScaleOpening<P(!new)>(ec: Curve<P>, k: nat, b: nat, r: nat, g1: P, g2: P)
    requires Lawful(ec)
    ensures Times(ec, k, Combine(ec, b, g1, r, g2)) == Combine(ec, k * b, g1, k * r, g2)
  {
    TimesSum(ec, k, Times(ec, b, g1), Times(ec, r, g2));
    TimesMul(ec, k, b, g1);
    TimesMul(ec, k, r, g2);
  }

  lemma AddOpenings<P(!new)>(ec: Curve<P>, b: nat, r: nat, b': nat, r': nat, g1: P, g2: P)
    requires Lawful(ec)
    ensures ec.add(Combine(ec, b, g1, r, g2), Combine(ec, b', g1, r', g2)) == Combine(ec, b + b', g1, r + r', g2)
  {
    Interchange(ec, Times(ec, b, g1), Times(ec, r, g2), Times(ec, b', g1), Times(ec, r', g2));
    TimesAdd(ec, b, b', g1);
    TimesAdd(ec, r, r', g2);
  }

  lemma ExtendOpening<P(!new)>(ec: Curve<P>, b: nat, r: nat, k: nat, b': nat, r': nat, g1: P, g2: P)
    requires Lawful(ec)
    ensures ec.add(Combine(ec, b, g1, r, g2), Times(ec, k, Combine(ec, b', g1, r', g2)))
         == Combine(ec, b + k * b', g1, r + k * r', g2)
  {
    ScaleOpening(ec, k, b', r', g1, g2);
    AddOpenings(ec, b, r, k * b', k * r', g1, g2);
  }

  /** Soundness of the accumulation: if the accepted commitments open as bits,
      V commits to a value below 2^size with the total randomness. */
  lemma Sound<P(!new)>(ec: Curve<P>, ro: Oracle, range: RangeProof, size: nat, g1: P, g2: P, prefix: nat,
                       points: seq<P>, vTotal: P, bits: seq<nat>, rs: seq<nat>)
    requires Lawful(ec)
    requires Accepts(ec, ro, range, size, g1, g2, prefix, points, vTotal) && Opens(ec, points, g1, g2, bits, rs)
    ensures Weighted(bits) < Pow2(size)
    ensures vTotal == Combine(ec, Weighted(bits), g1, Mod(Weighted(rs), ec.n), g2)
  {
    WeightedBound(bits);
    WeightedOpening(ec, points, g1, g2, bits, rs, size);
    assert points[..size] == points && bits[..size] == bits && rs[..size] == rs;
    TimesMod(ec, Weighted(rs), g2);
  }

  /** Two accepted proofs over the same commitments in which every bit got
      two different challenges. */
  ghost predicate Rewound<P>(ec: Curve<P>, ro: Oracle, range: RangeProof, prefix: nat,
                             ro': Oracle, range': RangeProof, prefix': nat, points: seq<P>) {
    && SizesMatch(range, |points|) && SizesMatch(range', |points|)
    && range.commitments == range'.commitments
    && forall i :: 0 <= i < |points| ==> RewoundAt(ec, ro, range, prefix, ro', range', prefix', points, i)
  }

  ghost predicate RewoundAt<P>(ec: Curve<P>, ro: Oracle, range: RangeProof, prefix: nat,
                               ro': Oracle, range': RangeProof, prefix': nat, points: seq<P>, i: nat)
    requires i < |points| && SizesMatch(range, |points|) && SizesMatch(range', |points|)
  {
    var c := Bit.TotalChallenge(ec, ro, points[i], range.proofs[i], BitPrefix(ec.p, prefix, i));
    var c' := Bit.TotalChallenge(ec, ro', points[i], range'.proofs[i], BitPrefix(ec.p, prefix', i));
    && range.proofs[i].a0 == range'.proofs[i].a0 && range.proofs[i].a1 == range'.proofs[i].a1
    && c.Ok? && c'.Ok? && Mod(c.value, ec.n) != Mod(c'.value, ec.n)
  }

  /** Bit and randomness computed from the two transcripts of the i-th bit. */
  function OpeningAt<P(==)>(ec: Curve<P>, ro: Oracle, range: RangeProof, prefix: nat,
                            ro': Oracle, range': RangeProof, prefix': nat, points: seq<P>, i: nat): (o: (nat, nat))
    requires IsPrime(ec.n) && i < |points| && SizesMatch(range, |points|) && SizesMatch(range', |points|)
    requires RewoundAt(ec, ro, range, prefix, ro', range', prefix', points, i)
    ensures o.0 <= 1
  {
    var c := Bit.TotalChallenge(ec, ro, points[i], range.proofs[i], BitPrefix(ec.p, prefix, i)).value;
    var c' := Bit.TotalChallenge(ec, ro', points[i], range'.proofs[i], BitPrefix(ec.p, prefix', i)).value;
    Bit.Opening(ec.n, c, range.proofs[i], c', range'.proofs[i])
  }

  /** The bits of the first k transcripts. */
  ghost function ExtractedBits<P>(ec: Curve<P>, ro: Oracle, range: RangeProof, prefix: nat,
                                  ro': Oracle, range': RangeProof, prefix': nat, points: seq<P>, k: nat): (bits: seq<nat>)
    requires IsPrime(ec.n) && k <= |points| && Rewound(ec, ro, range, prefix, ro', range', prefix', points)
    ensures |bits| == k
  {
    if k == 0 then []
    else
      ExtractedBits(ec, ro, range, prefix, ro', range', prefix', points, k - 1)
      + [OpeningAt(ec, ro, range, prefix, ro', range', prefix', points, k - 1).0]
  }

  /** And their randomness. */
  ghost function ExtractedRandoms<P>(ec: Curve<P>, ro: Oracle, range: RangeProof, prefix: nat,
                                     ro': Oracle, range': RangeProof, prefix': nat, points: seq<P>, k: nat): (rs: seq<nat>)
    requires IsPrime(ec.n) && k <= |points| && Rewound(ec, ro, range, prefix, ro', range', prefix', points)
    ensures |rs| == k
  {
    if k == 0 then []
    else
      ExtractedRandoms(ec, ro, range, prefix, ro', range', prefix', points, k - 1)
      + [OpeningAt(ec, ro, range, prefix, ro', range', prefix', points, k - 1).1]
  }

  lemma OpeningAtOpens<P(!new)>(ec: Curve<P>, ro: Oracle, range: RangeProof, prefix: nat,
                                ro': Oracle, range': RangeProof, prefix': nat, g1: P, g2: P, points: seq<P>, i: nat)
    requires Lawful(ec) && i < |points|
    requires SizesMatch(range, |points|) && SizesMatch(range', |points|)
    requires RewoundAt(ec, ro, range, prefix, ro', range', prefix', points, i)
    requires Check(ec, ro, range, g1, g2, prefix, i) == Ok(points[i])
    requires Check(ec, ro', range', g1, g2, prefix', i) == Ok(points[i])
    ensures var o := OpeningAt(ec, ro, range, prefix, ro', range', prefix', points, i);
            points[i] == Combine(ec, o.0, g1, o.1, g2)
  {
    var prefixI, prefixI' := BitPrefix(ec.p, prefix, i), BitPrefix(ec.p, prefix', i);
    var c := Bit.TotalChallenge(ec, ro, points[i], range.proofs[i], prefixI).value;
    var c' := Bit.TotalChallenge(ec, ro', points[i], range'.proofs[i], prefixI').value;
    Bit.Sound(ec, ro, ro', points[i], g1, g2, range.proofs[i], prefixI, range'.proofs[i], prefixI', c, c');
  }

  /** The computed openings open the commitments. */
  lemma {:induction false} ExtractedOpens<P(!new)>(ec: Curve<P>, ro: Oracle, range: RangeProof, prefix: nat,
                                                   ro': Oracle, range': RangeProof, prefix': nat,
                                                   g1: P, g2: P, points: seq<P>, k: nat)
    requires Lawful(ec) && k <= |points|
    requires Rewound(ec, ro, range, prefix, ro', range', prefix', points)
    requires forall i :: 0 <= i < |points| ==> Check(ec, ro, range, g1, g2, prefix, i) == Ok(points[i])
    requires forall i :: 0 <= i < |points| ==> Check(ec, ro', range', g1, g2, prefix', i) == Ok(points[i])
    ensures Opens(ec, points[..k], g1, g2, ExtractedBits(ec, ro, range, prefix, ro', range', prefix', points, k),
                  ExtractedRandoms(ec, ro, range, prefix, ro', range', prefix', points, k))
  {
    hide Check, RewoundAt, OpeningAt;
    if k > 0 {
      ExtractedOpens(ec, ro, range, prefix, ro', range', prefix', g1, g2, points, k - 1);
      OpeningAtOpens(ec, ro, range, prefix, ro', range', prefix', g1, g2, points, k - 1);
      assert points[..k] == points[..k - 1] + [points[k - 1]];
    }
  }

  /** Knowledge soundness of the whole proof: from two accepted proofs with the
      same commitments and first moves and different challenges at every bit,
      the bits and randomness computed from the responses open V, to a value
      below 2^size. */
  lemma KnowledgeSound<P(!new)>(ec: Curve<P>, ro: Oracle, range: RangeProof, prefix: nat,
                                ro': Oracle, range': RangeProof, prefix': nat,
                                size: nat, g1: P, g2: P, points: seq<P>, points': seq<P>, vTotal: P, vTotal': P)
    requires Lawful(ec)
    requires Accepts(ec, ro, range, size, g1, g2, prefix, points, vTotal)
    requires Accepts(ec, ro', range', size, g1, g2, prefix', points', vTotal')
    requires Rewound(ec, ro, range, prefix, ro', range', prefix', points)
    ensures var bits := ExtractedBits(ec, ro, range, prefix, ro', range', prefix', points, size);
            var rs := ExtractedRandoms(ec, ro, range, prefix, ro', range', prefix', points, size);
            && Weighted(bits) < Pow2(size)
            && vTotal == vTotal' == Combine(ec, Weighted(bits), g1, Mod(Weighted(rs), ec.n), g2)
  {
    forall i | 0 <= i < size ensures points[i] == points'[i] {
      assert Check(ec, ro, range, g1, g2, prefix, i) == Ok(points[i]);
      assert Check(ec, ro', range', g1, g2, prefix', i) == Ok(points'[i]);
    }
    assert points == points';
    ExtractedOpens(ec, ro, range, prefix, ro', range', prefix', g1, g2, points, size);
    assert points[..size] == points;
    Sound(ec, ro, range, size, g1, g2, prefix, points, vTotal,
          ExtractedBits(ec, ro, range, prefix, ro', range', prefix', points, size),
          ExtractedRandoms(ec, ro, range, prefix, ro', range', prefix', points, size));
  }

  /** The value is pinned: opening V to two values below 2^size, no more than
      the order, computes the logarithm of g1 to the base g2. */
  lemma Binding<P(!new)>(ec: Curve<P>, size: nat, g1: P, g2: P, b: nat, r: nat, b': nat, r': nat)
    requires Lawful(ec) && Pow2(size) <= ec.n
    requires b < Pow2(size) && b' < Pow2(size) && b != b'
    requires Combine(ec, b, g1, r, g2) == Combine(ec, b', g1, r', g2)
    ensures Mod(b, ec.n) != Mod(b', ec.n) && g1 == Times(ec, Witness(ec.n, b, r', b', r), g2)
  {
    var u, u', w, w' := Times(ec, b, g1), Times(ec, b', g1), Times(ec, r, g2), Times(ec, r', g2);
    var a := Sub(ec, w', u);
    AddSub(ec, w', u);
    assert ec.add(a, u') == w by {
      assert Comm(ec, u', w') && Comm(ec, u, w) && Comm(ec, a, u');
      assert Assoc(ec, u', a, u) && Assoc(ec, w, u, ec.neg(u));
      assert ec.add(ec.add(u', a), u) == ec.add(w, u);
      CancelRight(ec, ec.add(u', a), w, u);
    }
    ExtractSingle(ec, g2, a, g1, b, r', b', r);
  }

  // ----- position

  /** Bit i is hashed under prefix + i in the field: bit 0 under the caller's
      prefix, and no two bits under the same one. */
  lemma PrefixesDiffer(p: Pos, prefix: nat, i: nat, j: nat)
    requires prefix < p && i < j < p
    ensures BitPrefix(p, prefix, i) == (prefix + i) % p && BitPrefix(p, prefix, 0) == prefix
    ensures BitPrefix(p, prefix, i) != BitPrefix(p, prefix, j)
  {
    OneWrap(prefix + i, p);
    OneWrap(prefix + j, p);
  }

  lemma OneWrap(a: nat, p: Pos)
    requires a < 2 * p
    ensures a % p == if a < p then a else a - p
  {
    ModIsRemainder(a, p);
    ModOnce(a, p);
  }

  /** An accepted bit has its commitment, and passes the bit check under exactly
      that prefix. */
  lemma CheckMeans<P(!new)>(ec: Curve<P>, ro: Oracle, range: RangeProof, g1: P, g2: P, prefix: nat, i: nat, v: P)
    requires Lawful(ec) && prefix < ec.p && i < ec.p && i < |range.commitments| && i < |range.proofs|
    ensures Check(ec, ro, range, g1, g2, prefix, i) == Ok(v) <==>
            && v != ec.zero && ec.coords(v) == range.commitments[i]
            && Bit.Verify(ec, ro, v, g1, g2, range.proofs[i], (prefix + i) % ec.p) == Ok(true)
  {
    OneWrap(prefix + i, ec.p);
    hide Bit.Verify;
    if FromAffine(ec, range.commitments[i]).Ok? {
      FromAffineFinite(ec, range.commitments[i]);
    }
    if v != ec.zero {
      AffineRoundTrip(ec, v, v);
    }
  }

  /** A bit proof is tied to its position: accepted at two places for one
      commitment, the commitment is g1, or the two challenges collide. */
  lemma TiedToPosition<P(!new)>(ec: Curve<P>, ro: Oracle, range: RangeProof, g1: P, g2: P, prefix: nat,
                                i: nat, j: nat, v: P)
    requires Lawful(ec) && prefix < ec.p && i < j < ec.p && j < |range.commitments| && j < |range.proofs|
    requires range.proofs[i] == range.proofs[j]
    requires Check(ec, ro, range, g1, g2, prefix, i) == Ok(v) == Check(ec, ro, range, g1, g2, prefix, j)
    ensures || v == g1
            || CollideMod(ro, ec.n, Bit.ChallengeFelts(ec, v, range.proofs[i], (prefix + i) % ec.p),
                          Bit.ChallengeFelts(ec, v, range.proofs[j], (prefix + j) % ec.p))
  {
    CheckMeans(ec, ro, range, g1, g2, prefix, i, v);
    CheckMeans(ec, ro, range, g1, g2, prefix, j, v);
    OneWrap(prefix + i, ec.p);
    OneWrap(prefix + j, ec.p);
    hide Check, Bit.Verify, Bit.ChallengeFelts;
    Bit.ProofBindsPrefix(ec, ro, v, g1, g2, range.proofs[i], (prefix + i) % ec.p, (prefix + j) % ec.p);
  }
}

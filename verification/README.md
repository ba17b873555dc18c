# krusty-kms in Dafny

A model of the parts of krusty-kms whose correctness is hardest to see, with
proofs. Verify everything with `dafny verify dfyconfig.toml`.

* **Zero-knowledge proofs** (`Curve` to `Audit`). Proofs of exponentiation, the
  ElGamal encryption proof, the OR-composed bit proof, the range proof and the
  audit proof, over an abstract commutative group of prime order with affine
  coordinates. Hashes are arbitrary functions and random draws are arguments.
  Each protocol gets exact completeness (what the verifier answers on every
  honest proof, including its reports of the point at infinity) and extraction
  (what two accepting transcripts reveal). Running a verifier under two hash
  functions is how a rewound prover is modelled. `SmallCurve` is an actual curve
  that satisfies every assumption.
* **Gateway** (`Clock` to `GatewayRaces`). The re-anchoring clock, the bounded
  snapshot cache and the bounded operation store are classes with the source's
  loops; what every run of each does is proved beside them. `Gateway` then
  puts all calls together as a step machine in which any two accesses to shared
  state can be interleaved with other calls, and `GatewayRuns`, `GatewayStatus`,
  `GatewayProgress` and `GatewayRaces` prove what holds of every run.
* **Codecs and keys** (`Address`, `Decimal`, `Amount`, `Grinding`, `Hmac`). Point
  compression, decimal amounts, key grinding, HMAC and HKDF-Expand.

`Numbers`, `Bytes`, `Outcomes`, `Sigma` and `Domain` hold what these share.

Where the code and its comments disagree, the model follows the code. A comment
in the audit prover says a zero balance makes g^0 = g; the branch beneath it
leaves the term out, which is right (`Audit.AuditorCipherEncrypts`). The cache
metadata comment promises an age overstated by at most one quantum; the
arithmetic allows almost two (`SnapshotCache.OverstatedByOneQuantum` says when).
Quantized timestamps are meant to hide when an entry was generated, but Hit,
Stale and a refetch are decided on the exact age, against windows the caller
chooses (`SnapshotCache.AlikeOnlyIfEqual`).
A decimal amount with a sign after the dot is accepted
(`Amount.SignedFractionsParse`). Compressed points are not unique
(`Address.Canonical`). A snapshot that was fetched earlier can replace a newer
one (`GatewayRaces.SaveLowers`). The legacy ElGamal transcript does not hash AR,
so its proofs bind L but not R (`ElGamal.Sound` says exactly when R is bound).

## Model

| member | source | states |
|---|---|---|
| `Curve.NegateIsNeg` | crates/crypto/src/bit.rs:24-50 | Negation through affine coordinates is group negation, and fails exactly on the point at infinity. |
| `Curve.AffineRoundTrip` | crates/common/src/types.rs:26-46 | Serialising then parsing a finite point returns it; comparing affine forms is comparing points. |
| `Curve.TimesMod` | crates/crypto/src/scalar.rs:76-78 | Reducing a scalar modulo the group order does not change the multiple, so reduced responses and unreduced challenges act alike. |
| `Curve.TimesIsZero` | crates/crypto/src/curve.rs:57-69 | In the prime-order group a multiple is the identity exactly when the scalar vanishes modulo the order or the point is the identity. |
| `Scalar.MulAdd` | crates/crypto/src/scalar.rs:52-58 | mul(scalar_add(a, b), Q) = mul(a, Q) + mul(b, Q) for all scalars and points. |
| `Scalar.MulSub` | crates/crypto/src/scalar.rs:60-66 | mul(scalar_sub(a, b), Q) = mul(a, Q) - mul(b, Q), wrap-around included. |
| `Scalar.MulMul` | crates/crypto/src/scalar.rs:68-74 | mul(scalar_mul(a, b), Q) = mul(a, mul(b, Q)). |
| `ScalarMultiplication.CtSelectFelt` | crates/crypto/src/curve.rs:151-163 | The byte-by-byte selection returns the chosen felt, through its 32-byte encoding. |
| `ScalarMultiplication.CtSelectPoint` | crates/crypto/src/curve.rs:165-173 | Coordinate-wise selection returns the chosen projective representative. |
| `ScalarMultiplication.AbsorbByte` | crates/crypto/src/curve.rs:93-100 | Eight bit steps add exactly the byte's contribution to the partial sum and shift the running power. |
| `ScalarMultiplication.ScalarMul` | crates/crypto/src/curve.rs:88-103 | The double-and-add loop with selection at every bit denotes repeated addition, for every scalar of 32 bytes. |
| `Transcript.ComputePoseidonChallenge` | crates/crypto/src/hash.rs:109-125 | The pushing loop hashes prefix and all coordinates in order, reduced modulo the group order, or reports a point at infinity. |
| `Transcript.ComputeChallenge` | crates/crypto/src/hash.rs:15-28 | The Pedersen loop is the chained hash of all coordinates, not reduced. |
| `Transcript.PoseidonHashes` | crates/crypto/src/hash.rs:109-125 | A Poseidon challenge is the hash of the prefix followed by x and y of each point, felt by felt, modulo the order. |
| `Transcript.PedersenHashes` | crates/crypto/src/hash.rs:15-28 | A Pedersen challenge starts at the prefix and takes in x, then y, of each further point. |
| `Transcript.AbsorbedInjective` | crates/crypto/src/hash.rs:109-125 | Two point lists are absorbed alike only if they are equal. |
| `Transcript.PrefixExtension` | crates/crypto/src/hash.rs:103-107 | Folding statement points into the Pedersen prefix equals hashing them before the commitments, errors included. |
| `Sigma.Extract` | crates/crypto/src/poe2.rs:145-168 | Two two-base transcripts with one commitment and different challenges give explicit exponents that decompose the statement. |
| `Sigma.SameCommitment` | crates/crypto/src/elgamal.rs:216-264 | Two accepting transcripts with different challenges repeat the commitment exactly when the statement is the extracted multiple of the base. |
| `Poe.EqualAffineCompares` | crates/crypto/src/poe.rs:100-116 | Affine comparison answers whether the points are equal, and errs exactly when either is the identity. |
| `Poe.Complete` | crates/crypto/src/poe.rs:27-95 | The prover errs exactly on a zero nonce; an honest proof is accepted, or reported as infinity exactly when its response is 0; never Ok(false). |
| `Poe.VerifyMeans` | crates/crypto/src/poe.rs:71-116 | Ok(true) exactly when the commitment parses, the challenge is the recomputed one, and the equation holds away from the identity. |
| `Poe.Sound` | crates/crypto/src/poe.rs:71-116 | Two accepting proofs with one commitment and different challenges yield the exponent of y. |
| `Poe.StatementOf` | crates/crypto/src/poe.rs:41-45 | Because the challenge leaves y out, any finite commitment and response with a nonzero challenge are a proof for exactly one y, given explicitly; with a zero challenge for every y or none. |
| `Poe.DrawsShow` | crates/crypto/src/poe.rs:27-60 | Two proofs of one statement are equal exactly when the draws were, modulo the order. |
| `Poe.AcceptedIsHonest` | crates/crypto/src/poe.rs:27-95 | Every accepted proof with a reduced response is what the prover returns on the draw s - c*x. |
| `Poe2.CombineResponses` | crates/crypto/src/poe2.rs:42-86 | Honest responses satisfy the two-base equation although the challenge is not reduced. |
| `Poe2.Complete2` | crates/crypto/src/poe2.rs:42-138 | Exact completeness: prover errors, acceptance and the infinity report are each characterised; never Ok(false). |
| `Poe2.Sound2` | crates/crypto/src/poe2.rs:104-168 | Two accepting proofs with one commitment and different challenges yield both exponents. |
| `Poe2.StatementOf2` | crates/crypto/src/poe2.rs:63-68 | Because the challenge leaves y and the bases out, any finite commitment and responses with a nonzero challenge are a proof for exactly one y, given explicitly; with a zero challenge for every y or none. |
| `Poe2.DrawsShow2` | crates/crypto/src/poe2.rs:42-86 | Two proofs of one statement are equal exactly when both draws were, modulo the order. |
| `Poe2.AcceptedIsHonest2` | crates/crypto/src/poe2.rs:42-138 | Every accepted proof with reduced responses is what the prover returns on the draws s_i - c*x_i. |
| `ElGamal.Complete` | crates/crypto/src/elgamal.rs:108-264 | Each transcript shape verifies its own honest proofs: the exact prover failures, and Ok(true) unless a compared side is the identity. |
| `ElGamal.ShapesSeparate` | crates/crypto/src/elgamal.rs:31-50 | An honest proof of one transcript shape is answered Ok(false) under the other exactly when the recomputed challenge differs. |
| `ElGamal.ChallengeHashes` | crates/crypto/src/elgamal.rs:31-50 | The legacy challenge is chained from the prefix over L, R, AL, the strong one over the key, L, R, AL, AR, each by x and y. |
| `ElGamal.Sound` | crates/crypto/src/elgamal.rs:216-264 | Two accepting proofs with the same AL and different challenges open L with the exponents computed from the responses; the same exponent opens R exactly when AR was repeated. |
| `ElGamal.StrongSound` | crates/crypto/src/elgamal.rs:31-50 | Under the strong transcript, repeating the hashed input repeats AL and AR, so one randomness opens both halves. |
| `ElGamal.LegacyLeavesRFree` | crates/crypto/src/elgamal.rs:86-94 | The legacy transcript leaves AR out: from an opening of L alone a proof follows for any finite R, accepted unless a compared side is the identity. |
| `ElGamal.DrawsShow` | crates/crypto/src/elgamal.rs:138-180 | Two proofs of one encryption are equal exactly when both draws were, modulo the order. |
| `ElGamal.AcceptedIsHonest` | crates/crypto/src/elgamal.rs:108-264 | Every accepted proof of an encryption with reduced responses is what the prover returns on the matching draws. |
| `ElGamal.DecryptSubtracts` | crates/crypto/src/elgamal.rs:276-297 | Decryption never fails and subtracts sk*R, the identity case included. |
| `ElGamal.DecryptsToMessage` | crates/crypto/src/elgamal.rs:276-297 | Decrypting an encryption of m gives g^m for every key and randomness. |
| `ElGamal.RecoverSmallDiscreteLog` | crates/crypto/src/elgamal.rs:327-346 | The linear search returns a logarithm within the limit or errs exactly when there is none; it never meets the identity below the order. |
| `ElGamal.DecryptBalanceWithLimit` | crates/crypto/src/elgamal.rs:308-315 | On every encryption of m it returns m modulo the order if that is within the limit, and errs otherwise. |
| `Bit.VerifyMeans` | crates/crypto/src/bit.rs:168-210 | Ok(true) exactly when both branch equations hold for the challenge split and nothing compared or negated is the identity. |
| `Bit.AcceptedMeans` | crates/crypto/src/bit.rs:168-210 | Acceptance as an equivalence: finite V, parsed commitments, both branch equations for the hash of prefix, V, A0, A1, and nothing compared infinite. |
| `Bit.Simulated` | crates/crypto/src/bit.rs:24-50 | A simulated transcript satisfies its equation without a witness; it errs exactly when y^c is the identity. |
| `Bit.HonestBit0` | crates/crypto/src/bit.rs:52-99 | A bit-0 proof commits to 0 and satisfies both equations, the simulated branch included. |
| `Bit.HonestBit1` | crates/crypto/src/bit.rs:101-136 | A bit-1 proof commits to 1 and satisfies both equations, the simulated branch included. |
| `Bit.Complete` | crates/crypto/src/bit.rs:52-210 | Every returned proof commits to its bit and is accepted, or reported as infinity exactly when a compared or negated point is the identity. |
| `Bit.ProveErrors` | crates/crypto/src/bit.rs:149-165 | The prover errs only with "not a bit" or the point at infinity. |
| `Bit.OpeningOpens` | crates/crypto/src/bit.rs:168-210 | From two sets of branch equations with different total challenges the computed opening opens V: one branch got two challenges. |
| `Bit.Sound` | crates/crypto/src/bit.rs:168-210 | Two accepting proofs for one V with the same A0, A1 and different total challenges open V as a commitment to 0 or to 1. |
| `Bit.ProofBindsPrefix` | crates/crypto/src/bit.rs:168-210 | A proof accepted for one V under two prefixes means V is g1, or the two named hash inputs give one challenge. |
| `Bit.Bit0DrawsShow` | crates/crypto/src/bit.rs:52-99 | Two bit-0 proofs are equal exactly when the simulated response is, and the simulated challenge and nonce are modulo the order. |
| `Bit.Bit1DrawsShow` | crates/crypto/src/bit.rs:101-136 | Two bit-1 proofs are equal exactly when the simulated response and challenge are, and the nonce is modulo the order. |
| `Bit.Bit0ProvesWhen` | crates/crypto/src/bit.rs:52-99 | The bit-0 prover succeeds exactly when nothing it negates, hashes or serialises is the identity. |
| `Bit.Bit1ProvesWhen` | crates/crypto/src/bit.rs:101-136 | The bit-1 prover succeeds exactly when nothing it negates, hashes or serialises is the identity. |
| `Bit.Bit0ProofHidesBit` | crates/crypto/src/bit.rs:52-136 | For a commitment that opens both ways, a bit-0 proof is also an output of the bit-1 prover exactly when its s1 is reduced and its c0 is not 0. |
| `Bit.Bit1ProofHidesBit` | crates/crypto/src/bit.rs:52-136 | The converse direction, with its own exact condition on the raw draws and the mirrored branch. |
| `SmallCurve.UnreducedResponseShows` | crates/crypto/src/bit.rs:52-99 | A concrete proof with an unreduced simulated response that the other prover cannot output. |
| `SmallCurve.LegacyDoesNotBindR` | crates/crypto/src/elgamal.rs:216-264 | Two concrete accepting legacy proofs with one AL and different nonzero challenges whose extracted randomness does not open R. |
| `SmallCurve.IsLawful` | crates/crypto/src/curve.rs:107-148 | A curve over 7 elements satisfies every assumed law, so the theorems are not vacuous. |
| `SmallCurve.HasProjectiveForm` | crates/crypto/src/curve.rs:88-103 | It also has projective representatives as the multiplication loop assumes them. |
| `Range.ComputeTotalRandomness` | crates/crypto/src/range.rs:25-39 | The loop returns the sum of r_i * 2^i modulo the order, and errs exactly beyond 128 values. |
| `Range.Verify` | crates/crypto/src/range.rs:187-239 | Ok(V) only if every bit proof is accepted and V is the weighted sum of the commitments; otherwise the error of the first refused bit or of a length mismatch. |
| `Range.PrefixesDiffer` | crates/crypto/src/range.rs:187-239 | Bit i is hashed under prefix + i in the field: bit 0 under the caller's prefix, no two bits under the same. |
| `Range.CheckMeans` | crates/crypto/src/range.rs:211-236 | A bit passes exactly when its commitment parses and its proof is accepted under prefix + i. |
| `Range.TiedToPosition` | crates/crypto/src/range.rs:187-239 | A bit proof accepted at two positions for one commitment means the commitment is g1, or the two named hash inputs give one challenge. |
| `Range.WeightedOpening` | crates/crypto/src/range.rs:211-236 | A weighted sum of bit openings opens to the weighted sums of values and randomness. |
| `Range.Sound` | crates/crypto/src/range.rs:187-239 | If the accepted commitments open as bits, V = g1^b * g2^r with b below 2^size and r the total randomness. |
| `Range.KnowledgeSound` | crates/crypto/src/range.rs:187-239 | From two accepted proofs with the same commitments and first moves and different challenges at every bit, the bits and randomness computed from the responses open V, to a value below 2^size. |
| `Range.Binding` | crates/crypto/src/range.rs:187-239 | Two different openings below 2^size, itself at most the order, compute the logarithm of g1 to base g2: the value is pinned without wrap-around. |
| `RangeProver.BitsOfSum` | crates/crypto/src/range.rs:107-122 | The binary digits taken by the prover sum back to the value. |
| `RangeProver.Prove` | crates/crypto/src/range.rs:83-171 | Success is a proof made of the bit proofs plus the total randomness; each error has its exact cause, checked in order. |
| `RangeProver.ProvedMeans` | crates/crypto/src/range.rs:83-171 | Each bit proof is the bit prover's output on digit i, its own randomness and draws, under prefix + i. |
| `RangeProver.Accumulate` | crates/crypto/src/range.rs:149-171 | The accumulation loop collects commitments and proofs in order and the weighted randomness. |
| `RangeProver.CheckHonest` | crates/crypto/src/range.rs:187-239 | On an honest proof each bit check yields the committed point, or infinity exactly when a compared point is. |
| `RangeProver.Complete` | crates/crypto/src/range.rs:83-239 | For every b below 2^size and all randomness, verification reconstructs exactly g1^b * g2^r with the prover's r, or reports infinity; no honest bit proof fails. |
| `Audit.AuditorCipherEncrypts` | crates/crypto/src/audit.rs:122-143 | The special case for balance 0 is the general encryption formula. |
| `Audit.HonestEquations` | crates/crypto/src/audit.rs:253-283 | The prover's responses satisfy the four equations exactly when the statement is true or the challenge is 0. |
| `Audit.Complete` | crates/crypto/src/audit.rs:81-414 | A returned proof is answered Ok, never Err; Ok(true) exactly when the statement holds or the challenge is 0; with validation and y = g^x always Ok(true). |
| `Audit.PrefixHashes` | crates/crypto/src/audit.rs:199-253 | With data the prefix is the hash of the sixteen felts of the statement, in order; without it the domain string. |
| `Audit.PrefixBinds` | crates/crypto/src/audit.rs:199-253 | Two statements with one prefix are one statement, or their felts are a Poseidon collision. |
| `Audit.VerifyMeans` | crates/crypto/src/audit.rs:297-414 | Acceptance as an equivalence: parsed commitments, the recomputed challenge over prefix and commitments, and the four equations. |
| `Audit.ProofBinds` | crates/crypto/src/audit.rs:297-414 | A proof accepted for two statements means they are one, or the named hash inputs collide. |
| `Audit.DrawsShow` | crates/crypto/src/audit.rs:81-283 | Two audits of one statement are equal exactly when all four draws were, modulo the order. |
| `Audit.AcceptedIsHonest` | crates/crypto/src/audit.rs:81-414 | Every accepted proof of a true statement with reduced responses is what the prover returns on the matching draws. |
| `Audit.ProvesWhen` | crates/crypto/src/audit.rs:81-198 | The prover succeeds exactly when nothing it hashes or serialises is the identity and, if it validates, cipher0 encodes the balance. |
| `Audit.Sound` | crates/crypto/src/audit.rs:297-414 | Two accepting proofs with the same commitments and different challenges yield, computed from the responses, one key, one balance and one randomness for all four equations. |
| `Audit.SameBalance` | crates/crypto/src/audit.rs:297-414 | Hence user and auditor, decrypting their ciphertexts with any matching keys, obtain the same g^b. |
| `Address.CompressPoint` | crates/client/src/address.rs:43-58 | The buffer holds the parity prefix and the 32 bytes of x, or the error for the point at infinity. |
| `Address.CompressedForm` | crates/client/src/address.rs:43-58 | 33 bytes: 2 plus the parity of y, then the big-endian x; an error exactly at infinity. |
| `Address.ChosenRoot` | crates/client/src/address.rs:75-92 | Selecting by parity finds y whichever square root the field gives (sections 2.3.3 and 2.3.4 of SEC 1). |
| `Address.RoundTrip` | crates/client/src/address.rs:43-96 | Decompressing the compression of any finite point returns that point. |
| `Address.DecodedPoint` | crates/client/src/address.rs:61-96 | A decoded point has the encoded x modulo the field prime and the parity asked for. |
| `Address.Canonical` | crates/client/src/address.rs:61-96 | Re-encoding a decoded point returns the bytes exactly when their x is below the field prime. |
| `Address.Alias` | crates/client/src/address.rs:61-96 | A point with small x has a second encoding that decodes to it. |
| `Address.DecodesWhen` | crates/client/src/address.rs:61-96 | Decoding succeeds exactly on 33 bytes, prefix 2 or 3, with an x that is the abscissa of some point. |
| `Address.DecodeErrors` | crates/client/src/address.rs:20-96 | Which error decoding reports: length, then prefix byte, then an x that is no abscissa; the last check never fails. |
| `Grinding.StarkConstants` | crates/kms/src/derivation.rs:42-48 | Every u128 and every range-proof value is below the curve order, and the order below the field prime. |
| `Grinding.GrindLimit` | crates/kms/src/derivation.rs:42-48 | The limit equals 2^256 - (2^256 mod n) and is 31 times the order. |
| `Grinding.Unbiased` | crates/kms/src/derivation.rs:494-526 | Each key 1..n-1 comes from equally many of the 2^256 digests, and 0 from none. |
| `Grinding.GrindKey` | crates/kms/src/derivation.rs:494-526 | The key is in 1..n-1 and from the least accepted counter; an error exactly when all 256 counters are rejected. |
| `Hmac.Compute` | crates/kms/src/zeroizing_hmac.rs:36-59 | The one-buffer, re-XORed computation is the definition in section 2 of RFC 2104 for every key of at most one block; errors exactly otherwise. |
| `Hmac.ReXor` | crates/kms/src/zeroizing_hmac.rs:49-56 | XORing with ipad^opad turns the inner pad into the outer one. |
| `Hmac.Expand` | crates/kms/src/zeroizing_hmac.rs:67-85 | For every length up to 8160 the result is the first bytes of T(1) followed by T(2) and so on (section 2.3 of RFC 5869), and an error beyond. |
| `Hmac.FirstBytes` | crates/kms/src/zeroizing_hmac.rs:67-85 | Those bytes do not depend on how many blocks are generated. |
| `Amount.ParsesExactly` | crates/common/src/amount.rs:26-70 | Without a sign in the fraction, parsing succeeds exactly on decimal numerals whose scaled value fits a u128, with that value. |
| `Amount.SignedFractionsParse` | crates/common/src/amount.rs:26-70 | With a sign after the dot, exactly which strings are still accepted and with what value, although none is a numeral. |
| `Amount.SignedFractionParses` | crates/common/src/amount.rs:26-70 | "1.+5" with two decimals parses, to 105. |
| `Amount.TrimForm` | crates/common/src/amount.rs:26-30 | Trimming takes exactly the whitespace at both ends. |
| `Amount.IntegersParse` | crates/common/src/amount.rs:40-60 | An integer is accepted exactly as digits, or a plus sign and digits, that fit a u128, with their value. |
| `Amount.ParseErrors` | crates/common/src/amount.rs:26-70 | Which error parsing reports, in the order the checks are made. |
| `Amount.PrintsExactly` | crates/common/src/amount.rs:83-108 | For every u128 and every number of decimals the printed string denotes raw / 10^decimals. |
| `Amount.PrintsCanonically` | crates/common/src/amount.rs:83-108 | The printed form has no leading zero and a fraction that is "0" or does not end in zero; no dot without decimals. |
| `Amount.RoundTrip` | crates/common/src/amount.rs:26-108 | Printing then parsing returns the amount for 0 to 38 decimals and declines the decimals beyond. |
| `Clock.SystemClock.Advance` | crates/gateway/src/clock.rs:50-66 | One step re-anchors exactly when the wall clock is ahead of the timeline, and returns the higher of the two. |
| `Clock.NeverBackNeverFrozen` | crates/gateway/src/clock.rs:22-66 | Over every run with non-decreasing instants a reading is at least the wall reading, never below an earlier one, and grows by at least the elapsed whole milliseconds until saturation. |
| `Clock.ReadsHighestTimeline` | crates/gateway/src/clock.rs:14-66 | Each reading is exactly the highest of the timelines started by the samples so far. |
| `SnapshotCache.WindowsClamped` | crates/gateway/src/snapshot_cache.rs:82-89 | No policy reaches past one hour fresh and a further day stale. |
| `SnapshotCache.KeyIdentifies` | crates/gateway/src/snapshot_cache.rs:152-175 | Requests share an entry exactly when chain, address, block and tokens agree. |
| `SnapshotCache.ServesWhen` | crates/gateway/src/snapshot_cache.rs:30-89 | Exactly when an entry is a Hit, a Stale for a background view, a fallback, or refused, in milliseconds, with nothing but its cache metadata changed. |
| `SnapshotCache.MetadataForm` | crates/gateway/src/snapshot_cache.rs:91-138 | The exposed generation time is the multiple of five seconds at or below it, and the age reaches the multiple at or above the reading. |
| `SnapshotCache.OnceTooOld` | crates/gateway/src/snapshot_cache.rs:30-80 | An entry refused as fresh, as stale or as fallback at one reading is refused so at every later reading. |
| `SnapshotCache.BlindWithinQuantum` | crates/gateway/src/snapshot_cache.rs:91-138 | For one and the same status, two generation times give the same metadata at every observation time exactly when they lie in one quantum. |
| `SnapshotCache.ResponseShows` | crates/gateway/src/snapshot_cache.rs:30-62 | The responses for two generation times agree exactly when both fall in the same band (fresh, stale, not served) and, if served, in the same quantum. |
| `SnapshotCache.AlikeOnlyIfEqual` | crates/gateway/src/snapshot_cache.rs:19-62 | Over all requests for the key with a positive TTL and all readings the responses agree exactly when the generation times are equal, so quantization does not hide them. |
| `SnapshotCache.ToldApart` | crates/gateway/src/snapshot_cache.rs:30-62 | Entries of 5000 ms and 5001 ms, in one quantum, read at 5002 ms under a TTL of 1 ms: one is Stale, the other a Hit. |
| `SnapshotCache.ReportedAge` | crates/gateway/src/snapshot_cache.rs:91-138 | The reported age is at least the true age and exceeds it by at most 2Q - 2. |
| `SnapshotCache.OverstatedByOneQuantum` | crates/gateway/src/snapshot_cache.rs:91-138 | The overstatement is within one quantum exactly when the reading falls on a quantum boundary or no earlier in its quantum than the generation did in its own. |
| `SnapshotCache.OverstatedByTwoQuanta` | crates/gateway/src/snapshot_cache.rs:91-138 | Generated at 4999 ms and read at 5001 ms, the age is overstated by 2Q - 2. |
| `SnapshotCache.SnapshotStore.Store` | crates/gateway/src/snapshot.rs:187-212 | The new cache is the old one with the entry stored and the front evicted to the ceiling; the loop terminates because the queue lists exactly the cached keys. |
| `SnapshotCache.StoredConsistent` | crates/gateway/src/snapshot.rs:187-212 | A store keeps the queue duplicate-free and equal to the cached keys, and the size within the ceiling. |
| `SnapshotCache.FifoWindow` | crates/gateway/src/snapshot.rs:187-212 | Over every run from empty the queue is exactly the last `max` arrivals. |
| `SnapshotCache.HoldsLastStored` | crates/gateway/src/snapshot.rs:187-212 | Over every run each cached key holds the entry last stored under it. |
| `SnapshotFetch.FetchSnapshot` | crates/gateway/src/snapshot.rs:122-178 | Result and issued queries are functions of the cache key alone, so requests with equal keys ask the same and get the same. |
| `SnapshotFetch.FetchCost` | crates/gateway/src/snapshot.rs:122-178 | A fetch issues at most three queries and one per token, a nonce query exactly for deployed accounts; a success lists every token in order with the backend's amount. |
| `SnapshotFetch.FetchedWhen` | crates/gateway/src/snapshot.rs:122-178 | A fetch succeeds exactly when deployment, the nonce of a deployed account and every balance are answered; block metadata never fails it. |
| `SnapshotFetch.FetchedShows` | crates/gateway/src/snapshot.rs:122-178 | A fetched snapshot shows the backend's deployment, nonce, balances and block (or the bare selector), as a Miss of age 0 with the fetch time rounded down. |
| `SnapshotFetch.AsksAll` | crates/gateway/src/snapshot.rs:122-178 | The queries of a successful fetch, in order. |
| `SnapshotFetch.FailsFirst` | crates/gateway/src/snapshot.rs:122-178 | A fetch stops at the first failing answer, having asked exactly up to it, and reports that error. |
| `OperationStore.Store.constructor` | crates/gateway/src/operations.rs:20-26 | The store starts empty with revision 1. |
| `OperationStore.Store.Get` | crates/gateway/src/operations.rs:28-31 | One lookup step of the store: prunes at the given time, then returns the status found. |
| `OperationStore.Store.Insert` | crates/gateway/src/operations.rs:33-45 | One write step of the store: takes the next revision, saturating, then prunes. |
| `OperationStore.Store.Prune` | crates/gateway/src/operations.rs:47-81 | Entries past the TTL become Expired; as many as fit are kept unchanged; everything dropped is expired before, or of lower revision than, everything kept. |
| `OperationStore.SortSorts` | crates/gateway/src/operations.rs:67-75 | The eviction order is a sorted permutation of the entries. |
| `StoreHistory.ReadsHistory` | crates/gateway/src/operations.rs:28-81 | Over every run, whatever its times, a retained entry is the status last written under its id; it reads Expired exactly when written so or when some event since came more than the TTL after; the size stays bounded. |
| `StoreHistory.LazyExpiry` | crates/gateway/src/operations.rs:47-57 | With times in order that is exactly when the last event came more than the TTL after the write. |
| `StoreHistory.ExpiresEarly` | crates/gateway/src/operations.rs:47-57 | With times out of order an entry can read Expired within its TTL. |
| `StoreHistory.Retained` | crates/gateway/src/operations.rs:33-81 | Over every run, an unexpired entry is still present while fewer than `max` other ids were written since. |
| `StoreHistory.MostRecentlyWritten` | crates/gateway/src/operations.rs:33-81 | Over every run with times in order that writes nothing Expired, the store holds exactly the `max` most recently written ids. |
| `Flows.DecisionsAgree` | crates/gateway/src/accounts.rs:20-225 | For every answer of the world the terminal state is Rejected with the returned error exactly when one is returned, and provenance names the backend's chain and a path of its key domain. |
| `Flows.SucceedsWhen` | crates/gateway/src/signing.rs:21-189 | Derive, check, deploy and sign calls succeed exactly when the request is admissible (chain, coin type, class, wait bounds, opt-in, event id length) and every answer they ask for is a success. |
| `Flows.DecisionsReport` | crates/gateway/src/accounts.rs:20-225 | A success says exactly what the world answered: account fields and provenance, deployment, transaction, signature; and agrees with the written state. |
| `Flows.FailsWithFirst` | crates/gateway/src/accounts.rs:20-225 | A call fails exactly with the error of the first obstacle in the listed order of checks and answers. |
| `Flows.RejectedWith` | crates/gateway/src/signing.rs:21-189 | A rejection carries the account's provenance once it was derived, the signing chain once the key was resolved, and otherwise none. |
| `GatewayRuns.StoreFollows` | crates/gateway/src/gateway.rs:233-303 | In every interleaving the operation store is in a state its own history of writes and lookups explains. |
| `GatewayRuns.CacheFollows` | crates/gateway/src/snapshot.rs:78-120 | In every interleaving the cache is what its sequence of stores makes of it. |
| `GatewayRuns.AlwaysSound` | crates/gateway/src/snapshot.rs:25-120 | Invariant of every run: pending outcomes agree with their answers and are explained by the trace, and every entry ever stored was fetched in the run by a call that queried its key, as of its query reading. |
| `GatewayRuns.Lifecycle` | crates/gateway/src/gateway.rs:233-303 | In every interleaving each call that draws an id writes under it, with its own kind, first Queued, then Running, both without provenance, then exactly one terminal status: Rejected with the returned error iff it returns Err, otherwise the response's operation. |
| `GatewayRuns.SnapshotsServed` | crates/gateway/src/snapshot.rs:25-120 | Every returned snapshot is the call's own fetch, made after an unanswered lookup and saved, or the entry stored last under its key when the call looked it up: a Hit within min(ttl, 1 h) of its query reading, a Stale within the clamped window, and for an active view only after its own fetch failed. |
| `GatewayRuns.SnapshotsShow` | crates/gateway/src/snapshot.rs:25-178 | Every returned snapshot, fresh or cached, shows what a backend answered some fetch of the run for that key. |
| `GatewayRuns.CacheAlways` | crates/gateway/src/snapshot_cache.rs:140-209 | In every reachable state the queue lists each cached key once, the size is within the ceiling, and each key holds the entry stored last under it, which a call of the run fetched for that key as of its query reading. |
| `GatewayRuns.AdmittedAlways` | crates/gateway/src/gateway.rs:161-231 | In every run a call that returned a success had an admissible request: the backend's chain, a positive TTL and at most 16 tokens for a query, wait bounds for a deployment, opt-in for a raw hash. |
| `GatewayRuns.ReportedAlways` | crates/gateway/src/accounts.rs:20-225 | In every run a successful derive, check, deploy or sign response says what that call was told, and agrees with the operation written for it. |
| `GatewayRuns.FailuresExplained` | crates/gateway/src/snapshot.rs:35-120 | In every run a failed query was not admitted, with the code for the first reason, or its own fetch failed with that error and what it had looked up was too old to fall back on; any other failed call was stopped by that error first. |
| `GatewayStatus.AttestedAlways` | crates/gateway/src/signing.rs:192-200 | Over every run no status is written Expired, and every written provenance names the backend's chain and a path of its key domain. |
| `GatewayStatus.WritesOwn` | crates/gateway/src/gateway.rs:272-288 | Calls write only under the id they drew. |
| `GatewayStatus.TimedAlways` | crates/gateway/src/gateway.rs:272-288 | No time handed to the store is ahead of the clock, although times may arrive out of order. |
| `GatewayStatus.StatusAlways` | crates/gateway/src/gateway.rs:96-104 | A lookup at any point of a run finds the last status the call wrote, aged, and nothing before its first write; unchanged while the clock is within the TTL of the write and fewer than `max` other ids were written. |
| `GatewayStatus.StatusAfterReturn` | crates/gateway/src/gateway.rs:96-104 | For a returned call that status is the terminal one that closes it. |
| `GatewayProgress.StepsBounded` | crates/gateway/src/gateway.rs:96-303 | In every run a call takes at most eleven steps, counting those it has left, and fetches at most once. |
| `GatewayProgress.FetchesBounded` | crates/gateway/src/snapshot.rs:44-62 | Every fetch of every run belongs to an admissible query and costs the backend at most 19 queries. |
| `GatewayProgress.Progress` | crates/gateway/src/gateway.rs:96-303 | In every reachable state every unfinished call has a step to take that uses whatever id, time, answers and backend the world gives: its decision is on those answers and its fetch from that backend. |
| `GatewayRaces.SaveLowers` | crates/gateway/src/snapshot.rs:187-212 | A save always replaces the cached entry; it lowers the generation time exactly when the saver's query reading is below it, and only if another call saved that entry between the saver's lookup and its save. |
| `GatewayRaces.OlderReplacesNewer` | crates/gateway/src/snapshot.rs:78-104 | A run of two queries for one key in which an entry fetched later is replaced by one fetched earlier. |

## Left out

- The group laws, the field's square roots and the coordinates of points are assumptions (`Curve.Lawful`, `ScalarMultiplication.Faithful`, `Address.SquareRoots`): the arithmetic is library code. Pedersen, Poseidon and SHA are arbitrary functions.
- `Felt::from_bytes_be` is taken to reduce modulo the field prime.
- Computational claims: zero knowledge in distribution, collision resistance, discrete-log hardness. Randomness is an argument everywhere.
- Constant-time behaviour, zeroization, redaction and memory hygiene.
- Range.Verify: for sizes 1 to 128; the code indexes commitment 0 and shifts a 128-bit one outside that.
- RangeProver.Prove: the bit proofs are made in order; the code makes them in parallel and keeps the first error, which is the point at infinity in every case.
- ElGamal.DecryptBalanceWithLimit: for limits below the group order, which holds of every u128.
- Amount.ParsesExactly: lengths are counted in characters; the code counts bytes, which differs only on fractions with non-ASCII characters, and those are errors either way.
- OperationStore.Store.Prune: the order of entries with equal revisions is one of those the unstable sort may produce; the specification admits them all.
- StoreHistory.MostRecentlyWritten: for fewer than 2^64 - 1 events, so that revisions do not saturate, and for histories without explicitly Expired writes, which the gateway never makes; the general retention bound is `StoreHistory.Retained`.
- GatewayStatus.StatusAlways: for ids no other call has drawn; ids are 128 random bits.
- GatewayRuns.Lifecycle: the account, signing and snapshot methods are modelled on values, as steps between their awaits, because calls interleave there; cancellation of a call between steps is the call taking no more steps.
- SnapshotFetch.FetchSnapshot: the backend answers one fetch as functions; a backend whose answers change between two identical queries of one fetch is not distinguished.
- Flows.DecisionsAgree: error messages are dropped, key resolution and address derivation are one answer each, and the account class spec is reduced to its kind.
- The account-class tables, salt policies, address and signature computation, and the mapping of library errors to gateway errors.
- BIP-32 and BIP-39 derivation beyond grinding, the keystore, base58, fees, RPC providers, contract clients, multisig, staking and the foreign-function interfaces: wrappers over libraries.

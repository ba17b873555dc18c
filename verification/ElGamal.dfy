/** ElGamal encryption of balances, its proof of correct encryption under two
    transcript shapes, decryption, and recovery of small plaintexts. */
module ElGamal {
  import opened Numbers
  import opened Outcomes
  import opened Curve
  import opened Scalar
  import opened Transcript
  import opened Sigma
  import opened Poe
  import opened Poe2

  datatype Ciphertext<P> = Ciphertext(l: P, r: P)
  datatype EncryptionProof = EncryptionProof(al: Affine, ar: Affine, sb: nat, sr: nat, c: nat)
  datatype Encryption<P> = Encryption(l: P, r: P, proof: EncryptionProof)

  /** Legacy hashes (L, R, AL); Strong hashes (pk, L, R, AL, AR). */
  datatype Shape = Legacy | Strong

  function Hashed<P>(shape: Shape, pk: P, l: P, r: P, al: P, ar: P): seq<P> {
    match shape
    case Legacy => [l, r, al]
    case Strong => [pk, l, r, al, ar]
  }

  function Challenge<P(==)>(ec: Curve<P>, ro: Oracle, shape: Shape, prefix: nat, pk: P, l: P, r: P, al: P,
                            ar: P): Result<nat> {
    PedersenChallenge(ec, ro, prefix, Hashed(shape, pk, l, r, al, ar))
  }

  function ProveEncryption<P(==)>(ec: Curve<P>, ro: Oracle, shape: Shape, message: nat, random: nat, pk: P,
                                  l: P, r: P, prefix: nat, rb: nat, rr: nat): Result<EncryptionProof> {
    var al := Combine(ec, rb, ec.g, rr, pk);
    var ar := Times(ec, rr, ec.g);
    var c :- Challenge(ec, ro, shape, prefix, pk, l, r, al, ar);
    var sb := Response(ec.n, rb, c, message);
    var sr := Response(ec.n, rr, c, random);
    var alAffine :- ToAffine(ec, al);
    var arAffine :- ToAffine(ec, ar);
    Ok(EncryptionProof(alAffine, arAffine, sb, sr, c))
  }

  /** L = g^m + pk^random, R = g^random; `rb` and `rr` are the proof's draws. */
  function Encrypt<P(==)>(ec: Curve<P>, ro: Oracle, shape: Shape, message: nat, pk: P, random: nat, prefix: nat,
                          rb: nat, rr: nat): Result<Encryption<P>> {
    var l := Combine(ec, message, ec.g, random, pk);
    var r := Times(ec, random, ec.g);
    var proof :- ProveEncryption(ec, ro, shape, message, random, pk, l, r, prefix, rb, rr);
    Ok(Encryption(l, r, proof))
  }

  function VerifyInner<P(==)>(ec: Curve<P>, ro: Oracle, shape: Shape, l: P, r: P, pk: P, proof: EncryptionProof,
                              prefix: nat)
    : Result<bool>
  {
    var al :- FromAffine(ec, proof.al);
    var ar :- FromAffine(ec, proof.ar);
    var c :- Challenge(ec, ro, shape, prefix, pk, l, r, al, ar);
    if proof.c != c then Ok(false)
    else
      var first :- EqualAffine(ec, Times(ec, proof.sr, ec.g), ec.add(ar, Times(ec, proof.c, r)));
      if !first then Ok(false)
      else EqualAffine(ec, Combine(ec, proof.sb, ec.g, proof.sr, pk), ec.add(al, Times(ec, proof.c, l)))
  }

  /** The points the prover hashes or serialises; it fails iff one of them is
      the point at infinity. */
  ghost predicate Degenerate<P>(ec: Curve<P>, shape: Shape, pk: P, l: P, r: P, al: P, ar: P) {
    l == ec.zero || r == ec.zero || al == ec.zero || ar == ec.zero || (shape.Strong? && pk == ec.zero)
  }

  lemma HashedFinite<P>(ec: Curve<P>, shape: Shape, pk: P, l: P, r: P, al: P, ar: P)
    ensures AllFinite(ec, Hashed(shape, pk, l, r, al, ar)) <==>
            l != ec.zero && r != ec.zero && al != ec.zero
            && (shape.Strong? ==> pk != ec.zero && ar != ec.zero)
  {
    var h := Hashed(shape, pk, l, r, al, ar);
    if shape.Legacy? {
      assert h[0] == l && h[1] == r && h[2] == al;
    } else {
      assert h[0] == pk && h[1] == l && h[2] == r && h[3] == al && h[4] == ar;
    }
  }

  /** Completeness of each transcript shape against itself: an honest proof
      never fails an equation, and it is reported as the point at infinity
      exactly when one of the compared left-hand sides is. */
  lemma Complete<P(!new)>(ec: Curve<P>, ro: Oracle, shape: Shape, message: nat, pk: P, random: nat, prefix: nat,
                          rb: nat, rr: nat)
    requires Lawful(ec)
    ensures var l, r := Combine(ec, message, ec.g, random, pk), Times(ec, random, ec.g);
            var al, ar := Combine(ec, rb, ec.g, rr, pk), Times(ec, rr, ec.g);
            match Encrypt(ec, ro, shape, message, pk, random, prefix, rb, rr)
            case Err(e) => e == PointAtInfinity && Degenerate(ec, shape, pk, l, r, al, ar)
            case Ok(enc) =>
              && !Degenerate(ec, shape, pk, l, r, al, ar)
              && enc.l == l && enc.r == r
              && VerifyInner(ec, ro, shape, l, r, pk, enc.proof, prefix) ==
                 if enc.proof.sr == 0 || Combine(ec, enc.proof.sb, ec.g, enc.proof.sr, pk) == ec.zero
                 then Err(PointAtInfinity) else Ok(true)
  {
    var l, r := Combine(ec, message, ec.g, random, pk), Times(ec, random, ec.g);
    var al, ar := Combine(ec, rb, ec.g, rr, pk), Times(ec, rr, ec.g);
    HashedFinite(ec, shape, pk, l, r, al, ar);
    match Encrypt(ec, ro, shape, message, pk, random, prefix, rb, rr)
    case Err(_) =>
    case Ok(enc) => HonestProofVerifies(ec, ro, shape, message, pk, random, prefix, rb, rr);
  }

  lemma HonestProofVerifies<P(!new)>(ec: Curve<P>, ro: Oracle, shape: Shape, message: nat, pk: P, random: nat,
                                     prefix: nat,
                                     rb: nat, rr: nat)
    requires Lawful(ec) && Encrypt(ec, ro, shape, message, pk, random, prefix, rb, rr).Ok?
    ensures var enc := Encrypt(ec, ro, shape, message, pk, random, prefix, rb, rr).value;
            VerifyInner(ec, ro, shape, enc.l, enc.r, pk, enc.proof, prefix) ==
            if enc.proof.sr == 0 || Combine(ec, enc.proof.sb, ec.g, enc.proof.sr, pk) == ec.zero
            then Err(PointAtInfinity) else Ok(true)
  {
    var enc := Encrypt(ec, ro, shape, message, pk, random, prefix, rb, rr).value;
    var al, ar := Combine(ec, rb, ec.g, rr, pk), Times(ec, rr, ec.g);
    var c, sb, sr := enc.proof.c, enc.proof.sb, enc.proof.sr;
    AffineRoundTrip(ec, al, al);
    AffineRoundTrip(ec, ar, ar);
    ResponseMul(ec, rr, c, random, ec.g);
    CombineResponses(ec, rb, rr, c, message, random, ec.g, pk);
    EqualAffineCompares(ec, Times(ec, sr, ec.g), ec.add(ar, Times(ec, c, enc.r)));
    EqualAffineCompares(ec, Combine(ec, sb, ec.g, sr, pk), ec.add(al, Times(ec, c, enc.l)));
    TimesIsZero(ec, sr, ec.g);
  }

  /** An honest proof of one shape shown to a verifier of the other: rejected,
      unless the two hash chains meet. */
  lemma ShapesSeparate<P(!new)>(ec: Curve<P>, ro: Oracle, message: nat, pk: P, random: nat, prefix: nat,
                                rb: nat, rr: nat, shape: Shape, other: Shape)
    requires Lawful(ec) && pk != ec.zero
    requires Encrypt(ec, ro, shape, message, pk, random, prefix, rb, rr).Ok?
    ensures var enc := Encrypt(ec, ro, shape, message, pk, random, prefix, rb, rr).value;
            var al, ar := Combine(ec, rb, ec.g, rr, pk), Times(ec, rr, ec.g);
            Challenge(ec, ro, other, prefix, pk, enc.l, enc.r, al, ar) != Ok(enc.proof.c)
            <==> VerifyInner(ec, ro, other, enc.l, enc.r, pk, enc.proof, prefix) == Ok(false)
  {
    var enc := Encrypt(ec, ro, shape, message, pk, random, prefix, rb, rr).value;
    var al, ar := Combine(ec, rb, ec.g, rr, pk), Times(ec, rr, ec.g);
    HashedFinite(ec, shape, pk, enc.l, enc.r, al, ar);
    HashedFinite(ec, other, pk, enc.l, enc.r, al, ar);
    AffineRoundTrip(ec, al, al);
    AffineRoundTrip(ec, ar, ar);
    HonestProofVerifies(ec, ro, shape, message, pk, random, prefix, rb, rr);
  }

  /** Acceptance, as equations on the parsed commitments. */
  lemma AcceptedMeans<P(!new)>(ec: Curve<P>, ro: Oracle, shape: Shape, l: P, r: P, pk: P, proof: EncryptionProof,
                               prefix: nat)
    requires Lawful(ec) && VerifyInner(ec, ro, shape, l, r, pk, proof, prefix) == Ok(true)
    ensures var al, ar := FromAffine(ec, proof.al), FromAffine(ec, proof.ar);
            && al.Ok? && ar.Ok? && ec.coords(al.value) == proof.al && ec.coords(ar.value) == proof.ar
            && AllFinite(ec, Hashed(shape, pk, l, r, al.value, ar.value))
            && Times(ec, proof.sr, ec.g) == ec.add(ar.value, Times(ec, proof.c, r))
            && Combine(ec, proof.sb, ec.g, proof.sr, pk) == ec.add(al.value, Times(ec, proof.c, l))
  {
    FromAffineFinite(ec, proof.al);
    FromAffineFinite(ec, proof.ar);
    var al, ar := FromAffine(ec, proof.al).value, FromAffine(ec, proof.ar).value;
    EqualAffineCompares(ec, Times(ec, proof.sr, ec.g), ec.add(ar, Times(ec, proof.c, r)));
    EqualAffineCompares(ec, Combine(ec, proof.sb, ec.g, proof.sr, pk), ec.add(al, Times(ec, proof.c, l)));
  }

  /** Extraction: two accepted proofs with the same AL and different challenges
      open L.  The same exponent opens R exactly when AR was repeated too. */
  lemma Sound<P(!new)>(ec: Curve<P>, ro: Oracle, ro': Oracle, shape: Shape, shape': Shape, l: P, r: P, pk: P,
                       proof: EncryptionProof, prefix: nat, proof': EncryptionProof, prefix': nat)
    requires Lawful(ec)
    requires VerifyInner(ec, ro, shape, l, r, pk, proof, prefix) == Ok(true)
    requires VerifyInner(ec, ro', shape', l, r, pk, proof', prefix') == Ok(true)
    requires proof.al == proof'.al && Mod(proof.c, ec.n) != Mod(proof'.c, ec.n)
    ensures var m := Witness(ec.n, proof.c, proof.sb, proof'.c, proof'.sb);
            var k := Witness(ec.n, proof.c, proof.sr, proof'.c, proof'.sr);
            l == Combine(ec, m, ec.g, k, pk) && (r == Times(ec, k, ec.g) <==> proof.ar == proof'.ar)
  {
    AcceptedMeans(ec, ro, shape, l, r, pk, proof, prefix);
    AcceptedMeans(ec, ro', shape', l, r, pk, proof', prefix');
    hide VerifyInner;
    var al, ar, ar' := FromAffine(ec, proof.al).value, FromAffine(ec, proof.ar).value, FromAffine(ec, proof'.ar).value;
    SameCommitment(ec, ec.g, ar, ar', r, proof.c, proof.sr, proof'.c, proof'.sr);
    Extract(ec, ec.g, pk, al, l, proof.c, proof.sb, proof.sr, proof'.c, proof'.sb, proof'.sr);
  }

  /** The strong transcript hashes AR, so repeating the hashed input repeats
      both commitments, and one randomness opens both halves. */
  lemma StrongSound<P(!new)>(ec: Curve<P>, ro: Oracle, ro': Oracle, l: P, r: P, pk: P,
                             proof: EncryptionProof, prefix: nat, proof': EncryptionProof, prefix': nat)
    requires Lawful(ec)
    requires VerifyInner(ec, ro, Strong, l, r, pk, proof, prefix) == Ok(true)
    requires VerifyInner(ec, ro', Strong, l, r, pk, proof', prefix') == Ok(true)
    requires Mod(proof.c, ec.n) != Mod(proof'.c, ec.n)
    requires FromAffine(ec, proof.al).Ok? && FromAffine(ec, proof.ar).Ok?
    requires FromAffine(ec, proof'.al).Ok? && FromAffine(ec, proof'.ar).Ok?
    requires Absorbed(ec, Hashed(Strong, pk, l, r, FromAffine(ec, proof.al).value, FromAffine(ec, proof.ar).value))
          == Absorbed(ec, Hashed(Strong, pk, l, r, FromAffine(ec, proof'.al).value, FromAffine(ec, proof'.ar).value))
    ensures var m := Witness(ec.n, proof.c, proof.sb, proof'.c, proof'.sb);
            var k := Witness(ec.n, proof.c, proof.sr, proof'.c, proof'.sr);
            l == Combine(ec, m, ec.g, k, pk) && r == Times(ec, k, ec.g)
  {
    AcceptedMeans(ec, ro, Strong, l, r, pk, proof, prefix);
    AcceptedMeans(ec, ro', Strong, l, r, pk, proof', prefix');
    var h := Hashed(Strong, pk, l, r, FromAffine(ec, proof.al).value, FromAffine(ec, proof.ar).value);
    var h' := Hashed(Strong, pk, l, r, FromAffine(ec, proof'.al).value, FromAffine(ec, proof'.ar).value);
    AbsorbedInjective(ec, h, h');
    assert h[3] == h'[3] && h[4] == h'[4];
    hide VerifyInner;
    Sound(ec, ro, ro', Strong, Strong, l, r, pk, proof, prefix, proof', prefix');
  }

  /** The legacy transcript does not hash AR: from an opening of L alone, and
      any finite R, an accepted proof follows, finiteness aside.  (The challenge
      is the same for every AR; the point at infinity stands for it.) */
  lemma LegacyLeavesRFree<P(!new)>(ec: Curve<P>, ro: Oracle, m: nat, k: nat, pk: P, r: P, prefix: nat, rb: nat,
                                   rr: nat, c: nat)
    requires Lawful(ec)
    requires Challenge(ec, ro, Legacy, prefix, pk, Combine(ec, m, ec.g, k, pk), r, Combine(ec, rb, ec.g, rr, pk), ec.zero) == Ok(c)
    ensures var l, al := Combine(ec, m, ec.g, k, pk), Combine(ec, rb, ec.g, rr, pk);
            var sb, sr := Response(ec.n, rb, c, m), Response(ec.n, rr, c, k);
            var ar := Sub(ec, Times(ec, sr, ec.g), Times(ec, c, r));
            ar != ec.zero ==>
              VerifyInner(ec, ro, Legacy, l, r, pk, EncryptionProof(ec.coords(al), ec.coords(ar), sb, sr, c), prefix) ==
              if sr == 0 || Combine(ec, sb, ec.g, sr, pk) == ec.zero then Err(PointAtInfinity) else Ok(true)
  {
    var l, al := Combine(ec, m, ec.g, k, pk), Combine(ec, rb, ec.g, rr, pk);
    var sb, sr := Response(ec.n, rb, c, m), Response(ec.n, rr, c, k);
    var ar := Sub(ec, Times(ec, sr, ec.g), Times(ec, c, r));
    HashedFinite(ec, Legacy, pk, l, r, al, ec.zero);
    if ar != ec.zero {
      AffineRoundTrip(ec, al, ar);
      AffineRoundTrip(ec, ar, al);
      AddSub(ec, Times(ec, sr, ec.g), Times(ec, c, r));
      CombineResponses(ec, rb, rr, c, m, k, ec.g, pk);
      EqualAffineCompares(ec, Times(ec, sr, ec.g), ec.add(ar, Times(ec, c, r)));
      EqualAffineCompares(ec, Combine(ec, sb, ec.g, sr, pk), ec.add(al, Times(ec, c, l)));
      TimesIsZero(ec, sr, ec.g);
    }
  }

  /** The felts of each transcript, in order. */
  function HashedFelts<P>(ec: Curve<P>, shape: Shape, pk: P, l: P, r: P, al: P, ar: P): seq<nat> {
    var xy := (q: P) => [ec.coords(q).x, ec.coords(q).y];
    if shape.Legacy? then xy(l) + xy(r) + xy(al) else xy(pk) + xy(l) + xy(r) + xy(al) + xy(ar)
  }

  /** Legacy challenges are chained over L, R, AL; strong ones over the key, L,
      R, AL, AR; both from the prefix. */
  lemma ChallengeHashes<P>(ec: Curve<P>, ro: Oracle, shape: Shape, prefix: nat, pk: P, l: P, r: P, al: P, ar: P)
    ensures Challenge(ec, ro, shape, prefix, pk, l, r, al, ar) ==
            if l != ec.zero && r != ec.zero && al != ec.zero && (shape.Strong? ==> pk != ec.zero && ar != ec.zero)
            then Ok(Chain(ro, prefix, HashedFelts(ec, shape, pk, l, r, al, ar))) else Err(PointAtInfinity)
  {
    HashedFinite(ec, shape, pk, l, r, al, ar);
    AbsorbedThree(ec, l, r, al);
    var h := Hashed(shape, pk, l, r, al, ar);
    if shape.Strong? {
      assert h == [pk] + [l, r, al] + [ar];
      AbsorbedSplit(ec, [pk] + [l, r, al], [ar]);
      AbsorbedSplit(ec, [pk], [l, r, al]);
      AbsorbedOne(ec, pk);
      AbsorbedOne(ec, ar);
    }
    assert Absorbed(ec, h) == HashedFelts(ec, shape, pk, l, r, al, ar);
  }

  lemma AbsorbedOne<P>(ec: Curve<P>, a: P)
    ensures Absorbed(ec, [a]) == [ec.coords(a).x, ec.coords(a).y]
  {
    assert [a][1..] == [];
  }

  lemma AbsorbedThree<P>(ec: Curve<P>, a: P, b: P, c: P)
    ensures Absorbed(ec, [a, b, c]) ==
            [ec.coords(a).x, ec.coords(a).y, ec.coords(b).x, ec.coords(b).y, ec.coords(c).x, ec.coords(c).y]
  {
    assert [a, b, c] == [a] + [b] + [c];
    AbsorbedSplit(ec, [a] + [b], [c]);
    AbsorbedSplit(ec, [a], [b]);
    AbsorbedOne(ec, a);
    AbsorbedOne(ec, b);
    AbsorbedOne(ec, c);
  }

  // ----- the prover's draws

  /** Two proofs of one encryption are equal exactly when both draws were, modulo
      the order. */
  lemma DrawsShow<P(!new)>(ec: Curve<P>, ro: Oracle, shape: Shape, m: nat, k: nat, pk: P, l: P, r: P, prefix: nat,
                           rb: nat, rr: nat, proof: EncryptionProof, rb': nat, rr': nat, proof': EncryptionProof)
    requires Lawful(ec)
    requires ProveEncryption(ec, ro, shape, m, k, pk, l, r, prefix, rb, rr) == Ok(proof)
    requires ProveEncryption(ec, ro, shape, m, k, pk, l, r, prefix, rb', rr') == Ok(proof')
    ensures proof == proof' <==> Mod(rb, ec.n) == Mod(rb', ec.n) && Mod(rr, ec.n) == Mod(rr', ec.n)
  {
    hide Lawful, Times, Mod, Response, Challenge;
    if Mod(rb, ec.n) == Mod(rb', ec.n) && Mod(rr, ec.n) == Mod(rr', ec.n) {
      TimesCongruent(ec, rb, rb', ec.g);
      TimesCongruent(ec, rr, rr', ec.g);
      TimesCongruent(ec, rr, rr', pk);
    }
    ResponseInjective(ec.n, rb, rb', proof.c, m);
    ResponseInjective(ec.n, rr, rr', proof.c, k);
  }

  /** The honest proofs of an encryption are exactly the accepted ones with
      reduced responses. */
  lemma AcceptedIsHonest<P(!new)>(ec: Curve<P>, ro: Oracle, shape: Shape, m: nat, k: nat, pk: P, prefix: nat,
                                  proof: EncryptionProof)
    requires Lawful(ec) && proof.sb < ec.n && proof.sr < ec.n
    requires VerifyInner(ec, ro, shape, Combine(ec, m, ec.g, k, pk), Times(ec, k, ec.g), pk, proof, prefix) == Ok(true)
    ensures Encrypt(ec, ro, shape, m, pk, k, prefix, ScalarSub(ec.n, proof.sb, ScalarMul(ec.n, proof.c, m)),
                    ScalarSub(ec.n, proof.sr, ScalarMul(ec.n, proof.c, k)))
         == Ok(Encryption(Combine(ec, m, ec.g, k, pk), Times(ec, k, ec.g), proof))
  {
    var l, r := Combine(ec, m, ec.g, k, pk), Times(ec, k, ec.g);
    AcceptedMeans(ec, ro, shape, l, r, pk, proof, prefix);
    FromAffineFinite(ec, proof.al);
    FromAffineFinite(ec, proof.ar);
    var al, ar := FromAffine(ec, proof.al).value, FromAffine(ec, proof.ar).value;
    NonceCommitment2(ec, proof.sb, proof.sr, proof.c, m, k, ec.g, pk);
    AddSub(ec, al, Times(ec, proof.c, l));
    NonceCommitment(ec, proof.sr, proof.c, k, ec.g);
    AddSub(ec, ar, Times(ec, proof.c, r));
    ResponseOfNonce(ec.n, proof.sb, proof.c, m);
    ResponseOfNonce(ec.n, proof.sr, proof.c, k);
  }

  // ----- decryption

  function Decrypt<P(==)>(ec: Curve<P>, cipher: Ciphertext<P>, sk: nat): Result<P> {
    var rsk := Times(ec, sk, cipher.r);
    if ToAffine(ec, rsk).Err? then Ok(cipher.l)
    else
      var neg :- Negate(ec, rsk);
      Ok(ec.add(cipher.l, neg))
  }

  /** Decryption never fails; it subtracts sk * R, the identity case included. */
  lemma DecryptSubtracts<P(!new)>(ec: Curve<P>, cipher: Ciphertext<P>, sk: nat)
    requires Lawful(ec)
    ensures Decrypt(ec, cipher, sk) == Ok(Sub(ec, cipher.l, Times(ec, sk, cipher.r)))
  {
    var rsk := Times(ec, sk, cipher.r);
    NegateIsNeg(ec, rsk);
    AddSub(ec, cipher.l, ec.zero);
    ZeroLeft(ec, cipher.l);
  }

  /** The ciphertext encrypts m with randomness k under the key of sk. */
  ghost predicate Encrypts<P>(ec: Curve<P>, cipher: Ciphertext<P>, m: nat, k: nat, sk: nat) {
    cipher.l == Combine(ec, m, ec.g, k, Times(ec, sk, ec.g)) && cipher.r == Times(ec, k, ec.g)
  }

  lemma TimesCommute<P(!new)>(ec: Curve<P>, i: nat, j: nat, q: P)
    requires Lawful(ec)
    ensures Times(ec, i, Times(ec, j, q)) == Times(ec, j, Times(ec, i, q))
  {
    TimesMul(ec, i, j, q);
    TimesMul(ec, j, i, q);
    assert i * j == j * i;
  }

  /** Decrypting an encryption of m gives g^m, for every key and randomness. */
  lemma DecryptsToMessage<P(!new)>(ec: Curve<P>, cipher: Ciphertext<P>, m: nat, k: nat, sk: nat)
    requires Lawful(ec) && Encrypts(ec, cipher, m, k, sk)
    ensures Decrypt(ec, cipher, sk) == Ok(Times(ec, m, ec.g))
  {
    DecryptSubtracts(ec, cipher, sk);
    TimesCommute(ec, sk, k, ec.g);
    AddSub(ec, Times(ec, m, ec.g), Times(ec, k, Times(ec, sk, ec.g)));
  }

  const NOT_RECOVERED: KmsError := CryptoError("Failed to recover balance within search limit")

  /** Linear search for a small discrete logarithm.  Below the order `current`
      is never the point at infinity, so the search itself does not fail. */
  method RecoverSmallDiscreteLog<P(!new, ==)>(ec: Curve<P>, point: P, maxSearch: nat) returns (r: Result<nat>)
    requires Lawful(ec) && maxSearch < ec.n
    ensures r.Ok? ==> r.value <= maxSearch && Times(ec, r.value, ec.g) == point
    ensures r.Err? ==> r.error == NOT_RECOVERED && forall m: nat :: m <= maxSearch ==> Times(ec, m, ec.g) != point
  {
    if ToAffine(ec, point).Err? {
      return Ok(0);
    }
    var target := ec.coords(point);
    var current := ec.g;
    TimesOne(ec, ec.g);
    for value := 1 to maxSearch + 1
      invariant current == Times(ec, value, ec.g)
      invariant forall m: nat :: m < value ==> Times(ec, m, ec.g) != point
    {
      TimesIsZero(ec, value, ec.g);
      AffineRoundTrip(ec, current, point);
      if ToAffine(ec, current).Err? {
        assert false;  // value * g is finite for 0 < value < n
      } else if ec.coords(current) == target {
        return Ok(value);
      }
      current := ec.add(current, ec.g);
    }
    r := Err(NOT_RECOVERED);
  }

  /** `decrypt_balance_with_limit`: on any encryption of m the search returns m
      modulo the order, or fails exactly when that exceeds the limit. */
  method DecryptBalanceWithLimit<P(!new, ==)>(ec: Curve<P>, cipher: Ciphertext<P>, sk: nat, maxSearch: nat)
    returns (r: Result<nat>)
    requires Lawful(ec) && maxSearch < ec.n
    ensures forall m: nat, k: nat | Encrypts(ec, cipher, m, k, sk) ::
              r == if Mod(m, ec.n) <= maxSearch then Ok(Mod(m, ec.n)) else Err(NOT_RECOVERED)
  {
    var message := Decrypt(ec, cipher, sk);
    DecryptSubtracts(ec, cipher, sk);
    r := RecoverSmallDiscreteLog(ec, message.value, maxSearch);
    forall m: nat, k: nat | Encrypts(ec, cipher, m, k, sk)
      ensures r == if Mod(m, ec.n) <= maxSearch then Ok(Mod(m, ec.n)) else Err(NOT_RECOVERED)
    {
      DecryptsToMessage(ec, cipher, m, k, sk);
      TimesMod(ec, m, ec.g);
      if r.Ok? {
        TimesInjective(ec, r.value, m, ec.g);
      }
    }
  }
}

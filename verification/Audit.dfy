/** Audit proof: two ciphertexts, one under the user's key and one under the
    auditor's, encrypt the same balance. */
module Audit {
  import opened Numbers
  import opened Outcomes
  import opened Curve
  import opened Scalar
  import opened Transcript
  import opened Sigma
  import opened Poe2
  import opened ElGamal

  datatype AuditProof = AuditProof(ax: Affine, al0: Affine, al1: Affine, ar1: Affine, sx: nat, sb: nat, sr: nat, c: nat)

  datatype PrefixData<P> = PrefixData(chainId: nat, tongo: nat, sender: nat, user: P)

  /** Random draws: the auditor ciphertext's randomness, three nonces. */
  datatype AuditDraws = AuditDraws(r1: nat, kx: nat, kb: nat, kr: nat)

  const AUDIT_STRING: nat := 418_581_342_580
  const BAD_CIPHER: KmsError := CryptoError("cipher0 is not a valid encryption of the balance")

  function Finite<P(==)>(ec: Curve<P>, q: P, reason: string): Result<()> {
    if q == ec.zero then Err(CryptoError(reason)) else Ok(())
  }

  function XY<P(==)>(ec: Curve<P>, q: P, e: KmsError): Result<seq<nat>> {
    if q == ec.zero then Err(e) else Ok([ec.coords(q).x, ec.coords(q).y])
  }

  /** The Fiat-Shamir prefix: the full statement when prefix data is given. */
  function ComputedPrefix<P(==)>(ec: Curve<P>, ro: Oracle, data: Option<PrefixData<P>>, auditor: P,
                                 cipher0: Ciphertext<P>, cipher1: Ciphertext<P>): Result<nat> {
    match data
    case None => Ok(AUDIT_STRING)
    case Some(pd) =>
      var user :- XY(ec, pd.user, PointAtInfinity);
      var aud :- XY(ec, auditor, PointAtInfinity);
      var l0 :- XY(ec, cipher0.l, CryptoError("cipher0.l affine conversion failed"));
      var r0 :- XY(ec, cipher0.r, CryptoError("cipher0.r affine conversion failed"));
      var l1 :- XY(ec, cipher1.l, CryptoError("cipher1.l affine conversion failed"));
      var r1 :- XY(ec, cipher1.r, CryptoError("cipher1.r affine conversion failed"));
      Ok(ro.poseidon([pd.chainId, pd.tongo, pd.sender, AUDIT_STRING] + user + aud + l0 + r0 + l1 + r1))
  }

  /** The auditor's ciphertext; balance 0 skips g^0. */
  function AuditorCipher<P>(ec: Curve<P>, balance: nat, auditor: P, r1: nat): Ciphertext<P> {
    var shared := Times(ec, r1, auditor);
    Ciphertext(if balance == 0 then shared else ec.add(Times(ec, balance, ec.g), shared), Times(ec, r1, ec.g))
  }

  function Prove<P(==)>(ec: Curve<P>, ro: Oracle, x: nat, balance: nat, cipher0: Ciphertext<P>, auditor: P,
                        validate: bool, data: Option<PrefixData<P>>, draws: AuditDraws): Result<(AuditProof, Ciphertext<P>)> {
    var _ :- Finite(ec, cipher0.l, "cipher0.l is point at infinity");
    var _ :- Finite(ec, cipher0.r, "cipher0.r is point at infinity");
    var _ :- Finite(ec, auditor, "auditor_pub_key is point at infinity");
    if validate && Sub(ec, cipher0.l, Times(ec, x, cipher0.r)) != Times(ec, balance, ec.g) then Err(BAD_CIPHER)
    else
      var cipher1 := AuditorCipher(ec, balance, auditor, draws.r1);
      var _ :- Finite(ec, cipher1.l, "cipher1.l is point at infinity");
      var _ :- Finite(ec, cipher1.r, "cipher1.r is point at infinity");
      var ax := Times(ec, draws.kx, ec.g);
      var _ :- Finite(ec, ax, "Ax is point at infinity");
      var al0 := Combine(ec, draws.kb, ec.g, draws.kx, cipher0.r);
      var _ :- Finite(ec, al0, "AL0 is point at infinity");
      var ar1 := Times(ec, draws.kr, ec.g);
      var _ :- Finite(ec, ar1, "AR1 is point at infinity");
      var al1 := Combine(ec, draws.kb, ec.g, draws.kr, auditor);
      var _ :- Finite(ec, al1, "AL1 is point at infinity");
      var prefix :- ComputedPrefix(ec, ro, data, auditor, cipher0, cipher1);
      var c :- PoseidonChallenge(ec, ro, prefix, [ax, al0, al1, ar1]);
      var sx := Response(ec.n, draws.kx, c, x);
      var sb := Response(ec.n, draws.kb, c, balance);
      var sr := Response(ec.n, draws.kr, c, draws.r1);
      Ok((AuditProof(ec.coords(ax), ec.coords(al0), ec.coords(al1), ec.coords(ar1), sx, sb, sr, c), cipher1))
  }

  /** The four equations, on points rather than affine forms: no failure at
      infinity here. */
  function Equations<P(==)>(ec: Curve<P>, proof: AuditProof, ax: P, al0: P, al1: P, ar1: P, user: P,
                            cipher0: Ciphertext<P>, cipher1: Ciphertext<P>, auditor: P): bool {
    && Times(ec, proof.sx, ec.g) == ec.add(ax, Times(ec, proof.c, user))
    && Combine(ec, proof.sb, ec.g, proof.sx, cipher0.r) == ec.add(al0, Times(ec, proof.c, cipher0.l))
    && Times(ec, proof.sr, ec.g) == ec.add(ar1, Times(ec, proof.c, cipher1.r))
    && Combine(ec, proof.sb, ec.g, proof.sr, auditor) == ec.add(al1, Times(ec, proof.c, cipher1.l))
  }

  function Verify<P(==)>(ec: Curve<P>, ro: Oracle, proof: AuditProof, user: P, cipher0: Ciphertext<P>,
                         cipher1: Ciphertext<P>,
                         auditor: P, data: Option<PrefixData<P>>): Result<bool> {
    var ax :- FromAffine(ec, proof.ax);
    var al0 :- FromAffine(ec, proof.al0);
    var al1 :- FromAffine(ec, proof.al1);
    var ar1 :- FromAffine(ec, proof.ar1);
    var prefix :- ComputedPrefix(ec, ro, data, auditor, cipher0, cipher1);
    var c :- PoseidonChallenge(ec, ro, prefix, [ax, al0, al1, ar1]);
    if proof.c != c then Ok(false)
    else Ok(Equations(ec, proof, ax, al0, al1, ar1, user, cipher0, cipher1, auditor))
  }

  // ----- completeness

  /** The special case for balance 0 is the general formula. */
  lemma AuditorCipherEncrypts<P(!new)>(ec: Curve<P>, balance: nat, auditor: P, r1: nat)
    requires Lawful(ec)
    ensures AuditorCipher(ec, balance, auditor, r1)
         == Ciphertext(Combine(ec, balance, ec.g, r1, auditor), Times(ec, r1, ec.g))
  {
    ZeroLeft(ec, Times(ec, r1, auditor));
  }

  /** c*a == c*b exactly when c vanishes or a == b. */
  lemma TimesCancel<P(!new)>(ec: Curve<P>, c: nat, a: P, b: P)
    requires Lawful(ec)
    ensures Times(ec, c, a) == Times(ec, c, b) <==> Mod(c, ec.n) == 0 || a == b
  {
    TimesSub(ec, c, a, b);
    SubZero(ec, a, b);
    SubZero(ec, Times(ec, c, a), Times(ec, c, b));
    TimesIsZero(ec, c, Sub(ec, a, b));
  }

  lemma CancelLeft<P(!new)>(ec: Curve<P>, a: P, u: P, v: P)
    requires Lawful(ec)
    ensures ec.add(a, u) == ec.add(a, v) <==> u == v
  {
    assert Comm(ec, a, u) && Comm(ec, a, v);
    if ec.add(a, u) == ec.add(a, v) {
      CancelRight(ec, u, v, a);
    }
  }

  /** cipher0 is what the prover claims: it decrypts to g^balance under x. */
  ghost predicate Encodes<P>(ec: Curve<P>, cipher: Ciphertext<P>, balance: nat, x: nat) {
    cipher.l == Combine(ec, balance, ec.g, x, cipher.r)
  }

  lemma HonestEquations<P(!new)>(ec: Curve<P>, c: nat, x: nat, balance: nat, cipher0: Ciphertext<P>, auditor: P,
                                 draws: AuditDraws, user: P, proof: AuditProof)
    requires Lawful(ec) && c < ec.n && proof.c == c
    requires proof.sx == Response(ec.n, draws.kx, c, x)
    requires proof.sb == Response(ec.n, draws.kb, c, balance)
    requires proof.sr == Response(ec.n, draws.kr, c, draws.r1)
    ensures Equations(ec, proof, Times(ec, draws.kx, ec.g), Combine(ec, draws.kb, ec.g, draws.kx, cipher0.r),
                      Combine(ec, draws.kb, ec.g, draws.kr, auditor), Times(ec, draws.kr, ec.g),
                      user, cipher0, AuditorCipher(ec, balance, auditor, draws.r1), auditor)
            <==> c == 0 || (user == Times(ec, x, ec.g) && Encodes(ec, cipher0, balance, x))
  {
    AuditorCipherEncrypts(ec, balance, auditor, draws.r1);
    ResponseMul(ec, draws.kx, c, x, ec.g);
    CancelLeft(ec, Times(ec, draws.kx, ec.g), Times(ec, c, Times(ec, x, ec.g)), Times(ec, c, user));
    TimesCancel(ec, c, Times(ec, x, ec.g), user);
    CombineResponses(ec, draws.kb, draws.kx, c, balance, x, ec.g, cipher0.r);
    CancelLeft(ec, Combine(ec, draws.kb, ec.g, draws.kx, cipher0.r),
               Times(ec, c, Combine(ec, balance, ec.g, x, cipher0.r)), Times(ec, c, cipher0.l));
    TimesCancel(ec, c, Combine(ec, balance, ec.g, x, cipher0.r), cipher0.l);
    ResponseMul(ec, draws.kr, c, draws.r1, ec.g);
    CombineResponses(ec, draws.kb, draws.kr, c, balance, draws.r1, ec.g, auditor);
  }

  /** The first moves of the prover. */
  function Moves<P>(ec: Curve<P>, cipher0: Ciphertext<P>, auditor: P, draws: AuditDraws): seq<P> {
    [Times(ec, draws.kx, ec.g), Combine(ec, draws.kb, ec.g, draws.kx, cipher0.r),
     Combine(ec, draws.kb, ec.g, draws.kr, auditor), Times(ec, draws.kr, ec.g)]
  }

  /** What a returned proof consists of. */
  lemma ProveMakes<P(!new)>(ec: Curve<P>, ro: Oracle, x: nat, balance: nat, cipher0: Ciphertext<P>, auditor: P,
                            validate: bool, data: Option<PrefixData<P>>, draws: AuditDraws,
                            proof: AuditProof, cipher1: Ciphertext<P>)
    requires Lawful(ec)
    requires Prove(ec, ro, x, balance, cipher0, auditor, validate, data, draws) == Ok((proof, cipher1))
    ensures cipher1 == AuditorCipher(ec, balance, auditor, draws.r1)
    ensures var prefix := ComputedPrefix(ec, ro, data, auditor, cipher0, cipher1);
            prefix.Ok? && PoseidonChallenge(ec, ro, prefix.value, Moves(ec, cipher0, auditor, draws)) == Ok(proof.c)
    ensures proof.c < ec.n && proof.sx == Response(ec.n, draws.kx, proof.c, x)
    ensures proof.sb == Response(ec.n, draws.kb, proof.c, balance)
    ensures proof.sr == Response(ec.n, draws.kr, proof.c, draws.r1)
    ensures var m := Moves(ec, cipher0, auditor, draws);
            && FromAffine(ec, proof.ax) == Ok(m[0]) && FromAffine(ec, proof.al0) == Ok(m[1])
            && FromAffine(ec, proof.al1) == Ok(m[2]) && FromAffine(ec, proof.ar1) == Ok(m[3])
    ensures validate ==> Sub(ec, cipher0.l, Times(ec, x, cipher0.r)) == Times(ec, balance, ec.g)
  {
    var m := Moves(ec, cipher0, auditor, draws);
    AffineRoundTrip(ec, m[0], m[1]);
    AffineRoundTrip(ec, m[1], m[0]);
    AffineRoundTrip(ec, m[2], m[3]);
    AffineRoundTrip(ec, m[3], m[2]);
  }

  /** Completeness, exactly: a returned proof is answered Ok, never Err, for
      every user key; Ok(true) holds when the statement is true, and otherwise
      only for the zero challenge.  With validation the statement about cipher0
      is always true. */
  lemma Complete<P(!new)>(ec: Curve<P>, ro: Oracle, x: nat, balance: nat, cipher0: Ciphertext<P>, auditor: P,
                          validate: bool, data: Option<PrefixData<P>>, draws: AuditDraws,
                          proof: AuditProof, cipher1: Ciphertext<P>, user: P)
    requires Lawful(ec)
    requires Prove(ec, ro, x, balance, cipher0, auditor, validate, data, draws) == Ok((proof, cipher1))
    ensures cipher1 == Ciphertext(Combine(ec, balance, ec.g, draws.r1, auditor), Times(ec, draws.r1, ec.g))
    ensures validate ==> Encodes(ec, cipher0, balance, x)
    ensures Verify(ec, ro, proof, user, cipher0, cipher1, auditor, data) ==
            Ok(proof.c == 0 || (user == Times(ec, x, ec.g) && Encodes(ec, cipher0, balance, x)))
    ensures validate && user == Times(ec, x, ec.g)
            ==> Verify(ec, ro, proof, user, cipher0, cipher1, auditor, data) == Ok(true)
  {
    ProveMakes(ec, ro, x, balance, cipher0, auditor, validate, data, draws, proof, cipher1);
    hide Prove, ComputedPrefix, PoseidonChallenge;
    AuditorCipherEncrypts(ec, balance, auditor, draws.r1);
    HonestEquations(ec, proof.c, x, balance, cipher0, auditor, draws, user, proof);
    AddSub(ec, cipher0.l, Times(ec, x, cipher0.r));
  }

  // ----- extraction

  /** Two accepted proofs with the same commitments and different challenges
      give one key x, one balance b and one randomness satisfying all four
      statement equations. */
  lemma Sound<P(!new)>(ec: Curve<P>, ro: Oracle, ro': Oracle, proof: AuditProof, proof': AuditProof, user: P,
                       cipher0: Ciphertext<P>, cipher1: Ciphertext<P>, auditor: P,
                       data: Option<PrefixData<P>>, data': Option<PrefixData<P>>)
    returns (x: nat, b: nat, r1: nat)
    requires Lawful(ec)
    requires Verify(ec, ro, proof, user, cipher0, cipher1, auditor, data) == Ok(true)
    requires Verify(ec, ro', proof', user, cipher0, cipher1, auditor, data') == Ok(true)
    requires proof.ax == proof'.ax && proof.al0 == proof'.al0 && proof.al1 == proof'.al1 && proof.ar1 == proof'.ar1
    requires Mod(proof.c, ec.n) != Mod(proof'.c, ec.n)
    ensures x == Witness(ec.n, proof.c, proof.sx, proof'.c, proof'.sx)
    ensures b == Witness(ec.n, proof.c, proof.sb, proof'.c, proof'.sb)
    ensures r1 == Witness(ec.n, proof.c, proof.sr, proof'.c, proof'.sr)
    ensures user == Times(ec, x, ec.g) && Encodes(ec, cipher0, b, x)
    ensures cipher1.r == Times(ec, r1, ec.g) && cipher1.l == Combine(ec, b, ec.g, r1, auditor)
  {
    var ax, al0 := FromAffine(ec, proof.ax).value, FromAffine(ec, proof.al0).value;
    var al1, ar1 := FromAffine(ec, proof.al1).value, FromAffine(ec, proof.ar1).value;
    var c, c' := proof.c, proof'.c;
    x := Witness(ec.n, c, proof.sx, c', proof'.sx);
    b := Witness(ec.n, c, proof.sb, c', proof'.sb);
    r1 := Witness(ec.n, c, proof.sr, c', proof'.sr);
    ExtractSingle(ec, ec.g, ax, user, c, proof.sx, c', proof'.sx);
    Extract(ec, ec.g, cipher0.r, al0, cipher0.l, c, proof.sb, proof.sx, c', proof'.sb, proof'.sx);
    ExtractSingle(ec, ec.g, ar1, cipher1.r, c, proof.sr, c', proof'.sr);
    Extract(ec, ec.g, auditor, al1, cipher1.l, c, proof.sb, proof.sr, c', proof'.sb, proof'.sr);
  }

  /** So the user, decrypting cipher0 with any key for `user`, and the auditor,
      decrypting cipher1 with any key for `auditor`, get the same g^b. */
  lemma SameBalance<P(!new)>(ec: Curve<P>, ro: Oracle, ro': Oracle, proof: AuditProof, proof': AuditProof, user: P,
                             cipher0: Ciphertext<P>, cipher1: Ciphertext<P>, auditor: P,
                             data: Option<PrefixData<P>>, data': Option<PrefixData<P>>, userKey: nat, auditorKey: nat)
    returns (b: nat)
    requires Lawful(ec)
    requires Verify(ec, ro, proof, user, cipher0, cipher1, auditor, data) == Ok(true)
    requires Verify(ec, ro', proof', user, cipher0, cipher1, auditor, data') == Ok(true)
    requires proof.ax == proof'.ax && proof.al0 == proof'.al0 && proof.al1 == proof'.al1 && proof.ar1 == proof'.ar1
    requires Mod(proof.c, ec.n) != Mod(proof'.c, ec.n)
    requires user == Times(ec, userKey, ec.g) && auditor == Times(ec, auditorKey, ec.g)
    ensures b == Witness(ec.n, proof.c, proof.sb, proof'.c, proof'.sb)
    ensures Decrypt(ec, cipher0, userKey) == Decrypt(ec, cipher1, auditorKey) == Ok(Times(ec, b, ec.g))
  {
    var x, b', r1 := Sound(ec, ro, ro', proof, proof', user, cipher0, cipher1, auditor, data, data');
    b := b';
    TimesInjective(ec, x, userKey, ec.g);
    TimesCongruent(ec, x, userKey, cipher0.r);
    DecryptSubtracts(ec, cipher0, userKey);
    AddSub(ec, Times(ec, b, ec.g), Times(ec, userKey, cipher0.r));
    DecryptsToMessage(ec, cipher1, b, r1, auditorKey);
  }

  // ----- what the challenge binds

  /** The sixteen felts of a statement. */
  function StatementFelts<P>(ec: Curve<P>, pd: PrefixData<P>, auditor: P, cipher0: Ciphertext<P>,
                             cipher1: Ciphertext<P>): seq<nat> {
    [pd.chainId, pd.tongo, pd.sender, 418_581_342_580,
     ec.coords(pd.user).x, ec.coords(pd.user).y, ec.coords(auditor).x, ec.coords(auditor).y,
     ec.coords(cipher0.l).x, ec.coords(cipher0.l).y, ec.coords(cipher0.r).x, ec.coords(cipher0.r).y,
     ec.coords(cipher1.l).x, ec.coords(cipher1.l).y, ec.coords(cipher1.r).x, ec.coords(cipher1.r).y]
  }

  ghost predicate FiniteStatement<P>(ec: Curve<P>, pd: PrefixData<P>, auditor: P, cipher0: Ciphertext<P>,
                                     cipher1: Ciphertext<P>) {
    && pd.user != ec.zero && auditor != ec.zero && cipher0.l != ec.zero && cipher0.r != ec.zero
    && cipher1.l != ec.zero && cipher1.r != ec.zero
  }

  /** The prefix is the hash of the sixteen felts, or of nothing but the
      domain string when no data is given. */
  lemma PrefixHashes<P>(ec: Curve<P>, ro: Oracle, data: Option<PrefixData<P>>, auditor: P, cipher0: Ciphertext<P>,
                        cipher1: Ciphertext<P>)
    ensures data == None ==> ComputedPrefix(ec, ro, data, auditor, cipher0, cipher1) == Ok(418_581_342_580)
    ensures data.Some? ==>
              var prefix := ComputedPrefix(ec, ro, data, auditor, cipher0, cipher1);
              if FiniteStatement(ec, data.value, auditor, cipher0, cipher1)
              then prefix == Ok(ro.poseidon(StatementFelts(ec, data.value, auditor, cipher0, cipher1)))
              else prefix.Err?
  {
    if data.Some? && FiniteStatement(ec, data.value, auditor, cipher0, cipher1) {
      var pd := data.value;
      var f := StatementFelts(ec, pd, auditor, cipher0, cipher1);
      var u, a := [f[4], f[5]], [f[6], f[7]];
      var l0, r0, l1, r1 := [f[8], f[9]], [f[10], f[11]], [f[12], f[13]], [f[14], f[15]];
      assert [pd.chainId, pd.tongo, pd.sender, AUDIT_STRING] + u + a + l0 + r0 + l1 + r1 == f;
    }
  }

  /** Equal felts, equal statements. */
  lemma FeltsBind<P(!new)>(ec: Curve<P>, pd: PrefixData<P>, auditor: P, cipher0: Ciphertext<P>, cipher1: Ciphertext<P>,
                           pd': PrefixData<P>, auditor': P, cipher0': Ciphertext<P>, cipher1': Ciphertext<P>)
    requires Lawful(ec)
    requires FiniteStatement(ec, pd, auditor, cipher0, cipher1) && FiniteStatement(ec, pd', auditor', cipher0', cipher1')
    requires StatementFelts(ec, pd, auditor, cipher0, cipher1) == StatementFelts(ec, pd', auditor', cipher0', cipher1')
    ensures pd == pd' && auditor == auditor' && cipher0 == cipher0' && cipher1 == cipher1'
  {
    var f, f' := StatementFelts(ec, pd, auditor, cipher0, cipher1), StatementFelts(ec, pd', auditor', cipher0', cipher1');
    assert forall i :: 0 <= i < 16 ==> f[i] == f'[i];
    assert f[0] == f'[0] && f[1] == f'[1] && f[2] == f'[2];
    SamePoint(ec, pd.user, pd'.user, f, f', 4);
    SamePoint(ec, auditor, auditor', f, f', 6);
    SamePoint(ec, cipher0.l, cipher0'.l, f, f', 8);
    SamePoint(ec, cipher0.r, cipher0'.r, f, f', 10);
    SamePoint(ec, cipher1.l, cipher1'.l, f, f', 12);
    SamePoint(ec, cipher1.r, cipher1'.r, f, f', 14);
  }

  lemma SamePoint<P(!new)>(ec: Curve<P>, q: P, q': P, f: seq<nat>, f': seq<nat>, i: nat)
    requires Lawful(ec) && q != ec.zero && q' != ec.zero && f == f' && i + 1 < |f|
    requires f[i] == ec.coords(q).x && f[i + 1] == ec.coords(q).y
    requires f'[i] == ec.coords(q').x && f'[i + 1] == ec.coords(q').y
    ensures q == q'
  {
    AffineRoundTrip(ec, q, q');
  }

  /** The prefix binds the whole statement: two statements with one prefix are
      one statement, or a Poseidon collision. */
  lemma PrefixBinds<P(!new)>(ec: Curve<P>, ro: Oracle, pd: PrefixData<P>, auditor: P, cipher0: Ciphertext<P>,
                             cipher1: Ciphertext<P>, pd': PrefixData<P>, auditor': P, cipher0': Ciphertext<P>,
                             cipher1': Ciphertext<P>)
    requires Lawful(ec) && ComputedPrefix(ec, ro, Some(pd), auditor, cipher0, cipher1).Ok?
    requires ComputedPrefix(ec, ro, Some(pd), auditor, cipher0, cipher1)
          == ComputedPrefix(ec, ro, Some(pd'), auditor', cipher0', cipher1')
    ensures || (pd == pd' && auditor == auditor' && cipher0 == cipher0' && cipher1 == cipher1')
            || Collide(ro, StatementFelts(ec, pd, auditor, cipher0, cipher1),
                       StatementFelts(ec, pd', auditor', cipher0', cipher1'))
  {
    PrefixHashes(ec, ro, Some(pd), auditor, cipher0, cipher1);
    PrefixHashes(ec, ro, Some(pd'), auditor', cipher0', cipher1');
    hide ComputedPrefix, StatementFelts;
    if StatementFelts(ec, pd, auditor, cipher0, cipher1) == StatementFelts(ec, pd', auditor', cipher0', cipher1') {
      FeltsBind(ec, pd, auditor, cipher0, cipher1, pd', auditor', cipher0', cipher1');
    }
  }

  /** What the challenge hashes: the prefix and the four commitments. */
  function ChallengeFelts(proof: AuditProof, prefix: nat): seq<nat> {
    [prefix, proof.ax.x, proof.ax.y, proof.al0.x, proof.al0.y, proof.al1.x, proof.al1.y, proof.ar1.x, proof.ar1.y]
  }

  /** Acceptance, exactly: the commitments parse, the challenge is the recomputed
      one, and the four equations hold. */
  lemma VerifyMeans<P(!new)>(ec: Curve<P>, ro: Oracle, proof: AuditProof, user: P, cipher0: Ciphertext<P>,
                             cipher1: Ciphertext<P>, auditor: P, data: Option<PrefixData<P>>)
    requires Lawful(ec)
    ensures Verify(ec, ro, proof, user, cipher0, cipher1, auditor, data) == Ok(true) <==>
              var ax, al0 := FromAffine(ec, proof.ax), FromAffine(ec, proof.al0);
              var al1, ar1 := FromAffine(ec, proof.al1), FromAffine(ec, proof.ar1);
              var prefix := ComputedPrefix(ec, ro, data, auditor, cipher0, cipher1);
              && ax.Ok? && al0.Ok? && al1.Ok? && ar1.Ok? && prefix.Ok?
              && proof.c == Mod(ro.poseidon(ChallengeFelts(proof, prefix.value)), ec.n)
              && Times(ec, proof.sx, ec.g) == ec.add(ax.value, Times(ec, proof.c, user))
              && Combine(ec, proof.sb, ec.g, proof.sx, cipher0.r) == ec.add(al0.value, Times(ec, proof.c, cipher0.l))
              && Times(ec, proof.sr, ec.g) == ec.add(ar1.value, Times(ec, proof.c, cipher1.r))
              && Combine(ec, proof.sb, ec.g, proof.sr, auditor) == ec.add(al1.value, Times(ec, proof.c, cipher1.l))
  {
    var prefix := ComputedPrefix(ec, ro, data, auditor, cipher0, cipher1);
    hide ComputedPrefix, PoseidonChallenge, ChallengeFelts;
    if && FromAffine(ec, proof.ax).Ok? && FromAffine(ec, proof.al0).Ok?
       && FromAffine(ec, proof.al1).Ok? && FromAffine(ec, proof.ar1).Ok? && prefix.Ok?
    {
      ChallengeHashes(ec, ro, proof, prefix.value);
    }
  }

  lemma ChallengeHashes<P(!new)>(ec: Curve<P>, ro: Oracle, proof: AuditProof, prefix: nat)
    requires Lawful(ec)
    requires FromAffine(ec, proof.ax).Ok? && FromAffine(ec, proof.al0).Ok?
    requires FromAffine(ec, proof.al1).Ok? && FromAffine(ec, proof.ar1).Ok?
    ensures PoseidonChallenge(ec, ro, prefix, [FromAffine(ec, proof.ax).value, FromAffine(ec, proof.al0).value,
                                               FromAffine(ec, proof.al1).value, FromAffine(ec, proof.ar1).value])
         == Ok(Mod(ro.poseidon(ChallengeFelts(proof, prefix)), ec.n))
  {
    FromAffineFinite(ec, proof.ax);
    FromAffineFinite(ec, proof.al0);
    FromAffineFinite(ec, proof.al1);
    FromAffineFinite(ec, proof.ar1);
    var points := [FromAffine(ec, proof.ax).value, FromAffine(ec, proof.al0).value,
                   FromAffine(ec, proof.al1).value, FromAffine(ec, proof.ar1).value];
    var felts := ChallengeFelts(proof, prefix);
    forall i | 0 <= i < |points|
      ensures felts[2 * i + 1] == ec.coords(points[i]).x && felts[2 * i + 2] == ec.coords(points[i]).y
    {
      assert i == 0 || i == 1 || i == 2 || i == 3;
    }
    PoseidonHashes(ec, ro, prefix, points, felts);
  }

  /** One proof accepted for two statements: they are one statement, or these
      two hash inputs collide, as prefixes or as challenges. */
  lemma ProofBinds<P(!new)>(ec: Curve<P>, ro: Oracle, proof: AuditProof, user: P, user': P,
                            pd: PrefixData<P>, auditor: P, cipher0: Ciphertext<P>, cipher1: Ciphertext<P>,
                            pd': PrefixData<P>, auditor': P, cipher0': Ciphertext<P>, cipher1': Ciphertext<P>)
    requires Lawful(ec)
    requires Verify(ec, ro, proof, user, cipher0, cipher1, auditor, Some(pd)) == Ok(true)
    requires Verify(ec, ro, proof, user', cipher0', cipher1', auditor', Some(pd')) == Ok(true)
    ensures var f := StatementFelts(ec, pd, auditor, cipher0, cipher1);
            var f' := StatementFelts(ec, pd', auditor', cipher0', cipher1');
            || (pd == pd' && auditor == auditor' && cipher0 == cipher0' && cipher1 == cipher1')
            || Collide(ro, f, f')
            || CollideMod(ro, ec.n, ChallengeFelts(proof, ro.poseidon(f)), ChallengeFelts(proof, ro.poseidon(f')))
  {
    VerifyMeans(ec, ro, proof, user, cipher0, cipher1, auditor, Some(pd));
    VerifyMeans(ec, ro, proof, user', cipher0', cipher1', auditor', Some(pd'));
    PrefixHashes(ec, ro, Some(pd), auditor, cipher0, cipher1);
    PrefixHashes(ec, ro, Some(pd'), auditor', cipher0', cipher1');
    hide Verify, Mod, Times, ComputedPrefix, StatementFelts, ChallengeFelts;
    var f := StatementFelts(ec, pd, auditor, cipher0, cipher1);
    var f' := StatementFelts(ec, pd', auditor', cipher0', cipher1');
    if ro.poseidon(f) == ro.poseidon(f') {
      PrefixBinds(ec, ro, pd, auditor, cipher0, cipher1, pd', auditor', cipher0', cipher1');
    } else {
      PrefixComesFirst(proof, ro.poseidon(f), ro.poseidon(f'));
    }
  }

  lemma PrefixComesFirst(proof: AuditProof, prefix: nat, prefix': nat)
    requires prefix != prefix'
    ensures ChallengeFelts(proof, prefix) != ChallengeFelts(proof, prefix')
  {
    assert ChallengeFelts(proof, prefix)[0] != ChallengeFelts(proof, prefix')[0];
  }

  // ----- the prover's draws

  /** Two audits of one statement are equal exactly when all four draws were,
      modulo the order. */
  lemma DrawsShow<P(!new)>(ec: Curve<P>, ro: Oracle, x: nat, balance: nat, cipher0: Ciphertext<P>, auditor: P,
                           validate: bool, data: Option<PrefixData<P>>, d: AuditDraws, proof: AuditProof,
                           cipher1: Ciphertext<P>, d': AuditDraws, proof': AuditProof, cipher1': Ciphertext<P>)
    requires Lawful(ec)
    requires Prove(ec, ro, x, balance, cipher0, auditor, validate, data, d) == Ok((proof, cipher1))
    requires Prove(ec, ro, x, balance, cipher0, auditor, validate, data, d') == Ok((proof', cipher1'))
    ensures proof == proof' && cipher1 == cipher1' <==>
            && Mod(d.r1, ec.n) == Mod(d'.r1, ec.n) && Mod(d.kx, ec.n) == Mod(d'.kx, ec.n)
            && Mod(d.kb, ec.n) == Mod(d'.kb, ec.n) && Mod(d.kr, ec.n) == Mod(d'.kr, ec.n)
  {
    ProveMakes(ec, ro, x, balance, cipher0, auditor, validate, data, d, proof, cipher1);
    ProveMakes(ec, ro, x, balance, cipher0, auditor, validate, data, d', proof', cipher1');
    hide Prove, ComputedPrefix, PoseidonChallenge, Mod, Response, Times;
    ResponseInjective(ec.n, d.kx, d'.kx, proof.c, x);
    ResponseInjective(ec.n, d.kb, d'.kb, proof.c, balance);
    ResponseInjective(ec.n, d.kr, d'.kr, proof.c, d'.r1);
    if cipher1 == cipher1' {
      TimesInjective(ec, d.r1, d'.r1, ec.g);
    }
    if Mod(d.r1, ec.n) == Mod(d'.r1, ec.n) {
      ResponseCongruent(ec.n, d.kr, proof.c, d.r1, d'.r1);
      SameCiphers(ec, balance, auditor, d.r1, d'.r1);
      if && Mod(d.kx, ec.n) == Mod(d'.kx, ec.n) && Mod(d.kb, ec.n) == Mod(d'.kb, ec.n)
         && Mod(d.kr, ec.n) == Mod(d'.kr, ec.n)
      {
        SameMoves(ec, cipher0, auditor, d, d');
        SameParsed(ec, proof, proof');
      }
    }
  }

  lemma ResponseCongruent(n: Pos, k: nat, c: nat, x: nat, x': nat)
    requires Mod(x, n) == Mod(x', n)
    ensures Response(n, k, c, x) == Response(n, k, c, x')
  {
  }

  lemma SameCiphers<P(!new)>(ec: Curve<P>, balance: nat, auditor: P, r: nat, r': nat)
    requires Lawful(ec) && Mod(r, ec.n) == Mod(r', ec.n)
    ensures AuditorCipher(ec, balance, auditor, r) == AuditorCipher(ec, balance, auditor, r')
  {
    TimesCongruent(ec, r, r', auditor);
    TimesCongruent(ec, r, r', ec.g);
  }

  lemma SameMoves<P(!new)>(ec: Curve<P>, cipher0: Ciphertext<P>, auditor: P, d: AuditDraws, d': AuditDraws)
    requires Lawful(ec) && Mod(d.kx, ec.n) == Mod(d'.kx, ec.n)
    requires Mod(d.kb, ec.n) == Mod(d'.kb, ec.n) && Mod(d.kr, ec.n) == Mod(d'.kr, ec.n)
    ensures Moves(ec, cipher0, auditor, d) == Moves(ec, cipher0, auditor, d')
  {
    hide Times, Mod;
    TimesCongruent(ec, d.kx, d'.kx, ec.g);
    TimesCongruent(ec, d.kx, d'.kx, cipher0.r);
    TimesCongruent(ec, d.kb, d'.kb, ec.g);
    TimesCongruent(ec, d.kr, d'.kr, ec.g);
    TimesCongruent(ec, d.kr, d'.kr, auditor);
  }

  /** Commitments that parse to the same points are the same. */
  lemma SameParsed<P(!new)>(ec: Curve<P>, proof: AuditProof, proof': AuditProof)
    requires Lawful(ec)
    requires FromAffine(ec, proof.ax).Ok? && FromAffine(ec, proof.ax) == FromAffine(ec, proof'.ax)
    requires FromAffine(ec, proof.al0).Ok? && FromAffine(ec, proof.al0) == FromAffine(ec, proof'.al0)
    requires FromAffine(ec, proof.al1).Ok? && FromAffine(ec, proof.al1) == FromAffine(ec, proof'.al1)
    requires FromAffine(ec, proof.ar1).Ok? && FromAffine(ec, proof.ar1) == FromAffine(ec, proof'.ar1)
    ensures proof.ax == proof'.ax && proof.al0 == proof'.al0 && proof.al1 == proof'.al1 && proof.ar1 == proof'.ar1
  {
    FromAffineFinite(ec, proof.ax);
    FromAffineFinite(ec, proof'.ax);
    FromAffineFinite(ec, proof.al0);
    FromAffineFinite(ec, proof'.al0);
    FromAffineFinite(ec, proof.al1);
    FromAffineFinite(ec, proof'.al1);
    FromAffineFinite(ec, proof.ar1);
    FromAffineFinite(ec, proof'.ar1);
  }

  /** The draws that give the responses of a proof. */
  function DrawsOf(n: Pos, proof: AuditProof, x: nat, balance: nat, r1: nat): AuditDraws {
    AuditDraws(r1, ScalarSub(n, proof.sx, ScalarMul(n, proof.c, x)),
               ScalarSub(n, proof.sb, ScalarMul(n, proof.c, balance)), ScalarSub(n, proof.sr, ScalarMul(n, proof.c, r1)))
  }

  /** The honest proofs of a true statement are exactly the accepted ones with
      reduced responses. */
  lemma AcceptedIsHonest<P(!new)>(ec: Curve<P>, ro: Oracle, proof: AuditProof, x: nat, balance: nat, r1: nat,
                                  cipher0: Ciphertext<P>, auditor: P, validate: bool, data: Option<PrefixData<P>>)
    requires Lawful(ec) && proof.sx < ec.n && proof.sb < ec.n && proof.sr < ec.n
    requires Encodes(ec, cipher0, balance, x) && cipher0.l != ec.zero && cipher0.r != ec.zero && auditor != ec.zero
    requires AuditorCipher(ec, balance, auditor, r1).l != ec.zero && AuditorCipher(ec, balance, auditor, r1).r != ec.zero
    requires Verify(ec, ro, proof, Times(ec, x, ec.g), cipher0, AuditorCipher(ec, balance, auditor, r1), auditor, data)
          == Ok(true)
    ensures Prove(ec, ro, x, balance, cipher0, auditor, validate, data, DrawsOf(ec.n, proof, x, balance, r1))
         == Ok((proof, AuditorCipher(ec, balance, auditor, r1)))
  {
    var cipher1 := AuditorCipher(ec, balance, auditor, r1);
    var d := DrawsOf(ec.n, proof, x, balance, r1);
    var ax, al0 := FromAffine(ec, proof.ax).value, FromAffine(ec, proof.al0).value;
    var al1, ar1 := FromAffine(ec, proof.al1).value, FromAffine(ec, proof.ar1).value;
    FromAffineFinite(ec, proof.ax);
    FromAffineFinite(ec, proof.al0);
    FromAffineFinite(ec, proof.al1);
    FromAffineFinite(ec, proof.ar1);
    AddSub(ec, Times(ec, balance, ec.g), Times(ec, x, cipher0.r));
    MovesOfResponses(ec, proof, x, balance, r1, cipher0, auditor, ax, al0, al1, ar1);
    hide Lawful, Equations, ComputedPrefix, PoseidonChallenge, AuditorCipher, Times, Mod, Response, ScalarSub, Scalar.ScalarMul;
    ResponseOfNonce(ec.n, proof.sx, proof.c, x);
    ResponseOfNonce(ec.n, proof.sb, proof.c, balance);
    ResponseOfNonce(ec.n, proof.sr, proof.c, r1);
    SmallResidue(proof.sx, ec.n);
    SmallResidue(proof.sb, ec.n);
    SmallResidue(proof.sr, ec.n);
  }

  lemma SmallResidue(s: nat, n: Pos)
    requires s < n
    ensures Mod(s, n) == s
  {
  }

  lemma MovesOfResponses<P(!new)>(ec: Curve<P>, proof: AuditProof, x: nat, balance: nat, r1: nat,
                                  cipher0: Ciphertext<P>, auditor: P, ax: P, al0: P, al1: P, ar1: P)
    requires Lawful(ec) && Encodes(ec, cipher0, balance, x)
    requires Equations(ec, proof, ax, al0, al1, ar1, Times(ec, x, ec.g), cipher0,
                       AuditorCipher(ec, balance, auditor, r1), auditor)
    ensures Moves(ec, cipher0, auditor, DrawsOf(ec.n, proof, x, balance, r1)) == [ax, al0, al1, ar1]
  {
    var c := proof.c;
    AuditorCipherEncrypts(ec, balance, auditor, r1);
    NonceCommitment(ec, proof.sx, c, x, ec.g);
    AddSub(ec, ax, Times(ec, c, Times(ec, x, ec.g)));
    NonceCommitment2(ec, proof.sb, proof.sx, c, balance, x, ec.g, cipher0.r);
    AddSub(ec, al0, Times(ec, c, cipher0.l));
    NonceCommitment(ec, proof.sr, c, r1, ec.g);
    AddSub(ec, ar1, Times(ec, c, Times(ec, r1, ec.g)));
    NonceCommitment2(ec, proof.sb, proof.sr, c, balance, r1, ec.g, auditor);
    AddSub(ec, al1, Times(ec, c, Combine(ec, balance, ec.g, r1, auditor)));
  }

  /** When the prover succeeds: exactly when nothing it hashes or serialises is
      the point at infinity, and, if it validates, cipher0 encodes the balance. */
  lemma ProvesWhen<P(!new)>(ec: Curve<P>, ro: Oracle, x: nat, balance: nat, cipher0: Ciphertext<P>, auditor: P,
                            validate: bool, data: Option<PrefixData<P>>, d: AuditDraws)
    requires Lawful(ec)
    ensures Prove(ec, ro, x, balance, cipher0, auditor, validate, data, d).Ok? <==>
            var cipher1 := AuditorCipher(ec, balance, auditor, d.r1);
            && cipher0.l != ec.zero && cipher0.r != ec.zero && auditor != ec.zero
            && cipher1.l != ec.zero && cipher1.r != ec.zero
            && AllFinite(ec, Moves(ec, cipher0, auditor, d))
            && (data.Some? ==> data.value.user != ec.zero)
            && (validate ==> Encodes(ec, cipher0, balance, x))
  {
    var cipher1 := AuditorCipher(ec, balance, auditor, d.r1);
    ChecksPass(ec, ro, x, balance, cipher0, auditor, validate, data, d, cipher1);
    AddSub(ec, cipher0.l, Times(ec, x, cipher0.r));
    AddSub(ec, Times(ec, balance, ec.g), Times(ec, x, cipher0.r));
    PrefixHashes(ec, ro, data, auditor, cipher0, cipher1);
    hide Lawful, Prove, ComputedPrefix, AuditorCipher, StatementFelts, Times, Moves;
  }

  lemma ChecksPass<P(!new)>(ec: Curve<P>, ro: Oracle, x: nat, balance: nat, cipher0: Ciphertext<P>, auditor: P,
                            validate: bool, data: Option<PrefixData<P>>, d: AuditDraws, cipher1: Ciphertext<P>)
    requires cipher1 == AuditorCipher(ec, balance, auditor, d.r1)
    ensures Prove(ec, ro, x, balance, cipher0, auditor, validate, data, d).Ok? <==>
            && cipher0.l != ec.zero && cipher0.r != ec.zero && auditor != ec.zero
            && (validate ==> Sub(ec, cipher0.l, Times(ec, x, cipher0.r)) == Times(ec, balance, ec.g))
            && cipher1.l != ec.zero && cipher1.r != ec.zero
            && AllFinite(ec, Moves(ec, cipher0, auditor, d))
            && ComputedPrefix(ec, ro, data, auditor, cipher0, cipher1).Ok?
  {
    var m := Moves(ec, cipher0, auditor, d);
    assert m[0] == Times(ec, d.kx, ec.g) && m[3] == Times(ec, d.kr, ec.g);
    assert m[1] == Combine(ec, d.kb, ec.g, d.kx, cipher0.r) && m[2] == Combine(ec, d.kb, ec.g, d.kr, auditor);
    hide ComputedPrefix, AuditorCipher, Times, Mod, Response, Combine;
  }
}

/** An actual curve satisfying every assumed law, so that no theorem about
    lawful curves is vacuous: y^2 = x^3 + x + 1 over the field of 7 elements,
    whose points form a cyclic group of order 5. */
module SmallCurve {
  import opened Numbers
  import opened Outcomes
  import opened Curve
  import opened ScalarMultiplication
  import opened Transcript
  import opened Scalar
  import opened Sigma
  import Bit
  import ElGamal

  /** Multiples of the generator (0, 1). */
  type Point = k: nat | k < 5

  function Plus(a: Point, b: Point): Point {
    if a + b < 5 then a + b else a + b - 5
  }

  function Minus(a: Point): Point {
    if a == 0 then 0 else 5 - a
  }

  function Coords(a: Point): Affine {
    match a
    case 0 => Affine(0, 0)
    case 1 => Affine(0, 1)
    case 2 => Affine(2, 5)
    case 3 => Affine(2, 2)
    case 4 => Affine(0, 6)
  }

  function Lift(a: Affine): Option<Point> {
    if a == Affine(0, 1) then Some(1)
    else if a == Affine(2, 5) then Some(2)
    else if a == Affine(2, 2) then Some(3)
    else if a == Affine(0, 6) then Some(4)
    else None
  }

  const E: Curve<Point> := Curve(5, 7, 1, 0, Plus, Minus, 1, Coords, Lift)

  function Squares(): seq<nat> {
    [0, 1, 4, 2, 2, 4, 1]
  }

  function Cubics(): seq<nat> {
    [1, 3, 4, 3, 6, 5, 6]
  }

  lemma SquareIs(y: nat)
    requires y < 7
    ensures Mod(y * y, 7) == Squares()[y]
  {
    hide Mod;
    ModIsRemainder(y * y, 7);
    assert y in {0, 1, 2, 3, 4, 5, 6};
  }

  lemma CubicIs(x: nat)
    requires x < 7
    ensures Mod(x * x * x + x + 1, 7) == Cubics()[x]
  {
    hide Mod;
    ModIsRemainder(x * x * x + x + 1, 7);
    assert x in {0, 1, 2, 3, 4, 5, 6};
  }

  lemma PointsOnCurve(x: nat, y: nat)
    ensures OnCurve(7, 1, Affine(x, y)) <==> Lift(Affine(x, y)).Some?
  {
    hide Mod;
    if x < 7 && y < 7 {
      SquareIs(y);
      CubicIs(x);
    }
  }

  /** The first multiples of a point. */
  lemma Multiples(a: Point, k: nat)
    requires k <= 5
    ensures Times(E, k, a) ==
            if k == 0 then 0 else if k == 1 then a else if k == 2 then Plus(a, a)
            else if k == 3 then Plus(Plus(a, a), a) else if k == 4 then Minus(a) else 0
  {
    if k > 0 {
      Multiples(a, k - 1);
      assert Times(E, k, a) == Plus(Times(E, k - 1, a), a);
    }
  }

  /** The laws hold of this curve. */
  lemma IsLawful()
    ensures Lawful(E)
  {
    GroupLaws();
    forall a ensures Order(E, a) { Multiples(a, E.n); }
    forall a ensures Coordinates(E, a) { HasCoordinates(a); }
    forall a ensures Lifts(E, a) {
      PointsOnCurve(a.x, a.y);
    }
    assert IsPrime(5) && IsPrime(7);
  }

  lemma GroupLaws()
    ensures forall a, b, c :: Assoc(E, a, b, c)
    ensures forall a, b :: Comm(E, a, b)
    ensures forall a :: Unit(E, a)
  {
  }

  lemma HasCoordinates(a: Point)
    ensures Coordinates(E, a)
  {
    PointsOnCurve(Coords(a).x, Coords(a).y);
  }

  function Represent(k: Point): Proj {
    if k == 0 then Proj(0, 1, 0) else Proj(Coords(k).x, Coords(k).y, 1)
  }

  function Denote(a: Proj): Option<Point> {
    if a == Proj(0, 1, 0) then Some(0)
    else if a.z == 1 then Lift(Affine(a.x, a.y))
    else None
  }

  function ProjPlus(a: Proj, b: Proj): Proj {
    match (Denote(a), Denote(b))
    case (Some(i), Some(j)) => Represent(Plus(i, j))
    case _ => Proj(0, 1, 0)
  }

  /** Projective representatives exist for it. */
  lemma HasProjectiveForm()
    ensures Faithful(Projective(E, Proj(0, 1, 0), ProjPlus, Denote))
  {
    IsLawful();
    var rep := Projective(E, Proj(0, 1, 0), ProjPlus, Denote);
    forall a, b ensures AddDenotes(rep, a, b) {}
    forall a ensures InField(rep, a) {}
  }

  /** A bit-0 proof that no bit-1 prover returns, although the commitment opens
      both ways: the simulated response was drawn in [n, p) and is published
      unreduced. */
  lemma UnreducedResponseShows(draws: Bit.Draws, r: nat, r': nat)
    requires draws == Bit.Draws(5, 1, 1) && r == 1 && r' == 3
    ensures Times(E, r, 2) == E.add(1, Times(E, r', 2))
    ensures var proof := Bit.BitProof(Coords(2), Coords(4), 2, 3, draws.s);
            && Bit.ProveBit0(E, Constant(3), r, 1, 2, 0, draws) == Ok((2, proof))
            && !Bit.Bit1Outputs(E, Constant(3), r', 1, 2, 0, 2, proof)
  {
    IsLawful();
    var ro := Constant(3);
    Multiples(2, r);
    Multiples(2, r');
    var proof := Bit.BitProof(Coords(2), Coords(4), 2, 3, draws.s);
    SmallProof(draws, r);
    hide Bit.ProveBit0, Lawful;
    Bit.Bit0ProofHidesBit(E, ro, r, r', 1, 2, 0, draws, 2, proof);
  }

  lemma SmallProof(draws: Bit.Draws, r: nat)
    requires draws == Bit.Draws(5, 1, 1) && r == 1
    ensures Bit.ProveBit0(E, Constant(3), r, 1, 2, 0, draws)
         == Ok((2, Bit.BitProof(Coords(2), Coords(4), 2, 3, draws.s)))
  {
    Multiples(2, r);
    Multiples(2, draws.s);
    Multiples(1, draws.c);
    assert Bit.SimulatePoe(E, 1, 2, draws.s, draws.c) == Ok(4);
    assert AllFinite(E, [2, 2, 4]);
    assert PoseidonChallenge(E, Constant(3), 0, [2, 2, 4]) == Ok(3);
    assert ScalarSub(5, 3, draws.c) == 2;
    assert Scalar.ScalarMul(5, 2, r) == 2;
    assert Response(5, draws.k, 2, r) == 3;
  }

  /** Two accepted legacy proofs with one AL and different nonzero challenges
      whose extracted randomness does not open R. */
  lemma LegacyDoesNotBindR(n: Pos, c: nat, c': nat)
    returns (proof: ElGamal.EncryptionProof, proof': ElGamal.EncryptionProof)
    requires n == 5 && c == 4 && c' == 1
    ensures ElGamal.VerifyInner(E, Constant(c), ElGamal.Legacy, 1, 2, 1, proof, 0) == Ok(true)
    ensures ElGamal.VerifyInner(E, Constant(c'), ElGamal.Legacy, 1, 2, 1, proof', 0) == Ok(true)
    ensures proof.al == proof'.al && Mod(proof.c, n) != Mod(proof'.c, n)
    ensures IsPrime(n) && 2 != Times(E, Witness(n, proof.c, proof.sr, proof'.c, proof'.sr), 1)
  {
    IsLawful();
    proof := LegacyProof(c, 3, 1);
    proof' := LegacyProof(c', 1, 3);
    hide Lawful;
    ElGamal.Sound(E, Constant(c), Constant(c'), ElGamal.Legacy, ElGamal.Legacy, 1, 2, 1, proof, 0, proof', 0);
  }

  /** The proof for L = 1, R = 2 under the key 1, from the opening (0, 1) of L. */
  lemma LegacyProof(c: nat, ar: Point, sr: nat) returns (proof: ElGamal.EncryptionProof)
    requires (c == 4 && ar == 3 && sr == 1) || (c == 1 && ar == 1 && sr == 3)
    ensures proof == ElGamal.EncryptionProof(Coords(3), Coords(ar), 1, sr, c)
    ensures ElGamal.VerifyInner(E, Constant(c), ElGamal.Legacy, 1, 2, 1, proof, 0) == Ok(true)
  {
    IsLawful();
    proof := ElGamal.EncryptionProof(Coords(3), Coords(ar), 1, sr, c);
    Multiples(1, sr);
    Multiples(1, c);
    Multiples(1, 1);
    Multiples(2, c);
    var h := ElGamal.Hashed(ElGamal.Legacy, 1, 1, 2, 3, ar);
    assert AllFinite(E, h);
    assert ElGamal.Challenge(E, Constant(c), ElGamal.Legacy, 0, 1, 1, 2, 3, ar) == Ok(c) by {
      ConstantChain(c, Transcript.Absorbed(E, h));
    }
  }

  lemma ConstantChain(v: nat, felts: seq<nat>)
    requires felts != []
    ensures Chain(Constant(v), 0, felts) == v
  {
    ConstantFrom(v, v, felts[1..]);
  }

  lemma {:induction false} ConstantFrom(v: nat, current: nat, felts: seq<nat>)
    requires current == v
    ensures Chain(Constant(v), current, felts) == v
    decreases |felts|
  {
    if felts != [] {
      ConstantFrom(v, v, felts[1..]);
    }
  }

  function Constant(v: nat): Oracle {
    Oracle(felts => v, (a, b) => v)
  }
}

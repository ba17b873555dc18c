/** The Stark curve as a commutative group of prime order with affine
    coordinates, and scalar multiplication in it.

    The field and curve arithmetic comes from a library, so the group is a
    record of operations and `Lawful` says what is assumed of them.  Each law is
    a named predicate of its points: it is used only where it is named. */
module Curve {
  import opened Numbers
  import opened Outcomes

  datatype Affine = Affine(x: nat, y: nat)

  datatype Curve<!P> = Curve(
    n: Pos,                     // order of the group
    p: Pos,                     // the field prime
    beta: nat,                  // the curve is y^2 = x^3 + x + beta
    zero: P,                    // the point at infinity
    add: (P, P) -> P,
    neg: P -> P,
    g: P,                       // the generator
    coords: P -> Affine,        // affine coordinates of a finite point
    lift: Affine -> Option<P>)  // the point with these coordinates, if any

  predicate OnCurve(p: Pos, beta: nat, a: Affine) {
    a.x < p && a.y < p && Mod(a.y * a.y, p) == Mod(a.x * a.x * a.x + a.x + beta, p)
  }

  /** -v in the field. */
  function FieldNeg(p: Pos, v: nat): nat {
    if Mod(v, p) == 0 then 0 else p - Mod(v, p)
  }

  /** k * q, by repeated addition. */
  function Times<P>(ec: Curve<P>, k: nat, q: P): P {
    if k == 0 then ec.zero else ec.add(Times(ec, k - 1, q), q)
  }

  function Sub<P>(ec: Curve<P>, a: P, b: P): P {
    ec.add(a, ec.neg(b))
  }

  // ----- what is assumed of the group

  ghost predicate Assoc<P>(ec: Curve<P>, a: P, b: P, c: P) {
    ec.add(ec.add(a, b), c) == ec.add(a, ec.add(b, c))
  }

  ghost predicate Comm<P>(ec: Curve<P>, a: P, b: P) {
    ec.add(a, b) == ec.add(b, a)
  }

  ghost predicate Unit<P>(ec: Curve<P>, a: P) {
    ec.add(a, ec.zero) == a && ec.add(a, ec.neg(a)) == ec.zero
  }

  ghost predicate Order<P>(ec: Curve<P>, a: P) {
    Times(ec, ec.n, a) == ec.zero
  }

  /** A finite point is given by its coordinates, and negation flips y. */
  ghost predicate Coordinates<P>(ec: Curve<P>, a: P) {
    a != ec.zero ==>
      && OnCurve(ec.p, ec.beta, ec.coords(a))
      && ec.lift(ec.coords(a)) == Some(a)
      && ec.neg(a) != ec.zero
      && ec.coords(ec.neg(a)) == Affine(ec.coords(a).x, FieldNeg(ec.p, ec.coords(a).y))
  }

  ghost predicate Lifts<P>(ec: Curve<P>, a: Affine) {
    match ec.lift(a)
    case None => !OnCurve(ec.p, ec.beta, a)
    case Some(q) => OnCurve(ec.p, ec.beta, a) && q != ec.zero && ec.coords(q) == a
  }

  ghost predicate Lawful<P(!new)>(ec: Curve<P>) {
    && IsPrime(ec.n) && IsPrime(ec.p) && 2 < ec.n < ec.p && ec.p < TWO_256
    && (forall a, b, c :: Assoc(ec, a, b, c))
    && (forall a, b :: Comm(ec, a, b))
    && (forall a :: Unit(ec, a))
    && (forall a :: Order(ec, a))
    && (forall a :: Coordinates(ec, a))
    && (forall a :: Lifts(ec, a))
    && ec.g != ec.zero
  }

  // ----- commutative-group algebra

  /** (a + b) + (c + d) == (a + c) + (b + d) */
  lemma Interchange<P(!new)>(ec: Curve<P>, a: P, b: P, c: P, d: P)
    requires Lawful(ec)
    ensures ec.add(ec.add(a, b), ec.add(c, d)) == ec.add(ec.add(a, c), ec.add(b, d))
  {
    assert Assoc(ec, a, b, ec.add(c, d)) && Assoc(ec, b, c, d);
    assert Comm(ec, b, c) && Assoc(ec, c, b, d) && Assoc(ec, a, c, ec.add(b, d));
  }

  lemma ZeroLeft<P(!new)>(ec: Curve<P>, a: P)
    requires Lawful(ec)
    ensures ec.add(ec.zero, a) == a && ec.add(a, ec.zero) == a
  {
    assert Comm(ec, ec.zero, a) && Unit(ec, a);
  }

  /** (a + b) - b == a, and (a - b) + b == a */
  lemma AddSub<P(!new)>(ec: Curve<P>, a: P, b: P)
    requires Lawful(ec)
    ensures Sub(ec, ec.add(a, b), b) == a
    ensures ec.add(Sub(ec, a, b), b) == a
  {
    assert Assoc(ec, a, b, ec.neg(b)) && Unit(ec, b) && Unit(ec, a);
    assert Assoc(ec, a, ec.neg(b), b) && Comm(ec, ec.neg(b), b);
  }

  lemma CancelRight<P(!new)>(ec: Curve<P>, a: P, b: P, c: P)
    requires Lawful(ec) && ec.add(a, c) == ec.add(b, c)
    ensures a == b
  {
    AddSub(ec, a, c);
    AddSub(ec, b, c);
  }

  /** (a + u) - (a + v) == u - v */
  lemma SubCommon<P(!new)>(ec: Curve<P>, a: P, u: P, v: P)
    requires Lawful(ec)
    ensures Sub(ec, ec.add(a, u), ec.add(a, v)) == Sub(ec, u, v)
  {
    AddSub(ec, ec.add(a, u), ec.add(a, v));
    AddSub(ec, u, v);
    var d := Sub(ec, u, v);
    assert Assoc(ec, a, d, v) && Comm(ec, a, d) && Assoc(ec, d, a, v);
    assert Comm(ec, d, v) && ec.add(ec.add(a, d), v) == ec.add(a, u);
    assert ec.add(d, ec.add(a, v)) == ec.add(a, u);
    CancelRight(ec, d, Sub(ec, ec.add(a, u), ec.add(a, v)), ec.add(a, v));
  }

  lemma SubZero<P(!new)>(ec: Curve<P>, a: P, b: P)
    requires Lawful(ec)
    ensures Sub(ec, a, b) == ec.zero <==> a == b
  {
    AddSub(ec, a, b);
    ZeroLeft(ec, b);
    assert Unit(ec, b);
  }

  // ----- multiples

  lemma {:induction false} TimesAdd<P(!new)>(ec: Curve<P>, i: nat, j: nat, q: P)
    requires Lawful(ec)
    ensures Times(ec, i + j, q) == ec.add(Times(ec, i, q), Times(ec, j, q))
  {
    if j == 0 {
      assert Unit(ec, Times(ec, i, q));
    } else {
      TimesAdd(ec, i, j - 1, q);
      assert Assoc(ec, Times(ec, i, q), Times(ec, j - 1, q), q);
    }
  }

  lemma {:induction false} TimesZero<P(!new)>(ec: Curve<P>, k: nat)
    requires Lawful(ec)
    ensures Times(ec, k, ec.zero) == ec.zero
  {
    if k > 0 {
      TimesZero(ec, k - 1);
      assert Unit(ec, ec.zero);
    }
  }

  lemma TimesOne<P(!new)>(ec: Curve<P>, q: P)
    requires Lawful(ec)
    ensures Times(ec, 1, q) == q
  {
    ZeroLeft(ec, q);
    assert Times(ec, 1, q) == ec.add(Times(ec, 0, q), q);
  }

  lemma {:induction false} TimesMul<P(!new)>(ec: Curve<P>, i: nat, j: nat, q: P)
    requires Lawful(ec)
    ensures Times(ec, i * j, q) == Times(ec, i, Times(ec, j, q))
  {
    if i > 0 {
      TimesMul(ec, i - 1, j, q);
      TimesAdd(ec, (i - 1) * j, j, q);
      assert i * j == (i - 1) * j + j;
    }
  }

  lemma {:induction false} TimesSum<P(!new)>(ec: Curve<P>, k: nat, a: P, b: P)
    requires Lawful(ec)
    ensures Times(ec, k, ec.add(a, b)) == ec.add(Times(ec, k, a), Times(ec, k, b))
  {
    if k == 0 {
      assert Unit(ec, ec.zero);
    } else {
      TimesSum(ec, k - 1, a, b);
      Interchange(ec, Times(ec, k - 1, a), Times(ec, k - 1, b), a, b);
    }
  }

  lemma TimesSub<P(!new)>(ec: Curve<P>, k: nat, a: P, b: P)
    requires Lawful(ec)
    ensures Times(ec, k, Sub(ec, a, b)) == Sub(ec, Times(ec, k, a), Times(ec, k, b))
  {
    AddSub(ec, a, b);
    TimesSum(ec, k, Sub(ec, a, b), b);
    AddSub(ec, Times(ec, k, Sub(ec, a, b)), Times(ec, k, b));
  }

  /** Multiplication does not see a reduction modulo the order, so reduced
      responses and unreduced challenges act alike. */
  lemma {:induction false} TimesMod<P(!new)>(ec: Curve<P>, k: nat, q: P)
    requires Lawful(ec)
    ensures Times(ec, Mod(k, ec.n), q) == Times(ec, k, q)
  {
    if k >= ec.n {
      TimesMod(ec, k - ec.n, q);
      TimesAdd(ec, k - ec.n, ec.n, q);
      assert Order(ec, q);
      ZeroLeft(ec, Times(ec, k - ec.n, q));
    }
  }

  lemma TimesCongruent<P(!new)>(ec: Curve<P>, i: nat, j: nat, q: P)
    requires Lawful(ec) && Mod(i, ec.n) == Mod(j, ec.n)
    ensures Times(ec, i, q) == Times(ec, j, q)
  {
    TimesMod(ec, i, q);
    TimesMod(ec, j, q);
  }

  /** e * (d * q) == q when e inverts d. */
  lemma Unscale<P(!new)>(ec: Curve<P>, d: nat, e: nat, q: P)
    requires Lawful(ec) && Mod(d * e, ec.n) == 1
    ensures Times(ec, e, Times(ec, d, q)) == q
  {
    MulComm(d, e);
    TimesMul(ec, e, d, q);
    TimesMod(ec, e * d, q);
    TimesOne(ec, q);
  }

  /** In a group of prime order a multiple of a finite point vanishes exactly
      when the scalar does. */
  lemma TimesIsZero<P(!new)>(ec: Curve<P>, k: nat, q: P)
    requires Lawful(ec)
    ensures Times(ec, k, q) == ec.zero <==> Mod(k, ec.n) == 0 || q == ec.zero
  {
    TimesMod(ec, k, q);
    TimesZero(ec, k);
    var d := Mod(k, ec.n);
    if Times(ec, k, q) == ec.zero && d != 0 {
      var e := ModInverse(d, ec.n);
      Unscale(ec, d, e, q);
      TimesZero(ec, e);
    }
  }

  /** Below the order, scalars of a finite point are determined. */
  lemma TimesInjective<P(!new)>(ec: Curve<P>, i: nat, j: nat, q: P)
    requires Lawful(ec) && q != ec.zero && Times(ec, i, q) == Times(ec, j, q)
    ensures Mod(i, ec.n) == Mod(j, ec.n)
    decreases j
  {
    if i < j {
      TimesInjective(ec, j, i, q);
    } else {
      var d := i - j;
      TimesAdd(ec, d, j, q);
      ZeroLeft(ec, Times(ec, j, q));
      CancelRight(ec, Times(ec, d, q), ec.zero, Times(ec, j, q));
      TimesIsZero(ec, d, q);
      ModAddLeft(d, j, ec.n);
    }
  }

  // ----- affine coordinates

  /** `ProjectivePoint::to_affine`, failing on the point at infinity. */
  function ToAffine<P(==)>(ec: Curve<P>, q: P): Result<Affine> {
    if q == ec.zero then Err(PointAtInfinity) else Ok(ec.coords(q))
  }

  /** `SerializablePoint::to_affine` then `affine_to_projective`. */
  function FromAffine<P>(ec: Curve<P>, a: Affine): Result<P> {
    match ec.lift(a)
    case None => Err(InvalidPublicKey)
    case Some(q) => Ok(q)
  }

  /** Negation as the code does it: through affine coordinates, so it fails
      on the point at infinity. */
  function Negate<P(==)>(ec: Curve<P>, q: P): Result<P> {
    var a :- ToAffine(ec, q);
    match ec.lift(Affine(a.x, FieldNeg(ec.p, a.y)))
    case None => Err(CryptoError("Point negation failed"))
    case Some(r) => Ok(r)
  }

  lemma NegateIsNeg<P(!new)>(ec: Curve<P>, q: P)
    requires Lawful(ec)
    ensures Negate(ec, q) == if q == ec.zero then Err(PointAtInfinity) else Ok(ec.neg(q))
  {
    assert Coordinates(ec, q) && Coordinates(ec, ec.neg(q));
  }

  /** Serialising then parsing a finite point gives it back, and comparing
      affine forms compares points. */
  lemma AffineRoundTrip<P(!new)>(ec: Curve<P>, q: P, r: P)
    requires Lawful(ec) && q != ec.zero && r != ec.zero
    ensures FromAffine(ec, ec.coords(q)) == Ok(q)
    ensures ec.coords(q) == ec.coords(r) <==> q == r
  {
    assert Coordinates(ec, q) && Coordinates(ec, r);
  }

  lemma FromAffineFinite<P(!new)>(ec: Curve<P>, a: Affine)
    requires Lawful(ec) && FromAffine(ec, a).Ok?
    ensures FromAffine(ec, a).value != ec.zero && ec.coords(FromAffine(ec, a).value) == a
  {
    assert Lifts(ec, a);
  }
}

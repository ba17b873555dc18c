/** Fiat-Shamir challenges over uninterpreted hash functions. */
module Transcript {
  import opened Numbers
  import opened Outcomes
  import opened Curve

  /** The two hash functions.  Theorems quantify over them, so running a
      verifier under two oracles models rewinding a prover. */
  datatype Oracle = Oracle(poseidon: seq<nat> -> nat, pedersen: (nat, nat) -> nat)

  predicate AllFinite<P(==)>(ec: Curve<P>, points: seq<P>) {
    forall i :: 0 <= i < |points| ==> points[i] != ec.zero
  }

  /** What the hashes absorb: x and y of each point in turn. */
  function Absorbed<P>(ec: Curve<P>, points: seq<P>): seq<nat> {
    if points == [] then []
    else [ec.coords(points[0]).x, ec.coords(points[0]).y] + Absorbed(ec, points[1..])
  }

  function Chain(ro: Oracle, current: nat, felts: seq<nat>): nat
    decreases |felts|
  {
    if felts == [] then current else Chain(ro, ro.pedersen(current, felts[0]), felts[1..])
  }

  function PoseidonChallenge<P(==)>(ec: Curve<P>, ro: Oracle, prefix: nat, points: seq<P>): Result<nat> {
    if AllFinite(ec, points) then Ok(Mod(ro.poseidon([prefix] + Absorbed(ec, points)), ec.n))
    else Err(PointAtInfinity)
  }

  function PedersenChallenge<P(==)>(ec: Curve<P>, ro: Oracle, prefix: nat, points: seq<P>): Result<nat> {
    if AllFinite(ec, points) then Ok(Chain(ro, prefix, Absorbed(ec, points)))
    else Err(PointAtInfinity)
  }

  lemma {:induction false} AbsorbedSplit<P>(ec: Curve<P>, a: seq<P>, b: seq<P>)
    ensures Absorbed(ec, a + b) == Absorbed(ec, a) + Absorbed(ec, b)
  {
    if a == [] {
      assert a + b == b;
    } else {
      assert (a + b)[1..] == a[1..] + b;
      AbsorbedSplit(ec, a[1..], b);
    }
  }

  lemma {:induction false} ChainSplit(ro: Oracle, current: nat, a: seq<nat>, b: seq<nat>)
    ensures Chain(ro, current, a + b) == Chain(ro, Chain(ro, current, a), b)
    decreases |a|
  {
    if a == [] {
      assert a + b == b;
    } else {
      assert (a + b)[1..] == a[1..] + b;
      ChainSplit(ro, ro.pedersen(current, a[0]), a[1..], b);
    }
  }

  lemma ChainTwo(ro: Oracle, current: nat, x: nat, y: nat)
    ensures Chain(ro, current, [x, y]) == ro.pedersen(ro.pedersen(current, x), y)
  {
    assert [x, y][1..] == [y] && [y][1..] == [];
    assert Chain(ro, ro.pedersen(current, x), [y]) == Chain(ro, ro.pedersen(ro.pedersen(current, x), y), []);
  }

  lemma AbsorbedSnoc<P>(ec: Curve<P>, points: seq<P>, i: nat)
    requires i < |points|
    ensures Absorbed(ec, points[..i + 1])
         == Absorbed(ec, points[..i]) + [ec.coords(points[i]).x, ec.coords(points[i]).y]
  {
    assert points[..i + 1] == points[..i] + [points[i]];
    AbsorbedSplit(ec, points[..i], [points[i]]);
  }

  /** `compute_poseidon_challenge`: the felts are pushed point by point. */
  method ComputePoseidonChallenge<P(==)>(ec: Curve<P>, ro: Oracle, prefix: nat, points: seq<P>)
    returns (r: Result<nat>)
    ensures r == PoseidonChallenge(ec, ro, prefix, points)
  {
    var felts := [prefix];
    for i := 0 to |points|
      invariant AllFinite(ec, points[..i])
      invariant felts == [prefix] + Absorbed(ec, points[..i])
    {
      if points[i] == ec.zero {
        return Err(PointAtInfinity);
      }
      var affine := ec.coords(points[i]);
      felts := felts + [affine.x];
      felts := felts + [affine.y];
      AbsorbedSnoc(ec, points, i);
    }
    assert points[..|points|] == points;
    r := Ok(Mod(ro.poseidon(felts), ec.n));
  }

  /** `compute_challenge`: two Pedersen steps per point. */
  method ComputeChallenge<P(==)>(ec: Curve<P>, ro: Oracle, prefix: nat, points: seq<P>)
    returns (r: Result<nat>)
    ensures r == PedersenChallenge(ec, ro, prefix, points)
  {
    var current := prefix;
    for i := 0 to |points|
      invariant AllFinite(ec, points[..i])
      invariant current == Chain(ro, prefix, Absorbed(ec, points[..i]))
    {
      if points[i] == ec.zero {
        return Err(PointAtInfinity);
      }
      var affine := ec.coords(points[i]);
      AbsorbedSnoc(ec, points, i);
      ChainSplit(ro, prefix, Absorbed(ec, points[..i]), [affine.x, affine.y]);
      ChainTwo(ro, current, affine.x, affine.y);
      current := ro.pedersen(current, affine.x);
      current := ro.pedersen(current, affine.y);
    }
    assert points[..|points|] == points;
    r := Ok(current);
  }

  /** The Poseidon input determines prefix and points: two different
      statements get the same challenge input never. */
  lemma {:induction false} AbsorbedInjective<P(!new)>(ec: Curve<P>, a: seq<P>, b: seq<P>)
    requires Lawful(ec) && AllFinite(ec, a) && AllFinite(ec, b)
    requires Absorbed(ec, a) == Absorbed(ec, b)
    ensures a == b
  {
    if a == [] || b == [] {
    } else {
      var fa, fb := Absorbed(ec, a), Absorbed(ec, b);
      assert ec.coords(a[0]).x == fa[0] && ec.coords(a[0]).y == fa[1];
      assert ec.coords(b[0]).x == fb[0] && ec.coords(b[0]).y == fb[1];
      AffineRoundTrip(ec, a[0], b[0]);
      assert fa[2..] == Absorbed(ec, a[1..]) && fb[2..] == Absorbed(ec, b[1..]);
      AbsorbedInjective(ec, a[1..], b[1..]);
      assert a == [a[0]] + a[1..] && b == [b[0]] + b[1..];
    }
  }

  /** `extend_pedersen_prefix`: folding statement points into the prefix is
      hashing them before the commitments. */
  lemma PrefixExtension<P>(ec: Curve<P>, ro: Oracle, prefix: nat, statement: seq<P>, commitments: seq<P>)
    ensures PedersenChallenge(ec, ro, prefix, statement + commitments) ==
            match PedersenChallenge(ec, ro, prefix, statement)
            case Err(e) => Err(e)
            case Ok(extended) => PedersenChallenge(ec, ro, extended, commitments)
  {
    var all := statement + commitments;
    AbsorbedSplit(ec, statement, commitments);
    ChainSplit(ro, prefix, Absorbed(ec, statement), Absorbed(ec, commitments));
    assert forall i :: 0 <= i < |statement| ==> statement[i] == all[i];
    assert forall i :: 0 <= i < |commitments| ==> commitments[i] == all[|statement| + i];
  }

  // ----- what is hashed, felt by felt

  /** A prefix, then x and y of each point in turn. */
  ghost predicate Spells<P>(ec: Curve<P>, felts: seq<nat>, prefix: nat, points: seq<P>) {
    && |felts| == 1 + 2 * |points| && felts[0] == prefix
    && forall i :: 0 <= i < |points| ==> felts[2 * i + 1] == ec.coords(points[i]).x && felts[2 * i + 2] == ec.coords(points[i]).y
  }

  lemma {:induction false} AbsorbedAt<P>(ec: Curve<P>, points: seq<P>, i: nat)
    requires i < |points|
    ensures |Absorbed(ec, points)| == 2 * |points|
    ensures Absorbed(ec, points)[2 * i] == ec.coords(points[i]).x && Absorbed(ec, points)[2 * i + 1] == ec.coords(points[i]).y
  {
    if i > 0 {
      AbsorbedAt(ec, points[1..], i - 1);
    } else if |points| > 1 {
      AbsorbedAt(ec, points[1..], 0);
    }
  }

  /** A Poseidon challenge is the hash of exactly those felts, modulo the order. */
  lemma PoseidonHashes<P>(ec: Curve<P>, ro: Oracle, prefix: nat, points: seq<P>, felts: seq<nat>)
    requires AllFinite(ec, points) && Spells(ec, felts, prefix, points)
    ensures PoseidonChallenge(ec, ro, prefix, points) == Ok(Mod(ro.poseidon(felts), ec.n))
  {
    var input := [prefix] + Absorbed(ec, points);
    if points != [] {
      AbsorbedAt(ec, points, 0);
    }
    forall k | 0 <= k < |felts| ensures felts[k] == input[k] {
      if k > 0 {
        var i := (k - 1) / 2;
        AbsorbedAt(ec, points, i);
        assert k == 2 * i + 1 || k == 2 * i + 2;
      }
    }
    assert felts == input;
  }

  /** A Pedersen challenge starts at the prefix and takes x, then y, of each
      further point. */
  lemma PedersenHashes<P>(ec: Curve<P>, ro: Oracle, prefix: nat, points: seq<P>, q: P)
    ensures PedersenChallenge(ec, ro, prefix, []) == Ok(prefix)
    ensures PedersenChallenge(ec, ro, prefix, points + [q]) ==
            match PedersenChallenge(ec, ro, prefix, points)
            case Err(e) => Err(e)
            case Ok(c) =>
              if q == ec.zero then Err(PointAtInfinity)
              else Ok(ro.pedersen(ro.pedersen(c, ec.coords(q).x), ec.coords(q).y))
  {
    PrefixExtension(ec, ro, prefix, points, [q]);
    if PedersenChallenge(ec, ro, prefix, points).Ok? && q != ec.zero {
      var c := PedersenChallenge(ec, ro, prefix, points).value;
      assert [q][0] == q && [q][1..] == [];
      assert Absorbed(ec, [q]) == [ec.coords(q).x, ec.coords(q).y];
      ChainTwo(ro, c, ec.coords(q).x, ec.coords(q).y);
    } else if q == ec.zero {
      assert [q][0] == q;
    }
  }

  /** Two inputs with one Poseidon hash. */
  ghost predicate Collide(ro: Oracle, a: seq<nat>, b: seq<nat>) {
    a != b && ro.poseidon(a) == ro.poseidon(b)
  }

  /** Two inputs with one challenge. */
  ghost predicate CollideMod(ro: Oracle, n: Pos, a: seq<nat>, b: seq<nat>) {
    a != b && Mod(ro.poseidon(a), n) == Mod(ro.poseidon(b), n)
  }
}

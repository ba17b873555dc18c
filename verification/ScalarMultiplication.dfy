/** Scalar multiplication as the code runs it: on projective coordinates, over
    the bytes and bits of the scalar, with a selection at every bit instead of
    a branch. */
module ScalarMultiplication {
  import opened Numbers
  import opened Outcomes
  import opened Bytes
  import opened Curve

  datatype Proj = Proj(x: nat, y: nat, z: nat)

  /** The library's projective points: many triples stand for one group
      element, and `denote` is `None` on triples `ProjectivePoint::new`
      refuses. */
  datatype Projective<!P> = Projective(
    curve: Curve<P>,
    identity: Proj,
    add: (Proj, Proj) -> Proj,
    denote: Proj -> Option<P>)

  ghost predicate AddDenotes<P>(rep: Projective<P>, a: Proj, b: Proj) {
    rep.denote(a).Some? && rep.denote(b).Some? ==>
      rep.denote(rep.add(a, b)) == Some(rep.curve.add(rep.denote(a).value, rep.denote(b).value))
  }

  ghost predicate InField<P>(rep: Projective<P>, a: Proj) {
    rep.denote(a).Some? ==> a.x < rep.curve.p && a.y < rep.curve.p && a.z < rep.curve.p
  }

  ghost predicate Faithful<P(!new)>(rep: Projective<P>) {
    && Lawful(rep.curve)
    && rep.denote(rep.identity) == Some(rep.curve.zero)
    && (forall a, b :: AddDenotes(rep, a, b))
    && (forall a :: InField(rep, a))
  }

  /** Constant-time selection of a field element, byte by byte. */
  method CtSelectFelt(p: Pos, choice: bool, a: nat, b: nat) returns (r: nat)
    requires a < p && b < p && p < TWO_256
    ensures r == if choice then a else b
  {
    var aBytes, bBytes := ToBytes(a, 32), ToBytes(b, 32);
    var out := new byte[32](i => 0);
    for i := 0 to 32
      invariant out[..i] == (if choice then aBytes else bBytes)[..i]
    {
      out[i] := if choice then aBytes[i] else bBytes[i];
    }
    r := FromBytes(out[..]) % p;
    assert out[..] == out[..32];
    ghost var chosen := if choice then a else b;
    assert out[..] == ToBytes(chosen, 32);
    FeltRoundTrip(chosen, 32);
    RemSmall(chosen, p);
  }

  method CtSelectPoint<P(!new)>(rep: Projective<P>, choice: bool, a: Proj, b: Proj) returns (r: Proj)
    requires Faithful(rep) && rep.denote(a).Some? && rep.denote(b).Some?
    ensures r == if choice then a else b
  {
    assert InField(rep, a) && InField(rep, b);
    var p := rep.curve.p;
    var x := CtSelectFelt(p, choice, a.x, b.x);
    var y := CtSelectFelt(p, choice, a.y, b.y);
    var z := CtSelectFelt(p, choice, a.z, b.z);
    r := Proj(x, y, z);
  }

  predicate BitSet(v: nat, k: nat) {
    (v / Pow2(k)) % 2 == 1
  }

  /** The loop's state after the low `k` bits. */
  ghost predicate Absorbed<P>(rep: Projective<P>, q: P, scalar: nat, k: nat, result: Proj, temp: Proj) {
    && rep.denote(result) == Some(Times(rep.curve, scalar % Pow2(k), q))
    && rep.denote(temp) == Some(Times(rep.curve, Pow2(k), q))
  }

  lemma AbsorbBit<P(!new)>(rep: Projective<P>, q: P, scalar: nat, k: nat, result: Proj, temp: Proj)
    requires Faithful(rep) && Absorbed(rep, q, scalar, k, result, temp)
    ensures Absorbed(rep, q, scalar, k + 1, if BitSet(scalar, k) then rep.add(result, temp) else result, rep.add(temp, temp))
    ensures rep.denote(rep.add(result, temp)).Some? && rep.denote(result).Some?
  {
    assert AddDenotes(rep, result, temp) && AddDenotes(rep, temp, temp);
    LowBits(scalar, k);
    TimesAdd(rep.curve, scalar % Pow2(k), Pow2(k), q);
    TimesAdd(rep.curve, Pow2(k), Pow2(k), q);
    assert Pow2(k + 1) == Pow2(k) + Pow2(k);
  }

  /** Bit i of byte m of the scalar is bit 8 * m + i of the scalar. */
  lemma BitOfByte(scalar: nat, k: nat, i: nat)
    requires i < 8
    ensures BitSet(scalar / Pow2(k) % 256, i) == BitSet(scalar, k + i)
  {
    hide Pow2;
    LowByteBit(scalar / Pow2(k), i);
    DropBits(scalar, k, i);
  }

  /** The eight bits of one byte of the scalar. */
  method AbsorbByte<P(!new)>(rep: Projective<P>, ghost q: P, ghost scalar: nat, ghost m: nat,
                             byte: byte, result: Proj, temp: Proj)
    returns (result': Proj, temp': Proj)
    requires Faithful(rep) && Absorbed(rep, q, scalar, 8 * m, result, temp)
    requires byte == (scalar / Pow2(8 * m)) % 256
    ensures Absorbed(rep, q, scalar, 8 * (m + 1), result', temp')
  {
    hide Absorbed, Faithful, Pow2, BitSet;
    result', temp' := result, temp;
    for i := 0 to 8
      invariant Absorbed(rep, q, scalar, 8 * m + i, result', temp')
    {
      var bit := BitSet(byte, i);
      BitOfByte(scalar, 8 * m, i);
      AbsorbBit(rep, q, scalar, 8 * m + i, result', temp');
      var added := rep.add(result', temp');
      result' := CtSelectPoint(rep, bit, added, result');
      temp' := rep.add(temp', temp');
    }
  }

  /** `StarkCurve::scalar_mul`: the double-and-add loop computes the
      multiple, for every scalar that fits 32 bytes. */
  method ScalarMul<P(!new)>(rep: Projective<P>, point: Proj, scalar: nat) returns (result: Proj)
    requires Faithful(rep) && rep.denote(point).Some?
    requires scalar < TWO_256
    ensures rep.denote(result) == Some(Times(rep.curve, scalar, rep.denote(point).value))
  {
    var bytes := ToBytes(scalar, 32);
    ghost var q := rep.denote(point).value;
    result := rep.identity;
    var temp := point;
    TimesOne(rep.curve, q);
    var m := 0;
    while m < 32
      invariant 0 <= m <= 32
      invariant Absorbed(rep, q, scalar, 8 * m, result, temp)
    {
      ByteAt(scalar, 32, m);
      result, temp := AbsorbByte(rep, q, scalar, m, bytes[31 - m], result, temp);
      m := m + 1;
    }
    Pow2Is256(8 * m);
    RemSmall(scalar, TWO_256);
  }
}

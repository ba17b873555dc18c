/** Compressed points: the 33 bytes behind a Tongo address. */
module Address {
  import opened Numbers
  import opened Outcomes
  import opened Bytes
  import opened Curve

  const NOT_ON_CURVE: KmsError := CryptoError("x-coordinate is not on the Stark curve")
  const BAD_PREFIX: KmsError := DeserializationError("Invalid compression prefix")
  const BAD_LENGTH: KmsError := DeserializationError("Expected 33 bytes for compressed point")
  const INFINITE: KmsError := CryptoError("Cannot compress point at infinity")

  /** `Felt::sqrt`: some square root, whichever, or none. */
  ghost predicate SquareRoots(p: Pos, sqrt: nat -> Option<nat>) {
    forall a: nat :: RootOf(p, sqrt, a)
  }

  ghost predicate RootOf(p: Pos, sqrt: nat -> Option<nat>, a: nat) {
    match sqrt(a)
    case Some(r) => r < p && Mod(r * r, p) == Mod(a, p)
    case None => forall y: nat :: y < p ==> Mod(y * y, p) != Mod(a, p)
  }

  function YSquared(p: Pos, beta: nat, x: nat): nat {
    Mod(x * x * x + x + beta, p)
  }

  /** Bit 0 of the last byte. */
  predicate IsOdd(v: nat) {
    ToBytes(v, 32)[31] % 2 == 1
  }

  /** Prefix byte 2 for an even y, 3 for an odd one, then x. */
  function Encoded(a: Affine): seq<byte> {
    [if IsOdd(a.y) then 3 else 2] + ToBytes(a.x, 32)
  }

  function Compress<P(==)>(ec: Curve<P>, q: P): Result<seq<byte>> {
    if q == ec.zero then Err(INFINITE) else Ok(Encoded(ec.coords(q)))
  }

  function Decompress<P>(ec: Curve<P>, sqrt: nat -> Option<nat>, bytes: seq<byte>): Result<P> {
    if |bytes| != 33 then Err(BAD_LENGTH)
    else if bytes[0] != 2 && bytes[0] != 3 then Err(BAD_PREFIX)
    else
      var x := Mod(FromBytes(bytes[1..]), ec.p);
      match sqrt(YSquared(ec.p, ec.beta, x))
      case None => Err(NOT_ON_CURVE)
      case Some(y) =>
        var wantOdd := bytes[0] == 3;
        match ec.lift(Affine(x, if IsOdd(y) == wantOdd then y else FieldNeg(ec.p, y)))
        case None => Err(CryptoError("Decompressed point not on curve"))
        case Some(q) => Ok(q)
  }

  /** `compress_point`, filling its 33-byte buffer. */
  method CompressPoint<P(==)>(ec: Curve<P>, q: P) returns (r: Result<seq<byte>>)
    ensures r == Compress(ec, q)
  {
    if q == ec.zero {
      return Err(INFINITE);
    }
    var xBytes := ToBytes(ec.coords(q).x, 32);
    var prefix := if IsOdd(ec.coords(q).y) then 3 else 2;
    var result := new byte[33](i => 0);
    result[0] := prefix;
    for i := 0 to 32
      invariant result[0] == prefix
      invariant result[1..i + 1] == xBytes[..i]
    {
      result[i + 1] := xBytes[i];
    }
    assert xBytes[..32] == xBytes;
    assert result[..] == [result[0]] + result[1..33];
    r := Ok(result[..]);
  }

  // ----- parity and roots

  lemma LastByteParity(v: nat)
    ensures IsOdd(v) <==> v % 2 == 1
  {
    ByteParity(v);
  }

  lemma ByteParity(v: nat)
    ensures (v % 256) % 2 == v % 2
  {
  }

  /** Square roots modulo a prime are unique up to sign. */
  lemma RootsUpToSign(p: Pos, y: nat, r: nat)
    requires IsPrime(p) && y < p && r < p && Mod(y * y, p) == Mod(r * r, p)
    ensures r == y || r + y == p
  {
    hide IsPrime, Mod;
    if y <= r {
      RootsOrdered(p, y, r);
    } else {
      RootsOrdered(p, r, y);
    }
  }

  lemma RootsOrdered(p: Pos, y: nat, r: nat)
    requires IsPrime(p) && y <= r < p && Mod(y * y, p) == Mod(r * r, p)
    ensures r == y || r + y == p
  {
    hide IsPrime, Mod;
    DifferenceOfSquares(r, y);
    ModCancel(y * y, (r - y) * (r + y), p);
    PrimeDividesProduct(r - y, r + y, p);
    SumVanishes(r, y, p);
  }

  lemma SumVanishes(r: nat, y: nat, p: Pos)
    requires y < p && r < p
    ensures Mod(r + y, p) == 0 ==> r + y == 0 || r + y == p
    ensures y <= r && Mod(r - y, p) == 0 ==> r == y
  {
    ModOnce(r + y, p);
  }

  lemma DifferenceOfSquares(r: nat, y: nat)
    requires y <= r
    ensures y * y + (r - y) * (r + y) == r * r
  {
  }

  lemma {:induction false} ModCancel(a: nat, b: nat, p: Pos)
    requires Mod(a + b, p) == Mod(a, p)
    ensures Mod(b, p) == 0
  {
    ModAdd(a, b, p);
    ModOnce(Mod(a, p) + Mod(b, p), p);
  }

  /** No point has y = 0: it would be its own negative, of order two. */
  lemma NonzeroY<P(!new)>(ec: Curve<P>, q: P)
    requires Lawful(ec) && q != ec.zero
    ensures ec.coords(q).y != 0
  {
    assert Coordinates(ec, q);
    if ec.coords(q).y == 0 {
      AffineRoundTrip(ec, q, ec.neg(q));
      assert Unit(ec, q);
      TimesOne(ec, q);
      TimesAdd(ec, 1, 1, q);
      TimesIsZero(ec, 2, q);
    }
  }

  lemma OddPrime(p: nat)
    requires IsPrime(p) && p > 2
    ensures p % 2 == 1
  {
  }

  /** Negation of a nonzero element flips its parity. */
  lemma FieldNegFlips(p: Pos, y: nat)
    requires IsPrime(p) && p > 2 && 0 < y < p
    ensures FieldNeg(p, y) == p - y && (IsOdd(FieldNeg(p, y)) <==> !IsOdd(y))
  {
    OddPrime(p);
    LastByteParity(y);
    LastByteParity(p - y);
    OddMinus(p, y);
  }

  lemma OddMinus(p: nat, y: nat)
    requires p % 2 == 1 && y <= p
    ensures (p - y) % 2 != y % 2
  {
  }

  /** The root chosen by parity, whichever root the field gave. */
  lemma ChosenRoot(p: Pos, y: nat, r: nat)
    requires IsPrime(p) && p > 2 && 0 < y < p && r < p && Mod(y * y, p) == Mod(r * r, p)
    ensures (if IsOdd(r) == IsOdd(y) then r else FieldNeg(p, r)) == y
  {
    hide IsOdd;
    RootsUpToSign(p, y, r);
    FieldNegFlips(p, y);
    if r != y {
      FieldNegFlips(p, r);
    }
  }

  // ----- round trips

  /** Decompressing the compression of any finite point returns it. */
  lemma RoundTrip<P(!new)>(ec: Curve<P>, sqrt: nat -> Option<nat>, q: P)
    requires Lawful(ec) && SquareRoots(ec.p, sqrt) && q != ec.zero
    ensures Compress(ec, q).Ok? && Decompress(ec, sqrt, Compress(ec, q).value) == Ok(q)
  {
    var a := ec.coords(q);
    assert Coordinates(ec, q);
    DecodesTo(ec, sqrt, q, Encoded(a));
  }

  /** Any encoding with the point's parity whose x is congruent to the point's
      decodes to it. */
  lemma DecodesTo<P(!new)>(ec: Curve<P>, sqrt: nat -> Option<nat>, q: P, bytes: seq<byte>)
    requires Lawful(ec) && SquareRoots(ec.p, sqrt) && q != ec.zero && |bytes| == 33
    requires bytes[0] == Encoded(ec.coords(q))[0]
    requires Mod(FromBytes(bytes[1..]), ec.p) == ec.coords(q).x || bytes[1..] == ToBytes(ec.coords(q).x, 32)
    ensures Decompress(ec, sqrt, bytes) == Ok(q)
  {
    hide IsOdd;
    var a := ec.coords(q);
    assert Coordinates(ec, q);
    FeltRoundTrip(a.x, 32);
    var sq := YSquared(ec.p, ec.beta, a.x);
    assert RootOf(ec.p, sqrt, sq);
    var r := sqrt(sq).value;
    NonzeroY(ec, q);
    ChosenRoot(ec.p, a.y, r);
  }

  /** What decoding returns: a point with that x, modulo the field, and the
      parity asked for. */
  lemma DecodedPoint<P(!new)>(ec: Curve<P>, sqrt: nat -> Option<nat>, bytes: seq<byte>, q: P)
    requires Lawful(ec) && SquareRoots(ec.p, sqrt)
    requires Decompress(ec, sqrt, bytes) == Ok(q)
    ensures q != ec.zero && ec.coords(q).x == Mod(FromBytes(bytes[1..]), ec.p)
    ensures bytes[0] == if IsOdd(ec.coords(q).y) then 3 else 2
  {
    hide IsOdd;
    var x := Mod(FromBytes(bytes[1..]), ec.p);
    var y := sqrt(YSquared(ec.p, ec.beta, x)).value;
    assert RootOf(ec.p, sqrt, YSquared(ec.p, ec.beta, x));
    var final := if IsOdd(y) == (bytes[0] == 3) then y else FieldNeg(ec.p, y);
    assert Lifts(ec, Affine(x, final));
    NonzeroY(ec, q);
    if y != 0 {
      FieldNegFlips(ec.p, y);
    }
  }

  /** Decoding is not injective: re-encoding returns the bytes exactly when
      their x is a canonical field element. */
  lemma Canonical<P(!new)>(ec: Curve<P>, sqrt: nat -> Option<nat>, bytes: seq<byte>, q: P)
    requires Lawful(ec) && SquareRoots(ec.p, sqrt)
    requires Decompress(ec, sqrt, bytes) == Ok(q)
    ensures Compress(ec, q) == Ok(bytes) <==> FromBytes(bytes[1..]) < ec.p
  {
    hide IsOdd;
    DecodedPoint(ec, sqrt, bytes, q);
    var x := FromBytes(bytes[1..]);
    assert bytes == [bytes[0]] + bytes[1..];
    assert Encoded(ec.coords(q))[1..] == ToBytes(ec.coords(q).x, 32);
    BytesRoundTrip(bytes[1..]);
    FeltRoundTrip(Mod(x, ec.p), 32);
  }

  /** Every point small enough has such a second encoding. */
  lemma Alias<P(!new)>(ec: Curve<P>, sqrt: nat -> Option<nat>, q: P)
    requires Lawful(ec) && SquareRoots(ec.p, sqrt) && q != ec.zero
    requires ec.coords(q).x + ec.p < TWO_256
    ensures var alias := [Encoded(ec.coords(q))[0]] + ToBytes(ec.coords(q).x + ec.p, 32);
            Ok(alias) != Compress(ec, q) && Decompress(ec, sqrt, alias) == Ok(q)
  {
    hide IsOdd;
    var x := ec.coords(q).x;
    var tail := ToBytes(x + ec.p, 32);
    var alias := [Encoded(ec.coords(q))[0]] + tail;
    assert Coordinates(ec, q);
    assert alias[1..] == tail && Encoded(ec.coords(q))[1..] == ToBytes(x, 32);
    FeltRoundTrip(x + ec.p, 32);
    FeltRoundTrip(x, 32);
    ModOnce(x + ec.p, ec.p);
    DecodesTo(ec, sqrt, q, alias);
  }

  /** Decoding succeeds exactly on 33 bytes with a valid prefix whose x is the
      abscissa of a point. */
  lemma DecodesWhen<P(!new)>(ec: Curve<P>, sqrt: nat -> Option<nat>, bytes: seq<byte>)
    requires Lawful(ec) && SquareRoots(ec.p, sqrt)
    ensures Decompress(ec, sqrt, bytes).Ok? <==>
              && |bytes| == 33 && bytes[0] in {2, 3}
              && exists q: P :: q != ec.zero && ec.coords(q).x == Mod(FromBytes(bytes[1..]), ec.p)
  {
    if Decompress(ec, sqrt, bytes).Ok? {
      DecodedPoint(ec, sqrt, bytes, Decompress(ec, sqrt, bytes).value);
    } else if |bytes| == 33 && bytes[0] in {2, 3} {
      forall q: P | q != ec.zero ensures ec.coords(q).x != Mod(FromBytes(bytes[1..]), ec.p) {
        if ec.coords(q).x == Mod(FromBytes(bytes[1..]), ec.p) {
          var t := if bytes[0] == Encoded(ec.coords(q))[0] then q else ec.neg(q);
          NegatedParity(ec, q);
          DecodesTo(ec, sqrt, t, bytes);
        }
      }
    }
  }

  lemma NegatedParity<P(!new)>(ec: Curve<P>, q: P)
    requires Lawful(ec) && q != ec.zero
    ensures ec.neg(q) != ec.zero && ec.coords(ec.neg(q)).x == ec.coords(q).x
    ensures Encoded(ec.coords(ec.neg(q)))[0] == 5 - Encoded(ec.coords(q))[0]
  {
    hide IsOdd;
    assert Coordinates(ec, q);
    NonzeroY(ec, q);
    FieldNegFlips(ec.p, ec.coords(q).y);
  }

  /** The 33 bytes: 2 or 3 by the parity of y, then x. */
  lemma CompressedForm<P(!new)>(ec: Curve<P>, q: P)
    requires Lawful(ec)
    ensures q == ec.zero ==> Compress(ec, q) == Err(INFINITE)
    ensures q != ec.zero ==>
              && Compress(ec, q).Ok? && |Compress(ec, q).value| == 33
              && Compress(ec, q).value[0] == 2 + ec.coords(q).y % 2
              && FromBytes(Compress(ec, q).value[1..]) == ec.coords(q).x
  {
    if q != ec.zero {
      var a := ec.coords(q);
      assert Coordinates(ec, q);
      LastByteParity(a.y);
      FeltRoundTrip(a.x, 32);
      assert Encoded(a)[1..] == ToBytes(a.x, 32);
    }
  }

  /** Why decoding fails: first the length, then the prefix byte, then an x that
      is no abscissa; a point found by its root is always on the curve. */
  lemma DecodeErrors<P(!new)>(ec: Curve<P>, sqrt: nat -> Option<nat>, bytes: seq<byte>)
    requires Lawful(ec) && SquareRoots(ec.p, sqrt) && Decompress(ec, sqrt, bytes).Err?
    ensures Decompress(ec, sqrt, bytes).error ==
            if |bytes| != 33 then BAD_LENGTH else if bytes[0] !in {2, 3} then BAD_PREFIX else NOT_ON_CURVE
  {
    if |bytes| == 33 && bytes[0] in {2, 3} {
      hide IsOdd;
      var x := Mod(FromBytes(bytes[1..]), ec.p);
      assert RootOf(ec.p, sqrt, YSquared(ec.p, ec.beta, x));
      if sqrt(YSquared(ec.p, ec.beta, x)).Some? {
        RootLifts(ec, x, sqrt(YSquared(ec.p, ec.beta, x)).value);
      }
    }
  }

  lemma RootLifts<P(!new)>(ec: Curve<P>, x: nat, y: nat)
    requires Lawful(ec) && x < ec.p && y < ec.p && Mod(y * y, ec.p) == Mod(YSquared(ec.p, ec.beta, x), ec.p)
    ensures ec.lift(Affine(x, y)).Some? && ec.lift(Affine(x, FieldNeg(ec.p, y))).Some?
  {
    ModOnce(YSquared(ec.p, ec.beta, x), ec.p);
    assert Lifts(ec, Affine(x, y));
    var q := ec.lift(Affine(x, y)).value;
    assert Coordinates(ec, q) && Coordinates(ec, ec.neg(q));
  }
}

/** Big-endian byte encodings of naturals. */
module Bytes {
  import opened Numbers

  type byte = x: nat | x < 256

  /** The `len` low bytes of `v`, most significant first. */
  function ToBytes(v: nat, len: nat): (bytes: seq<byte>)
    ensures |bytes| == len
  {
    if len == 0 then [] else ToBytes(v / 256, len - 1) + [v % 256]
  }

  function FromBytes(bytes: seq<byte>): nat {
    if bytes == [] then 0 else 256 * FromBytes(bytes[..|bytes| - 1]) + bytes[|bytes| - 1]
  }

  /** Encoding a number that fits and decoding it gives the number back. */
  lemma {:induction false} NumberRoundTrip(v: nat, len: nat)
    requires v < Pow2(8 * len)
    ensures FromBytes(ToBytes(v, len)) == v
  {
    if len > 0 {
      Pow2Add(8, 8 * (len - 1));
      assert Pow2(8) == 256;
      var bytes := ToBytes(v / 256, len - 1);
      assert (bytes + [v % 256])[..len - 1] == bytes;
      NumberRoundTrip(v / 256, len - 1);
    }
  }

  /** Decoding bytes and encoding the value at the same length gives the
      bytes back; the value fits that length. */
  lemma {:induction false} BytesRoundTrip(bytes: seq<byte>)
    ensures FromBytes(bytes) < Pow2(8 * |bytes|)
    ensures ToBytes(FromBytes(bytes), |bytes|) == bytes
  {
    if bytes != [] {
      var init, last := bytes[..|bytes| - 1], bytes[|bytes| - 1];
      BytesRoundTrip(init);
      Pow2Add(8, 8 * |init|);
      assert Pow2(8) == 256;
      assert bytes == init + [last];
      DivModUnique(FromBytes(bytes), FromBytes(init), last, 256);
    }
  }

  /** A 32-byte value survives its encoding. */
  lemma FeltRoundTrip(v: nat, len: nat)
    requires len == 32 && v < TWO_256
    ensures FromBytes(ToBytes(v, len)) == v
  {
    Pow2Is256(8 * len);
    NumberRoundTrip(v, len);
  }

  /** The byte `m` places from the end is the m-th base-256 digit. */
  lemma {:induction false} ByteAt(v: nat, len: nat, m: nat)
    requires m < len
    ensures ToBytes(v, len)[len - 1 - m] == (v / Pow2(8 * m)) % 256
  {
    if m > 0 {
      ByteAt(v / 256, len - 1, m - 1);
      Pow2Add(8, 8 * (m - 1));
      assert Pow2(8) == 256;
      DivDiv(v, 256, Pow2(8 * (m - 1)));
    }
  }

  /** Dropping low bits in two goes. */
  lemma DropBits(v: nat, k: nat, i: nat)
    ensures v / Pow2(k + i) == (v / Pow2(k)) / Pow2(i)
  {
    Pow2Add(k, i);
    DivDiv(v, Pow2(k), Pow2(i));
  }

  /** The bits of the low byte are the low bits. */
  lemma LowByteBit(t: nat, i: nat)
    requires i < 8
    ensures ((t % 256) / Pow2(i)) % 2 == (t / Pow2(i)) % 2
  {
    var q, r := t / 256, t % 256;
    var w, half := Pow2(i), Pow2(7 - i);
    Pow2Add(7 - i, i + 1);
    assert Pow2(8) == 256;
    Regroup(q, half, w);
    HighPartIsEven(t, r, q * half, w);
  }

  lemma Regroup(q: nat, half: nat, w: nat)
    ensures q * (half * (2 * w)) == (q * half * 2) * w
  {
  }

  lemma HighPartIsEven(t: nat, r: nat, c: nat, w: nat)
    requires 0 < w && t == (c * 2) * w + r
    ensures (r / w) % 2 == (t / w) % 2
  {
    var a, b := r / w, r % w;
    assert r == a * w + b;
    assert (c * 2 + a) * w == (c * 2) * w + a * w;
    DivModUnique(t, c * 2 + a, b, w);
    RemShift(a, c, 2);
  }

  /** One more bit of a number. */
  lemma LowBits(v: nat, k: nat)
    ensures v % Pow2(k + 1) == v % Pow2(k) + ((v / Pow2(k)) % 2) * Pow2(k)
  {
    var q, r := v / Pow2(k), v % Pow2(k);
    assert v == q * Pow2(k) + r;
    var a, b := q / 2, q % 2;
    assert q * Pow2(k) == a * Pow2(k + 1) + b * Pow2(k) by {
      assert q == a * 2 + b;
      MulSplit(a, 2, b, Pow2(k));
      assert (a * Pow2(k)) * 2 == a * (2 * Pow2(k));
    }
    DivModUnique(v, a, r + b * Pow2(k), Pow2(k + 1));
  }
}

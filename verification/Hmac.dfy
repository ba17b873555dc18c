/** HMAC and HKDF-Expand over an uninterpreted hash. */
module Hmac {
  import opened Outcomes

  type Octets = seq<bv8>

  /** A hash function: block and output size in bytes, and the digest. */
  datatype Hash = Hash(block: nat, size: nat, digest: Octets -> Octets)

  ghost predicate Sized(hash: Hash) {
    forall m :: |hash.digest(m)| == hash.size
  }

  const MAX_HMAC_BLOCK := 128
  const IPAD: bv8 := 0x36
  const OPAD: bv8 := 0x5c
  const BAD_HMAC: KmsError := CryptoError("HMAC key must fit one block and the output its digest")
  const TOO_LONG: KmsError := CryptoError("HKDF-SHA256 output is limited to 8160 bytes")

  /** The counter octet of HKDF. */
  function Octet(i: nat): bv8 {
    (i % 256) as bv8
  }

  // ----- the definitions of the standards

  function Xor(s: Octets, mask: bv8): (r: Octets)
    ensures |r| == |s|
    ensures forall i :: 0 <= i < |s| ==> r[i] == s[i] ^ mask
  {
    seq(|s|, i requires 0 <= i < |s| => s[i] ^ mask)
  }

  /** The key padded with zeros to one block. */
  function Padded(key: Octets, block: nat): (r: Octets)
    requires |key| <= block
    ensures |r| == block
  {
    key + seq(block - |key|, i => 0)
  }

  /** Section 2 of RFC 2104: H(K xor opad, H(K xor ipad, text)). */
  function Spec(hash: Hash, key: Octets, text: Octets): Octets
    requires |key| <= hash.block
  {
    var k := Padded(key, hash.block);
    hash.digest(Xor(k, 0x5c) + hash.digest(Xor(k, 0x36) + text))
  }

  function Concat(parts: seq<Octets>): Octets {
    if parts == [] then [] else Concat(parts[..|parts| - 1]) + parts[|parts| - 1]
  }

  /** Section 2.3 of RFC 5869: T(0) is empty, T(i) = HMAC(PRK, T(i-1) | info | i). */
  function T(hash: Hash, prk: Octets, info: Octets, i: nat): Octets
    requires |prk| <= hash.block
  {
    if i == 0 then [] else Spec(hash, prk, T(hash, prk, info, i - 1) + info + [(i % 256) as bv8])
  }

  /** T(1) | T(2) | ... | T(n). */
  function Stream(hash: Hash, prk: Octets, info: Octets, n: nat): Octets
    requires |prk| <= hash.block
  {
    if n == 0 then [] else Stream(hash, prk, info, n - 1) + T(hash, prk, info, n)
  }

  lemma BlockLength(hash: Hash, prk: Octets, info: Octets, i: nat)
    requires Sized(hash) && |prk| <= hash.block && i > 0
    ensures |T(hash, prk, info, i)| == hash.size
  {
  }

  lemma {:induction false} StreamLength(hash: Hash, prk: Octets, info: Octets, n: nat)
    requires Sized(hash) && |prk| <= hash.block && hash.size == 32
    ensures |Stream(hash, prk, info, n)| == 32 * n
  {
    hide T;
    if n > 0 {
      StreamLength(hash, prk, info, n - 1);
      BlockLength(hash, prk, info, n);
    }
  }

  /** More blocks only extend the stream. */
  lemma {:induction false} StreamPrefix(hash: Hash, prk: Octets, info: Octets, m: nat, n: nat)
    requires |prk| <= hash.block && m <= n
    ensures Stream(hash, prk, info, m) <= Stream(hash, prk, info, n)
  {
    hide T;
    if m < n {
      StreamPrefix(hash, prk, info, m, n - 1);
    }
  }

  /** The first bytes of the stream do not depend on how many blocks it has. */
  lemma FirstBytes(hash: Hash, prk: Octets, info: Octets, m: nat, n: nat, length: nat)
    requires Sized(hash) && |prk| <= hash.block && hash.size == 32
    requires length <= 32 * m && length <= 32 * n
    ensures length <= |Stream(hash, prk, info, m)| && Stream(hash, prk, info, m)[..length] <= Stream(hash, prk, info, n)
  {
    StreamLength(hash, prk, info, m);
    StreamLength(hash, prk, info, n);
    if m <= n {
      StreamPrefix(hash, prk, info, m, n);
    } else {
      StreamPrefix(hash, prk, info, n, m);
    }
  }

  // ----- the implementation

  /** `hmac`: one pad buffer, XORed in place twice. */
  method Compute(hash: Hash, outputSize: nat, key: Octets, message: seq<Octets>) returns (r: Result<Octets>)
    requires Sized(hash)
    ensures r == if |key| > hash.block || hash.block > 128 || outputSize != hash.size then Err(BAD_HMAC)
                 else Ok(Spec(hash, key, Concat(message)))
  {
    if |key| > hash.block || hash.block > MAX_HMAC_BLOCK || outputSize != hash.size {
      return Err(BAD_HMAC);
    }
    ghost var padded := Padded(key, hash.block);
    var pad := new bv8[MAX_HMAC_BLOCK](i => 0);
    forall i | 0 <= i < |key| {
      pad[i] := key[i];
    }
    assert pad[..hash.block] == padded;
    XorInPlace(pad, hash.block, IPAD);
    ghost var inner := Xor(padded, IPAD);
    var absorbed := pad[..hash.block];
    for i := 0 to |message|
      invariant pad[..hash.block] == inner
      invariant absorbed == inner + Concat(message[..i])
    {
      assert message[..i + 1][..i] == message[..i];
      absorbed := absorbed + message[i];
    }
    assert message[..|message|] == message;
    var innerHash := hash.digest(absorbed);
    XorInPlace(pad, hash.block, IPAD ^ OPAD);
    ReXor(padded);
    var output := hash.digest(pad[..hash.block] + innerHash);
    assert output == Spec(hash, key, Concat(message)) && output[..outputSize] == output;
    r := Ok(output[..outputSize]);
  }

  method XorInPlace(pad: array<bv8>, block: nat, mask: bv8)
    requires block <= pad.Length
    modifies pad
    ensures pad[..block] == Xor(old(pad[..block]), mask)
    ensures pad[block..] == old(pad[block..])
  {
    for i := 0 to block
      invariant forall j :: 0 <= j < i ==> pad[j] == old(pad[j]) ^ mask
      invariant forall j :: i <= j < pad.Length ==> pad[j] == old(pad[j])
    {
      pad[i] := pad[i] ^ mask;
    }
  }

  /** Undoing the inner mask while applying the outer one. */
  lemma ReXor(s: Octets)
    ensures Xor(Xor(s, IPAD), IPAD ^ OPAD) == Xor(s, OPAD)
  {
    forall i | 0 <= i < |s| ensures (s[i] ^ IPAD) ^ (IPAD ^ OPAD) == s[i] ^ OPAD {
      ReXorOctet(s[i]);
    }
  }

  lemma ReXorOctet(b: bv8)
    ensures (b ^ IPAD) ^ (IPAD ^ OPAD) == b ^ OPAD
  {
  }

  /** `hkdf_sha256_expand`: chunk by chunk; the result is the first `length`
      bytes of T(1) | T(2) | ..., however many blocks are taken. */
  method Expand(hash: Hash, prk: Octets, info: Octets, length: nat) returns (r: Result<Octets>)
    requires Sized(hash) && hash.size == 32 && hash.block == 64
    requires |prk| == 32
    ensures r.Err? <==> length > 255 * 32
    ensures r.Err? ==> r.error == TOO_LONG
    ensures r.Ok? ==> |r.value| == length && forall n :: length <= 32 * n ==> r.value <= Stream(hash, prk, info, n)
  {
    hide T, Octet;
    if length > 255 * 32 {
      return Err(TOO_LONG);
    }
    var okm := new bv8[length](i => 0);
    var previous: Octets := seq(32, i => 0);
    var counter, done := 1, 0;
    while done < length
      invariant 1 <= counter && done <= length
      invariant done == if length <= 32 * (counter - 1) then length else 32 * (counter - 1)
      invariant okm[..done] <= Stream(hash, prk, info, counter - 1)
      invariant counter > 1 ==> previous == T(hash, prk, info, counter - 1)
    {
      var block := NextBlock(hash, prk, info, counter, previous);
      BlockLength(hash, prk, info, counter);
      var take := if length - done < 32 then length - done else 32;
      ghost var before := okm[..done];
      CopyChunk(okm, done, take, block);
      ExtendStream(hash, prk, info, counter, before, block, take);
      previous := block;
      counter, done := counter + 1, done + take;
    }
    assert okm[..] == okm[..done];
    forall n | length <= 32 * n ensures okm[..] <= Stream(hash, prk, info, n) {
      FirstBytes(hash, prk, info, counter - 1, n, length);
    }
    r := Ok(okm[..]);
  }

  /** `chunk.copy_from_slice(&block[..chunk.len()])` */
  method CopyChunk(okm: array<bv8>, done: nat, take: nat, block: Octets)
    requires done + take <= okm.Length && take <= |block|
    modifies okm
    ensures okm[..done + take] == old(okm[..done]) + block[..take]
  {
    forall i | 0 <= i < take {
      okm[done + i] := block[i];
    }
  }

  lemma ExtendStream(hash: Hash, prk: Octets, info: Octets, counter: nat, before: Octets, block: Octets, take: nat)
    requires Sized(hash) && |prk| <= hash.block && hash.size == 32 && counter > 0
    requires block == T(hash, prk, info, counter) && take <= |block|
    requires before <= Stream(hash, prk, info, counter - 1) && |before| == 32 * (counter - 1)
    ensures before + block[..take] <= Stream(hash, prk, info, counter)
  {
    hide T;
    StreamLength(hash, prk, info, counter - 1);
    assert before == Stream(hash, prk, info, counter - 1);
  }

  /** One round of the expansion. */
  method NextBlock(hash: Hash, prk: Octets, info: Octets, counter: nat, previous: Octets) returns (block: Octets)
    requires Sized(hash) && hash.size == 32 && hash.block == 64 && |prk| == 32 && counter > 0
    requires counter > 1 ==> previous == T(hash, prk, info, counter - 1)
    ensures block == T(hash, prk, info, counter)
  {
    var chained := if counter == 1 then [] else previous;
    ConcatThree(chained, info, [Octet(counter)]);
    var hashed := Compute(hash, 32, prk, [chained, info, [Octet(counter)]]);
    block := hashed.value;
  }

  lemma ConcatThree(a: Octets, b: Octets, c: Octets)
    ensures Concat([a, b, c]) == a + b + c
  {
    assert [a, b, c][..2] == [a, b] && [a, b][..1] == [a] && [a][..0] == [];
    assert Concat([a]) == a;
    assert Concat([a, b]) == a + b;
  }
}

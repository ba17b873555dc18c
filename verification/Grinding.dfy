/** Key grinding: a private key below the curve order by rejection. */
module Grinding {
  import opened Numbers
  import opened Outcomes
  import opened Bytes

  const STARK_ORDER: Pos := 0x0800000000000010ffffffffffffffffb781126dcae7b2321e66a241adc64d2f
  const STARK_PRIME: Pos := 0x0800000000000011000000000000000000000000000000000000000000000001

  /** The rejection bound, as computed in 256 bits. */
  const GRIND_LIMIT: nat := (TWO_256 - 1) - (TWO_256 - 1) % STARK_ORDER

  const EXHAUSTED: KmsError := CryptoError("Failed to grind key after 256 iterations")

  /** How often the order fits below 2^256. */
  const COPIES: nat := 31

  /** The real curve's constants: every u128 balance and every range-proof
      value is below the order, and the order below the field prime. */
  lemma StarkConstants(size: nat)
    requires size <= 128
    ensures Pow2(size) <= TWO_128 < STARK_ORDER < STARK_PRIME < TWO_256
  {
    Pow2Mono(size, 128);
    Pow2Is128(size + (128 - size));
  }

  /** The bound is 2^256 - (2^256 mod n), and a multiple of n. */
  lemma GrindLimit()
    ensures GRIND_LIMIT == TWO_256 - TWO_256 % STARK_ORDER
    ensures GRIND_LIMIT == COPIES * STARK_ORDER
  {
    var rest := TWO_256 - COPIES * STARK_ORDER;
    DivModUnique(TWO_256, COPIES, rest, STARK_ORDER);
    DivModUnique(TWO_256 - 1, COPIES, rest - 1, STARK_ORDER);
  }

  /** Below q*n every residue has exactly q preimages. */
  lemma {:induction false} Preimages(n: Pos, q: nat, k: nat)
    requires k < n
    ensures |set v: nat | v < q * n && v % n == k| == q
  {
    var all := set v: nat | v < q * n && v % n == k;
    if q == 0 {
      assert all == {};
    } else {
      var rest := set v: nat | v < (q - 1) * n && v % n == k;
      var last := (q - 1) * n + k;
      Preimages(n, q - 1, k);
      assert (q - 1) * n + n == q * n;
      DivModUnique(last, q - 1, k, n);
      forall v: nat | v in all && v !in rest ensures v == last {
        LastWindow(n, (q - 1) * n, q - 1, v, k);
      }
      assert all == rest + {last};
    }
  }

  lemma LastWindow(n: Pos, low: nat, q: nat, v: nat, k: nat)
    requires low == q * n && low <= v < low + n && v % n == k
    ensures v == low + k
  {
    DivModUnique(v, q, v - low, n);
  }

  /** Counter i gives key k: the digest of the seed followed by the counter is
      below the limit, and k is its nonzero residue. */
  predicate Grinds(sha: seq<byte> -> seq<byte>, seed: seq<byte>, i: nat, k: nat)
    requires i < 256
  {
    var v := FromBytes(sha(seed + [i]));
    v < GRIND_LIMIT && k == v % STARK_ORDER && k != 0
  }

  /** Grinding is unbiased: each of the keys 1..n-1 comes from equally many of
      the 2^256 digests, and no digest gives another key. */
  lemma Unbiased(k: nat)
    requires k < STARK_ORDER
    ensures |set v: nat | v < TWO_256 && v < GRIND_LIMIT && v % STARK_ORDER != 0 && v % STARK_ORDER == k|
         == if k == 0 then 0 else COPIES
  {
    GrindLimit();
    var keys := set v: nat | v < TWO_256 && v < GRIND_LIMIT && v % STARK_ORDER != 0 && v % STARK_ORDER == k;
    if k == 0 {
      assert keys == {};
    } else {
      Preimages(STARK_ORDER, COPIES, k);
      assert keys == set v: nat | v < COPIES * STARK_ORDER && v % STARK_ORDER == k;
    }
  }

  /** `grind_key`: the key of the least accepted counter, in 1..n-1, and an
      error exactly when all 256 counters are rejected. */
  method GrindKey(sha: seq<byte> -> seq<byte>, seed: seq<byte>) returns (r: Result<nat>)
    ensures r.Ok? ==> 1 <= r.value < STARK_ORDER
    ensures r.Ok? ==> exists i: nat :: i < 256 && Grinds(sha, seed, i, r.value)
                        && forall j: nat, k :: j < i ==> !Grinds(sha, seed, j, k)
    ensures r.Err? ==> r.error == EXHAUSTED && forall i: nat, k :: i < 256 ==> !Grinds(sha, seed, i, k)
  {
    for i: nat := 0 to 256
      invariant forall j: nat, k :: j < i ==> !Grinds(sha, seed, j, k)
    {
      var candidate := FromBytes(sha(seed + [i]));
      if candidate < GRIND_LIMIT {
        var k := candidate % STARK_ORDER;
        if k != 0 {
          assert Grinds(sha, seed, i, k);
          return Ok(k);
        }
      }
    }
    r := Err(EXHAUSTED);
  }
}

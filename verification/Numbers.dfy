/** Integer facts the protocols rest on: division with remainder, inverses
    modulo a prime, and powers of two. */
module Numbers {

  type Pos = x: nat | 0 < x witness 1

  ghost predicate IsPrime(n: nat) {
    2 <= n && forall m {:trigger n % m} :: 2 <= m < n ==> n % m != 0
  }

  lemma MulAtLeast(x: int, n: nat)
    requires x >= 1
    ensures x * n >= n
  {
    assert x * n == (x - 1) * n + n;
  }

  lemma QuotientAtMost(q: int, r: int, q': int, r': int, n: nat)
    requires 0 <= r < n && 0 <= r' < n
    requires q * n + r == q' * n + r'
    ensures q <= q'
  {
    if q' < q {
      var x := q - q';
      assert x * n == q * n - q' * n;
      MulAtLeast(x, n);
    }
  }

  /** Quotient and remainder are unique. */
  lemma DivModUnique(a: int, q: int, r: int, n: nat)
    requires 0 <= r < n && a == q * n + r
    ensures a / n == q && a % n == r
  {
    var q', r' := a / n, a % n;
    assert a == q' * n + r';
    QuotientAtMost(q, r, q', r', n);
    QuotientAtMost(q', r', q, r, n);
  }

  /** Adding a multiple of `n` does not change the residue. */
  lemma RemShift(a: int, k: int, n: nat)
    requires 0 < n
    ensures (a + k * n) % n == a % n
  {
    assert a == (a / n) * n + a % n;
    DivModUnique(a + k * n, a / n + k, a % n, n);
  }

  lemma RemSmall(a: nat, n: nat)
    requires a < n
    ensures a % n == a && a / n == 0
  {
    DivModUnique(a, 0, a, n);
  }

  lemma MulShift(q: int, r: int, b: int, n: nat)
    requires 0 < n
    ensures ((q * n + r) * b) % n == (r * b) % n
  {
    MulSplit(q, n, r, b);
    RemShift(r * b, q * b, n);
  }

  /** A factor may be reduced first. */
  lemma RemMulLeft(a: int, b: int, n: nat)
    requires 0 < n
    ensures ((a % n) * b) % n == (a * b) % n
  {
    var q, r := a / n, a % n;
    assert a == q * n + r;
    MulShift(q, r, b, n);
  }

  lemma MulSplit(q: int, n: int, r: int, b: int)
    ensures (q * n + r) * b == r * b + (q * b) * n
  {
    assert (q * n) * b == (q * b) * n;
  }

  // ----- residues

  /** a modulo n, by repeated subtraction.  The group lemmas follow this
      recursion, so residues of the group order and of the field are written
      with Mod; `%` stays where the code works on bits, bytes and times. */
  function Mod(a: nat, n: Pos): (r: nat)
    ensures r < n
  {
    if a < n then a else Mod(a - n, n)
  }

  lemma {:induction false} ModIsRemainder(a: nat, n: Pos)
    ensures Mod(a, n) == a % n
  {
    if a < n {
      RemSmall(a, n);
    } else {
      ModIsRemainder(a - n, n);
      RemShift(a - n, 1, n);
    }
  }

  lemma ModOnce(a: nat, n: Pos)
    requires a < 2 * n
    ensures Mod(a, n) == if a < n then a else a - n
  {
    if a >= n {
      assert Mod(a - n, n) == a - n;
    }
  }

  /** Residues add. */
  lemma {:induction false} ModAddLeft(a: nat, b: nat, n: Pos)
    ensures Mod(Mod(a, n) + b, n) == Mod(a + b, n)
  {
    if a >= n {
      ModAddLeft(a - n, b, n);
    }
  }

  lemma ModAdd(a: nat, b: nat, n: Pos)
    ensures Mod(Mod(a, n) + Mod(b, n), n) == Mod(a + b, n)
  {
    ModAddLeft(a, Mod(b, n), n);
    ModAddLeft(b, a, n);
  }

  /** Residues multiply. */
  lemma ModMulLeft(a: nat, b: nat, n: Pos)
    ensures Mod(Mod(a, n) * b, n) == Mod(a * b, n)
  {
    ModIsRemainder(a, n);
    ModIsRemainder(Mod(a, n) * b, n);
    ModIsRemainder(a * b, n);
    RemMulLeft(a, b, n);
  }

  lemma ModMul(a: nat, b: nat, n: Pos)
    ensures Mod(Mod(a, n) * Mod(b, n), n) == Mod(a * b, n)
  {
    ModMulLeft(a, Mod(b, n), n);
    ModMulLeft(b, a, n);
    MulComm(a, Mod(b, n));
    MulComm(a, b);
  }

  lemma MulComm(a: int, b: int)
    ensures a * b == b * a
  {
  }

  /** Inverse modulo a prime: with n = q*d + r, d * (-q) is congruent to r,
      so an inverse of r (nonzero, since n is prime) gives one of d. */
  function ModInverse(d: nat, n: Pos): (e: nat)
    requires 0 < d < n
    requires d == 1 || n % d != 0
    requires forall m {:trigger n % m} :: 2 <= m < n ==> n % m != 0
    ensures e < n && Mod(d * e, n) == 1
    decreases d
  {
    if d == 1 then 1
    else
      var f := ModInverse(n % d, n);
      InverseStep(d, n / d, n % d, f, n);
      InverseFrom(n / d, f, n)
  }

  function InverseFrom(q: int, f: int, n: Pos): (e: nat)
    ensures e < n
  {
    (-q * f) % n
  }

  lemma InverseStep(d: nat, q: int, r: nat, f: nat, n: Pos)
    requires 0 < d < n && n == q * d + r && Mod(r * f, n) == 1
    ensures Mod(d * InverseFrom(q, f, n), n) == 1
  {
    InverseProduct(d, q, r, f);
    ModIsRemainder(r * f, n);
    InverseShift(-q * f, d, r * f, -(f as int), n);
    ModIsRemainder(d * InverseFrom(q, f, n), n);
  }

  lemma InverseShift(e: int, d: int, w: int, k: int, n: nat)
    requires 0 < n && e * d == w + k * n && w % n == 1
    ensures (d * (e % n)) % n == 1
  {
    RemMulLeft(e, d, n);
    RemShift(w, k, n);
    MulComm(e % n, d);
  }

  lemma InverseProduct(d: int, q: int, r: int, f: int)
    ensures (-q * f) * d == r * f + (-f) * (q * d + r)
  {
    assert (-f) * (q * d + r) == -(f * (q * d)) - f * r;
    assert (-q * f) * d == -(f * (q * d));
  }

  /** Euclid's lemma: a prime dividing a product divides a factor. */
  lemma PrimeDividesProduct(a: nat, b: nat, n: Pos)
    requires IsPrime(n) && Mod(a * b, n) == 0
    ensures Mod(a, n) == 0 || Mod(b, n) == 0
  {
    var d := Mod(a, n);
    if d != 0 {
      ModMulLeft(a, b, n);
      CancelFactor(d, b, ModInverse(d, n), n);
    }
  }

  lemma CancelFactor(d: nat, b: nat, e: nat, n: Pos)
    requires Mod(d * e, n) == 1 && Mod(d * b, n) == 0
    ensures Mod(b, n) == 0
  {
    var x, y := d * b, d * e;
    MulSwap(d, b, e);
    ModMulLeft(x, e, n);
    ModMulLeft(y, b, n);
    assert 0 * e == 0 && 1 * b == b;
  }

  lemma MulSwap(d: int, b: int, e: int)
    ensures (d * b) * e == (d * e) * b
  {
  }

  function Pow2(k: nat): (r: nat)
    ensures r > 0
  {
    if k == 0 then 1 else 2 * Pow2(k - 1)
  }

  lemma {:induction false} Pow2Add(i: nat, j: nat)
    ensures Pow2(i + j) == Pow2(i) * Pow2(j)
  {
    if i > 0 {
      Pow2Add(i - 1, j);
    }
  }

  lemma {:induction false} Pow2Mono(i: nat, j: nat)
    requires i <= j
    ensures Pow2(i) <= Pow2(j)
  {
    if i < j {
      Pow2Mono(i, j - 1);
    }
  }

  /** 2^256, one more than the largest value of 32 bytes. */
  const TWO_256: nat := 0x1_0000000000000000_0000000000000000_0000000000000000_0000000000000000

  lemma Pow2Is256(k: nat)
    requires k == 256
    ensures Pow2(k) == TWO_256
  {
    Pow2Is128(k / 2);
    Pow2Double(k / 2, TWO_128);
  }

  const TWO_128: nat := 0x1_0000000000000000_0000000000000000

  lemma Pow2Is128(k: nat)
    requires k == 128
    ensures Pow2(k) == TWO_128
  {
    assert Pow2(8) == 0x100;
    Pow2Double(k / 16, 0x100);
    Pow2Double(k / 8, 0x1_0000);
    Pow2Double(k / 4, 0x1_0000_0000);
    Pow2Double(k / 2, 0x1_0000_0000_0000_0000);
  }

  lemma Pow2Double(k: nat, v: nat)
    requires Pow2(k) == v
    ensures Pow2(2 * k) == v * v
  {
    Pow2Add(k, k);
  }

  /** Dividing by a product is dividing twice. */
  lemma DivDiv(a: nat, m: nat, k: nat)
    requires 0 < m && 0 < k
    ensures 0 < m * k && a / (m * k) == (a / m) / k
  {
    var q, r := a / m, a % m;
    var s, t := q / k, q % k;
    MulAtLeast(m, k);
    assert a == s * (m * k) + (t * m + r) by {
      assert a == q * m + r;
      MulSplit(s, k, t, m);
      assert s * (m * k) == (s * m) * k;
    }
    assert 0 <= t * m + r < m * k by {
      MulAtLeast(k - t, m);
      assert (k - t) * m == m * k - t * m;
      assert t * m >= 0;
    }
    DivModUnique(a, s, t * m + r, m * k);
  }
}

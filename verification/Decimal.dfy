/** Decimal digit strings and their values. */
module Decimal {
  import opened Numbers

  predicate IsDigit(c: char) {
    '0' <= c <= '9'
  }

  predicate Digits(s: string) {
    forall i :: 0 <= i < |s| ==> IsDigit(s[i])
  }

  function Pow10(k: nat): (r: nat)
    ensures r > 0
  {
    if k == 0 then 1 else 10 * Pow10(k - 1)
  }

  function Digit(d: nat): (c: char)
    requires d < 10
    ensures IsDigit(c) && c as int - '0' as int == d
  {
    '0' + d as char
  }

  /** The number a digit string denotes. */
  function Value(s: string): nat
    requires Digits(s)
  {
    if s == [] then 0 else 10 * Value(s[..|s| - 1]) + (s[|s| - 1] as int - '0' as int)
  }

  /** Decimal digits of n, without leading zeros. */
  function Print(n: nat): (s: string)
    ensures s != [] && Digits(s)
  {
    if n < 10 then [Digit(n)] else Print(n / 10) + [Digit(n % 10)]
  }

  function Zeros(k: nat): (s: string)
    ensures |s| == k && Digits(s) && forall i :: 0 <= i < k ==> s[i] == '0'
  {
    seq(k, i => '0')
  }

  function PadRight(s: string, width: nat): string {
    if |s| < width then s + Zeros(width - |s|) else s
  }

  function PadLeft(s: string, width: nat): string {
    if |s| < width then Zeros(width - |s|) + s else s
  }

  /** `trim_end_matches('0')` */
  function TrimZeros(s: string): string {
    if s != [] && s[|s| - 1] == '0' then TrimZeros(s[..|s| - 1]) else s
  }

  lemma {:induction false} PrintValue(n: nat)
    ensures Value(Print(n)) == n
  {
    if n >= 10 {
      PrintValue(n / 10);
      assert Print(n)[..|Print(n)| - 1] == Print(n / 10);
    }
  }

  lemma {:induction false} Pow10Add(i: nat, j: nat)
    ensures Pow10(i + j) == Pow10(i) * Pow10(j)
  {
    if i > 0 {
      Pow10Add(i - 1, j);
    }
  }

  lemma {:induction false} Pow10Mono(i: nat, j: nat)
    requires i <= j
    ensures Pow10(i) <= Pow10(j)
  {
    if i < j {
      Pow10Mono(i, j - 1);
    }
  }

  /** The largest power of ten below 2^128. */
  lemma Pow10Is38(k: nat)
    requires k == 38
    ensures Pow10(k) < TWO_128 <= Pow10(k + 1)
  {
    assert Pow10(8) == 1_0000_0000;
    assert k / 2 == 19 && k / 4 == 9;
    assert Pow10(k / 4) == 10 * Pow10(k / 4 - 1);
    Pow10Add(k / 4, k / 4);
    assert Pow10(k / 2) == 10 * Pow10(k / 2 - 1);
    Pow10Add(k / 2, k / 2);
    assert Pow10(k + 1) == 10 * Pow10(k);
  }

  /** Appending digits shifts and adds. */
  lemma {:induction false} ValueConcat(a: string, b: string)
    requires Digits(a) && Digits(b)
    ensures Digits(a + b) && Value(a + b) == Value(a) * Pow10(|b|) + Value(b)
  {
    if b == [] {
      assert a + b == a;
    } else {
      var init, last := b[..|b| - 1], b[|b| - 1] as int - '0' as int;
      ValueConcat(a, init);
      assert (a + b)[..|a + b| - 1] == a + init;
      Shift(Value(a), Pow10(|init|), Value(init));
    }
  }

  lemma Shift(a: nat, w: nat, v: nat)
    ensures 10 * (a * w + v) == a * (10 * w) + 10 * v
  {
  }

  lemma {:induction false} ValueZeros(k: nat)
    ensures Value(Zeros(k)) == 0
  {
    if k > 0 {
      assert Zeros(k)[..k - 1] == Zeros(k - 1);
      ValueZeros(k - 1);
    }
  }

  /** Padding on the right scales, on the left changes nothing. */
  lemma PadRightValue(s: string, width: nat)
    requires Digits(s) && |s| <= width
    ensures var p := PadRight(s, width);
            Digits(p) && |p| == width && Value(p) == Value(s) * Pow10(width - |s|)
  {
    ValueConcat(s, Zeros(width - |s|));
    ValueZeros(width - |s|);
    assert s + Zeros(width - |s|) == PadRight(s, width);
  }

  lemma PadLeftValue(s: string, width: nat)
    requires Digits(s) && |s| <= width
    ensures var p := PadLeft(s, width);
            Digits(p) && |p| == width && Value(p) == Value(s)
  {
    ValueConcat(Zeros(width - |s|), s);
    ValueZeros(width - |s|);
    assert 0 * Pow10(|s|) == 0;
    assert Zeros(width - |s|) + s == PadLeft(s, width);
  }

  /** A number below 10^k has at most k digits. */
  lemma {:induction false} PrintLength(n: nat, k: nat)
    requires n < Pow10(k) && k > 0
    ensures |Print(n)| <= k
  {
    if n >= 10 {
      PrintLength(n / 10, k - 1);
    }
  }

  lemma {:induction false} ValueBound(s: string)
    requires Digits(s)
    ensures Value(s) < Pow10(|s|)
  {
    if s != [] {
      ValueBound(s[..|s| - 1]);
    }
  }

  /** Trimming trailing zeros and padding back is the identity. */
  lemma {:induction false} TrimThenPad(s: string)
    requires Digits(s)
    ensures Digits(TrimZeros(s)) && |TrimZeros(s)| <= |s| && PadRight(TrimZeros(s), |s|) == s
  {
    if s != [] && s[|s| - 1] == '0' {
      var init := s[..|s| - 1];
      TrimThenPad(init);
      var t := TrimZeros(init);
      assert s == init + "0";
      assert t + Zeros(|init| - |t|) == init;
      assert t + Zeros(|s| - |t|) == s;
    }
  }

  /** Only a zero trims to nothing. */
  lemma {:induction false} TrimNonzero(s: string)
    requires Digits(s) && Value(s) != 0
    ensures TrimZeros(s) != []
  {
    if s[|s| - 1] == '0' {
      TrimNonzero(s[..|s| - 1]);
    }
  }

  /** What is left does not end in a zero. */
  lemma {:induction false} TrimmedEnd(s: string)
    ensures TrimZeros(s) != [] ==> TrimZeros(s)[|TrimZeros(s)| - 1] != '0'
  {
    if s != [] && s[|s| - 1] == '0' {
      TrimmedEnd(s[..|s| - 1]);
    }
  }

  /** No leading zero, except for zero itself. */
  lemma {:induction false} PrintedStart(n: nat)
    ensures Print(n)[0] == '0' <==> n == 0
  {
    if n >= 10 {
      PrintedStart(n / 10);
    }
  }
}

/** Token amounts as decimal strings. */
module Amount {
  import opened Numbers
  import opened Outcomes
  import opened Decimal

  /** A raw (smallest-unit) u128 value and its number of decimals. */
  datatype Amount = Amount(raw: nat, decimals: nat)

  const TOO_LARGE: KmsError := InvalidAmount("decimals too large")
  const TOO_MANY_PLACES: KmsError := InvalidAmount("too many decimal places")
  const BAD_NUMBER: KmsError := InvalidAmount("invalid number")
  const BAD_FRACTION: KmsError := InvalidAmount("invalid fraction")
  const OVERFLOW: KmsError := InvalidAmount("overflow")

  /** `char::is_whitespace` */
  predicate IsSpace(c: char) {
    var v := c as int;
    0x9 <= v <= 0xD || v == 0x20 || v == 0x85 || v == 0xA0 || v == 0x1680 || 0x2000 <= v <= 0x200A
    || v == 0x2028 || v == 0x2029 || v == 0x202F || v == 0x205F || v == 0x3000
  }

  function Trim(s: string): string {
    if s == [] then s
    else if IsSpace(s[0]) then Trim(s[1..])
    else if IsSpace(s[|s| - 1]) then Trim(s[..|s| - 1])
    else s
  }

  /** Index of the first '.', or the length. */
  function FindDot(s: string): (i: nat)
    ensures i <= |s| && (i < |s| ==> s[i] == '.')
    ensures forall j :: 0 <= j < i ==> s[j] != '.'
  {
    if s == [] || s[0] == '.' then 0 else 1 + FindDot(s[1..])
  }

  function Unsigned(s: string): string {
    if s != [] && s[0] == '+' then s[1..] else s
  }

  /** `str::parse::<u128>`: an optional '+', at least one digit, no overflow. */
  function ParseU128(s: string): Option<nat> {
    var t := Unsigned(s);
    if t != [] && Digits(t) && Value(t) < TWO_128 then Some(Value(t)) else None
  }

  /** `Amount::from_human` */
  function FromHuman(s: string, decimals: nat): Result<Amount> {
    var t := Trim(s);
    if Pow10(decimals) >= TWO_128 then Err(TOO_LARGE)
    else
      var dot := FindDot(t);
      if dot < |t| then ParseParts(t[..dot], t[dot + 1..], decimals) else ParseWhole(t, decimals)
  }

  function ParseParts(integer: string, frac: string, decimals: nat): Result<Amount> {
    if |frac| > decimals then Err(TOO_MANY_PLACES)
    else
      var i := ParseInteger(integer);
      var f := ParseU128(PadRight(frac, decimals));
      if i.None? then Err(BAD_NUMBER)
      else if f.None? then Err(BAD_FRACTION)
      else Checked(i.value, Pow10(decimals), f.value, decimals)
  }

  function ParseInteger(integer: string): Option<nat> {
    if integer == [] then Some(0) else ParseU128(integer)
  }

  function ParseWhole(t: string, decimals: nat): Result<Amount> {
    match ParseU128(t)
    case None => Err(BAD_NUMBER)
    case Some(i) => Checked(i, Pow10(decimals), 0, decimals)
  }

  /** checked_mul, then checked_add. */
  function Checked(i: nat, factor: nat, f: nat, decimals: nat): Result<Amount> {
    if i * factor >= TWO_128 || i * factor + f >= TWO_128 then Err(OVERFLOW)
    else Ok(Amount(i * factor + f, decimals))
  }

  /** `Amount::to_human` */
  function ToHuman(a: Amount): string {
    if a.decimals == 0 then Print(a.raw)
    else
      var factor := Pow10(a.decimals);
      if factor >= TWO_128 then
        var trimmed := TrimZeros(PadLeft(Print(a.raw), a.decimals));
        if trimmed == [] then "0.0" else "0." + trimmed
      else
        ShowParts(a.raw / factor, a.raw % factor, a.decimals)
  }

  function ShowParts(integer: nat, fraction: nat, decimals: nat): string {
    if fraction == 0 then Print(integer) + ".0"
    else Print(integer) + "." + TrimZeros(PadLeft(Print(fraction), decimals))
  }

  // ----- strings of digits around a dot

  lemma {:induction false} DotAt(a: string, b: string)
    requires Digits(a)
    ensures FindDot(a + "." + b) == |a|
  {
    var s := a + "." + b;
    if a != [] {
      assert s[1..] == a[1..] + "." + b;
      DotAt(a[1..], b);
    }
  }

  lemma {:induction false} NoDot(a: string)
    requires forall j :: 0 <= j < |a| ==> a[j] != '.'
    ensures FindDot(a) == |a|
  {
    if a != [] {
      NoDot(a[1..]);
    }
  }

  /** Nothing to trim around digits. */
  lemma TrimDigits(s: string)
    requires s == [] || (IsDigit(s[0]) && IsDigit(s[|s| - 1]))
    ensures Trim(s) == s
  {
  }

  /** The printed fraction: at most `decimals` digits, padding back to the
      fraction's value. */
  lemma FractionDigits(fraction: nat, decimals: nat)
    requires 0 < fraction < Pow10(decimals) && decimals > 0
    ensures var f := TrimZeros(PadLeft(Print(fraction), decimals));
            && f != [] && Digits(f) && |f| <= decimals
            && Digits(PadRight(f, decimals)) && Value(PadRight(f, decimals)) == fraction
  {
    var padded := PadLeft(Print(fraction), decimals);
    PrintLength(fraction, decimals);
    PadLeftValue(Print(fraction), decimals);
    PrintValue(fraction);
    TrimThenPad(padded);
    TrimNonzero(padded);
  }

  // ----- the parser, exactly

  /** The fraction carries a sign of its own. */
  predicate SignedFraction(t: string) {
    FindDot(t) + 1 < |t| && t[FindDot(t) + 1] == '+'
  }

  /** Digits with an optional '+', a dot, at most `decimals` more digits; with
      no decimals there is no dot. */
  predicate NumeralParts(integer: string, frac: string, decimals: nat) {
    && Digits(Unsigned(integer)) && (integer == [] || Unsigned(integer) != [])
    && Digits(frac) && |frac| <= decimals && decimals > 0
  }

  /** All its digits read as one number, scaled by the missing places. */
  function ScaledParts(integer: string, frac: string, decimals: nat): nat
    requires NumeralParts(integer, frac, decimals)
  {
    ValueConcat(Unsigned(integer), frac);
    Value(Unsigned(integer) + frac) * Pow10(decimals - |frac|)
  }

  predicate NumeralWhole(t: string) {
    Digits(Unsigned(t)) && Unsigned(t) != []
  }

  /** The amount a string denotes, if it is a decimal numeral. */
  function Denoted(t: string, decimals: nat): Option<nat> {
    var dot := FindDot(t);
    if dot < |t| then
      if NumeralParts(t[..dot], t[dot + 1..], decimals) then Some(ScaledParts(t[..dot], t[dot + 1..], decimals)) else None
    else if NumeralWhole(t) then Some(Value(Unsigned(t)) * Pow10(decimals)) else None
  }

  /** Parsing is exact on every string whose fraction has no sign: it succeeds
      on the numerals whose scaled value fits a u128, with that value, and on
      nothing else. */
  lemma ParsesExactly(s: string, decimals: nat, raw: nat)
    requires !SignedFraction(Trim(s))
    ensures FromHuman(s, decimals) == Ok(Amount(raw, decimals)) <==>
            Pow10(decimals) < TWO_128 && Denoted(Trim(s), decimals) == Some(raw) && raw < TWO_128
  {
    hide NumeralParts, NumeralWhole, ScaledParts, ParseParts, ParseWhole;
    var t := Trim(s);
    var dot := FindDot(t);
    if Pow10(decimals) < TWO_128 {
      if dot < |t| {
        PartsExactly(t[..dot], t[dot + 1..], decimals, raw);
      } else {
        WholeExactly(t, decimals, raw);
      }
    }
  }

  lemma IntegerFits(i: nat, factor: nat, f: nat)
    requires factor > 0
    ensures i <= i * factor + f
  {
    MulAtLeast(factor, i);
    MulComm(factor, i);
  }

  lemma WholeExactly(t: string, decimals: nat, raw: nat)
    ensures ParseWhole(t, decimals) == Ok(Amount(raw, decimals)) <==>
            NumeralWhole(t) && raw == Value(Unsigned(t)) * Pow10(decimals) && raw < TWO_128
  {
    if NumeralWhole(t) {
      IntegerFits(Value(Unsigned(t)), Pow10(decimals), 0);
    }
  }

  lemma PartsExactly(integer: string, frac: string, decimals: nat, raw: nat)
    requires Pow10(decimals) < TWO_128 && (frac != [] ==> frac[0] != '+')
    ensures ParseParts(integer, frac, decimals) == Ok(Amount(raw, decimals)) <==>
            NumeralParts(integer, frac, decimals) && raw == ScaledParts(integer, frac, decimals) && raw < TWO_128
  {
    hide ParseU128, ParseInteger, PadRight, ScaledParts, Value;
    IntegerParses(integer);
    if |frac| <= decimals {
      FractionParses(frac, decimals);
      if NumeralParts(integer, frac, decimals) {
        var i := Value(Unsigned(integer));
        ScaledIs(integer, frac, decimals);
        IntegerFits(i, Pow10(decimals), Value(PadRight(frac, decimals)));
      }
    }
  }

  lemma ScaledIs(integer: string, frac: string, decimals: nat)
    requires NumeralParts(integer, frac, decimals)
    ensures Digits(PadRight(frac, decimals))
    ensures ScaledParts(integer, frac, decimals)
         == Value(Unsigned(integer)) * Pow10(decimals) + Value(PadRight(frac, decimals))
  {
    hide Unsigned, Value, PadRight, Pow10;
    PadRightValue(frac, decimals);
    ValueConcat(Unsigned(integer), frac);
    Rescale(Value(Unsigned(integer)), |frac|, Value(frac), decimals - |frac|);
  }

  lemma IntegerParses(integer: string)
    ensures ParseInteger(integer).Some? ==>
              Digits(Unsigned(integer)) && (integer == [] || Unsigned(integer) != [])
    ensures Digits(Unsigned(integer)) && (integer == [] || Unsigned(integer) != []) ==>
              ParseInteger(integer) == if Value(Unsigned(integer)) < TWO_128 then Some(Value(Unsigned(integer))) else None
  {
  }

  /** What the fraction parser accepts when there is no sign. */
  lemma FractionParses(frac: string, decimals: nat)
    requires |frac| <= decimals && Pow10(decimals) < TWO_128
    requires frac != [] ==> frac[0] != '+'
    ensures ParseU128(PadRight(frac, decimals)).Some? <==> Digits(frac) && decimals > 0
    ensures Digits(frac) && decimals > 0 ==>
              Digits(PadRight(frac, decimals)) && ParseU128(PadRight(frac, decimals)) == Some(Value(PadRight(frac, decimals)))
  {
    var p := PadRight(frac, decimals);
    assert frac == p[..|frac|];
    assert p != [] ==> p[0] != '+';
    if Digits(frac) {
      PadRightValue(frac, decimals);
      ValueBound(p);
    }
    assert Digits(p) ==> Digits(frac);
  }

  lemma Rescale(i: nat, k: nat, f: nat, places: nat)
    ensures (i * Pow10(k) + f) * Pow10(places) == i * Pow10(k + places) + f * Pow10(places)
  {
    hide Pow10;
    Pow10Add(k, places);
    Distribute(i, Pow10(k), f, Pow10(places));
  }

  lemma Distribute(i: nat, a: nat, f: nat, b: nat)
    ensures (i * a + f) * b == i * (a * b) + f * b
  {
  }

  // ----- the printer, and the round trip

  lemma DottedShape(i: string, f: string)
    requires i != [] && f != [] && Digits(i) && Digits(f)
    ensures var t := i + "." + f;
            && Trim(t) == t && !SignedFraction(t)
            && FindDot(t) == |i| && t[..|i|] == i && t[|i| + 1..] == f
  {
    hide FindDot;
    var t := i + "." + f;
    DotAt(i, f);
    assert IsDigit(i[0]) && IsDigit(f[0]) && IsDigit(f[|f| - 1]);
    assert t[0] == i[0] && t[|t| - 1] == f[|f| - 1] && t[|i| + 1] == f[0];
    TrimDigits(t);
  }

  /** I + "." + F is read back as I, then F. */
  lemma DenotedParts(i: string, f: string, decimals: nat)
    requires i != [] && f != [] && Digits(i) && Digits(f) && |f| <= decimals
    ensures var t := i + "." + f;
            && Trim(t) == t && !SignedFraction(t)
            && Digits(PadRight(f, decimals))
            && Denoted(t, decimals) == Some(Value(i) * Pow10(decimals) + Value(PadRight(f, decimals)))
  {
    hide ScaledParts, Value, PadRight, Pow10, Trim, FindDot, SignedFraction;
    DottedShape(i, f);
    assert IsDigit(i[0]);
    ScaledIs(i, f, decimals);
  }

  /** Both branches of the printer print quotient and remainder. */
  lemma HumanShape(a: Amount, i: nat, f: nat)
    requires a.raw < TWO_128 && a.decimals > 0
    requires a.raw == i * Pow10(a.decimals) + f && f < Pow10(a.decimals)
    ensures ToHuman(a) == Print(i) + "." + FractionString(f, a.decimals)
  {
    hide Print, TrimZeros, PadLeft;
    DivModUnique(a.raw, i, f, Pow10(a.decimals));
    if Pow10(a.decimals) >= TWO_128 {
      RemSmall(a.raw, Pow10(a.decimals));
      SmallRaw(a.raw, a.decimals);
    } else {
      assert Print(i) + ".0" == Print(i) + "." + "0";
    }
  }

  /** Printing is exact for every number of decimals: the string denotes
      raw / 10^decimals. */
  lemma PrintsExactly(a: Amount)
    requires a.raw < TWO_128
    ensures var t := ToHuman(a);
            Trim(t) == t && !SignedFraction(t) && Denoted(t, a.decimals) == Some(a.raw)
  {
    hide Print, Denoted, Trim, SignedFraction, FractionString, Pow10;
    if a.decimals == 0 {
      PrintsInteger(a.raw);
    } else {
      hide ToHuman;
      var i, f := Split(a.raw, Pow10(a.decimals));
      HumanShape(a, i, f);
      PrintsFraction(i, f, a.decimals);
    }
  }

  lemma Split(v: nat, n: nat) returns (q: nat, r: nat)
    requires 0 < n
    ensures v == q * n + r && r < n
  {
    q, r := v / n, v % n;
  }

  /** Below one unit the string is "0." and the fraction, zero included. */
  lemma SmallRaw(raw: nat, d: nat)
    requires d > 0 && raw < Pow10(d)
    ensures var trimmed := TrimZeros(PadLeft(Print(raw), d));
            (if trimmed == [] then "0.0" else "0." + trimmed) == Print(0) + "." + FractionString(raw, d)
  {
    assert Print(0) == "0";
    if raw == 0 {
      PadLeftValue("0", d);
      TrimAllZeros(d);
      assert PadLeft("0", d) == Zeros(d);
    } else {
      FractionDigits(raw, d);
    }
  }

  lemma {:induction false} TrimAllZeros(k: nat)
    ensures TrimZeros(Zeros(k)) == []
  {
    if k > 0 {
      assert Zeros(k)[..k - 1] == Zeros(k - 1);
      TrimAllZeros(k - 1);
    }
  }

  lemma PrintsInteger(raw: nat)
    ensures var t := Print(raw);
            Trim(t) == t && !SignedFraction(t) && Denoted(t, 0) == Some(raw)
  {
    var t := Print(raw);
    assert IsDigit(t[0]) && IsDigit(t[|t| - 1]);
    TrimDigits(t);
    NoDot(t);
    PrintValue(raw);
  }

  /** The digits after the dot. */
  function FractionString(fraction: nat, decimals: nat): string {
    if fraction == 0 then "0" else TrimZeros(PadLeft(Print(fraction), decimals))
  }

  lemma PrintsFraction(integer: nat, fraction: nat, d: nat)
    requires d > 0 && fraction < Pow10(d)
    ensures var t := Print(integer) + "." + FractionString(fraction, d);
            && Trim(t) == t && !SignedFraction(t)
            && Denoted(t, d) == Some(integer * Pow10(d) + fraction)
  {
    hide Denoted, Trim, SignedFraction, Print, TrimZeros, PadLeft, PadRight;
    var i, f := Print(integer), FractionString(fraction, d);
    PrintValue(integer);
    if fraction == 0 {
      PadRightValue(f, d);
      assert Value("0") == 0;
    } else {
      FractionDigits(fraction, d);
    }
    DenotedParts(i, f, d);
  }

  lemma DecimalsThatFit(d: nat)
    ensures Pow10(d) < TWO_128 <==> d <= 38
  {
    Pow10Is38(38);
    if d <= 38 {
      Pow10Mono(d, 38);
    } else {
      Pow10Mono(39, d);
    }
  }

  /** For every raw u128, printing then parsing at the same decimals returns
      the amount for 0 to 38 decimals, and beyond that the parser declines the
      decimals. */
  lemma RoundTrip(a: Amount)
    requires a.raw < TWO_128
    ensures FromHuman(ToHuman(a), a.decimals) == if a.decimals <= 38 then Ok(a) else Err(TOO_LARGE)
  {
    hide ToHuman, Denoted, ParseParts, ParseWhole;
    DecimalsThatFit(a.decimals);
    PrintsExactly(a);
    ParsesExactly(ToHuman(a), a.decimals, a.raw);
  }

  /** What a fraction with a sign of its own is taken for: the digits after the
      sign keep their places, so one place is lost. */
  lemma SignedFractionValue(frac: string, decimals: nat)
    requires frac != [] && frac[0] == '+' && |frac| <= decimals && Pow10(decimals) < TWO_128
    ensures var f := ParseU128(PadRight(frac, decimals));
            && (f.Some? <==> Digits(frac[1..]) && decimals > 1)
            && (f.Some? ==> f.value == Value(frac[1..]) * Pow10(decimals - |frac|))
  {
    var p, rest := PadRight(frac, decimals), frac[1..];
    PaddedTail(frac, decimals);
    hide PadRight, Value, Pow10;
    if Digits(rest) {
      PadRightValue(rest, decimals - 1);
      ValueBound(p[1..]);
      Pow10Mono(decimals - 1, decimals);
    }
  }

  /** Padding a signed fraction pads what follows the sign. */
  lemma PaddedTail(frac: string, width: nat)
    requires frac != [] && |frac| <= width
    ensures var p := PadRight(frac, width);
            && |p| == width && p[0] == frac[0] && p[1..] == PadRight(frac[1..], width - 1)
            && (Digits(p[1..]) ==> Digits(frac[1..]))
  {
    var p, rest := PadRight(frac, width), frac[1..];
    assert rest == p[1..][..|rest|];
  }

  /** The remaining strings, those with a sign after the dot, are no numerals;
      the parser accepts exactly those with digits after that sign, an accepted
      integer part and at least two decimals, and misses one place. */
  lemma SignedFractionsParse(s: string, decimals: nat, raw: nat)
    requires SignedFraction(Trim(s))
    ensures Denoted(Trim(s), decimals) == None
    ensures var t := Trim(s);
            var integer, frac := t[..FindDot(t)], t[FindDot(t) + 1..];
            FromHuman(s, decimals) == Ok(Amount(raw, decimals)) <==>
              && Pow10(decimals) < TWO_128 && 2 <= decimals && |frac| <= decimals
              && ParseInteger(integer).Some? && Digits(frac[1..])
              && raw == ParseInteger(integer).value * Pow10(decimals) + Value(frac[1..]) * Pow10(decimals - |frac|)
              && raw < TWO_128
  {
    hide ParseU128, ParseInteger, PadRight, Value;
    var t := Trim(s);
    var integer, frac := t[..FindDot(t)], t[FindDot(t) + 1..];
    assert frac[0] == '+' && !IsDigit(frac[0]);
    if Pow10(decimals) < TWO_128 && |frac| <= decimals {
      SignedFractionValue(frac, decimals);
    }
  }

  /** A sign after the dot is swallowed: "1.+5" is no numeral, yet parses, and
      not as 1.5. */
  lemma SignedFractionParses(d: nat)
    requires d == 2
    ensures Denoted("1.+5", d) == None && FromHuman("1.+5", d) == Ok(Amount(105, d))
  {
    var t := "1.+5";
    DotAt("1", "+5");
    assert t == "1" + "." + "+5";
    assert t[..1] == "1" && t[2..] == "+5";
    assert !IsDigit("+5"[0]);
    assert "+5"[1..] == "5" && Value("5") == 5 && Value("1") == 1;
    assert Trim(t) == t;
    assert Pow10(d) == 100;
  }

  // ----- the shape of strings

  /** The printed form is canonical: no leading zero, and a fraction that is "0"
      or does not end in one; without decimals there is no dot. */
  lemma PrintsCanonically(a: Amount) returns (whole: string, fraction: string)
    requires a.raw < TWO_128
    ensures whole != [] && Digits(whole) && (whole[0] == '0' ==> whole == "0")
    ensures if a.decimals == 0 then ToHuman(a) == whole
            else
              && ToHuman(a) == whole + "." + fraction && Digits(fraction) && 0 < |fraction| <= a.decimals
              && (fraction == "0" || fraction[|fraction| - 1] != '0')
  {
    if a.decimals == 0 {
      whole, fraction := Print(a.raw), "";
      PrintedStart(a.raw);
    } else {
      var i, f := Split(a.raw, Pow10(a.decimals));
      hide TrimZeros, PadLeft, ToHuman;
      HumanShape(a, i, f);
      whole, fraction := Print(i), FractionString(f, a.decimals);
      PrintedStart(i);
      if f != 0 {
        FractionDigits(f, a.decimals);
        TrimmedEnd(PadLeft(Print(f), a.decimals));
      }
    }
  }

  predicate Spaces(s: string) {
    forall i :: 0 <= i < |s| ==> IsSpace(s[i])
  }

  /** Trimming takes exactly the whitespace at both ends. */
  lemma {:induction false} TrimForm(s: string) returns (before: string, after: string)
    ensures s == before + Trim(s) + after && Spaces(before) && Spaces(after)
    ensures Trim(s) != [] ==> !IsSpace(Trim(s)[0]) && !IsSpace(Trim(s)[|Trim(s)| - 1])
  {
    hide IsSpace;
    before, after := "", "";
    if s != [] && IsSpace(s[0]) {
      before, after := TrimForm(s[1..]);
      before := [s[0]] + before;
    } else if s != [] && IsSpace(s[|s| - 1]) {
      before, after := TrimForm(s[..|s| - 1]);
      after := after + [s[|s| - 1]];
    }
  }

  /** Tab to carriage return and the space are whitespace; no character of a
      numeral is. */
  lemma SpacesAreNoNumerals(c: char)
    ensures '\t' <= c <= '\r' || c == ' ' ==> IsSpace(c)
    ensures IsDigit(c) || c == '+' || c == '.' ==> !IsSpace(c)
  {
  }

  /** An integer is accepted exactly as digits, or a plus sign and digits, that
      fit a u128; its value is that of the digits. */
  lemma IntegersParse(s: string, v: nat)
    ensures ParseU128(s) == Some(v) <==>
            exists t :: t != [] && Digits(t) && (s == t || s == "+" + t) && v == Value(t) && v < TWO_128
  {
    if ParseU128(s) == Some(v) {
      var t := Unsigned(s);
      assert s == t || s == "+" + t;
    }
    forall t | t != [] && Digits(t) && (s == t || s == "+" + t) && v == Value(t) && v < TWO_128
      ensures ParseU128(s) == Some(v)
    {
      assert IsDigit(t[0]);
      assert s == "+" + t ==> s[1..] == t;
    }
  }

  /** Why parsing fails, in order: too many decimals, too many places, no number
      before the dot, none after it, overflow. */
  lemma ParseErrors(s: string, decimals: nat)
    requires FromHuman(s, decimals).Err?
    ensures var t := Trim(s);
            var dot := FindDot(t);
            FromHuman(s, decimals).error ==
              if decimals > 38 then TOO_LARGE
              else if dot == |t| then if ParseU128(t).None? then BAD_NUMBER else OVERFLOW
              else if |t| - dot - 1 > decimals then TOO_MANY_PLACES
              else if dot > 0 && ParseU128(t[..dot]).None? then BAD_NUMBER
              else if ParseU128(PadRight(t[dot + 1..], decimals)).None? then BAD_FRACTION
              else OVERFLOW
  {
    DecimalsThatFit(decimals);
    hide Pow10, ParseU128, PadRight, Trim;
  }
}

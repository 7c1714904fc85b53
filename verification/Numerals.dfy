/** Decimal numerals: integer text, the split of a numeral into its parts, and
    the exact real number that a numeral denotes. */
module Numerals {
  import opened Options

  // ---- digit strings ----

  predicate IsDigit(c: char) { '0' <= c <= '9' }

  predicate AllDigits(s: string) {
    forall i :: 0 <= i < |s| ==> IsDigit(s[i])
  }

  function DigitOf(c: char): (d: int)
    requires IsDigit(c)
    ensures 0 <= d < 10
  {
    c as int - '0' as int
  }

  function DigitChar(d: int): (c: char)
    requires 0 <= d < 10
    ensures IsDigit(c) && DigitOf(c) == d
  {
    ('0' as int + d) as char
  }

  /** The natural number written by a digit string; the empty string is zero. */
  function Digits(s: string): nat
    requires AllDigits(s)
  {
    if s == [] then 0 else 10 * Digits(s[..|s| - 1]) + DigitOf(s[|s| - 1])
  }

  /** `str(n)` for a natural number. */
  function NatText(n: nat): (s: string)
    ensures s != [] && AllDigits(s)
  {
    if n < 10 then [DigitChar(n)] else NatText(n / 10) + [DigitChar(n % 10)]
  }

  /** `str(n)` for an integer. */
  function IntText(n: int): string {
    if n < 0 then "-" + NatText(-n) else NatText(n)
  }

  function Zeros(n: nat): (s: string)
    ensures |s| == n && AllDigits(s)
    ensures forall i :: 0 <= i < n ==> s[i] == '0'
  {
    if n == 0 then "" else Zeros(n - 1) + "0"
  }

  lemma {:induction false} DigitsOfNatText(n: nat)
    ensures Digits(NatText(n)) == n
  {
    if n >= 10 {
      DigitsOfNatText(n / 10);
      var s := NatText(n);
      assert s[..|s| - 1] == NatText(n / 10);
    }
  }

  lemma {:induction false} NatTextOfDigits(s: string)
    requires AllDigits(s) && s != [] && (s[0] != '0' || |s| == 1)
    ensures NatText(Digits(s)) == s
    ensures s[0] != '0' ==> Digits(s) > 0
  {
    var last := |s| - 1;
    if |s| > 1 {
      var front := s[..last];
      NatTextOfDigits(front);
      assert Digits(s) == 10 * Digits(front) + DigitOf(s[last]);
      assert Digits(s) / 10 == Digits(front) && Digits(s) % 10 == DigitOf(s[last]);
      assert s == front + [s[last]];
    }
  }

  lemma {:induction false} NatTextHead(n: nat)
    requires n > 0
    ensures NatText(n)[0] != '0'
  {
    if n >= 10 { NatTextHead(n / 10); }
  }

  lemma {:induction false} DigitsLeadingZeros(z: string, s: string)
    requires AllDigits(s) && forall i :: 0 <= i < |z| ==> z[i] == '0'
    ensures AllDigits(z + s) && Digits(z + s) == Digits(s)
  {
    if s == [] {
      assert z + s == z;
      if z != [] {
        DigitsLeadingZeros(z[..|z| - 1], []);
        assert z[..|z| - 1] + [] == z[..|z| - 1];
      }
    } else {
      var t := z + s;
      DigitsLeadingZeros(z, s[..|s| - 1]);
      assert t[..|t| - 1] == z + s[..|s| - 1];
    }
  }

  lemma DigitsTrailingZero(s: string)
    requires AllDigits(s)
    ensures AllDigits(s + "0") && Digits(s + "0") == 10 * Digits(s)
  {
    var t := s + "0";
    assert t[..|t| - 1] == s;
  }

  // ---- powers of ten and decimal values ----

  function PowNat(k: nat): (p: nat)
    ensures p >= 1
  {
    if k == 0 then 1 else 10 * PowNat(k - 1)
  }

  lemma {:induction false} PowNatAdd(a: nat, b: nat)
    ensures PowNat(a + b) == PowNat(a) * PowNat(b)
  {
    if a > 0 {
      PowNatAdd(a - 1, b);
      assert PowNat(a) == 10 * PowNat(a - 1) && PowNat(a + b) == 10 * PowNat(a - 1 + b);
      assert 10 * (PowNat(a - 1) * PowNat(b)) == (10 * PowNat(a - 1)) * PowNat(b);
    }
  }

  /** How many digits a natural number has, in terms of its size. */
  lemma {:induction false} NatTextLength(n: nat, k: nat)
    requires k > 0
    ensures |NatText(n)| <= k <==> n < PowNat(k)
  {
    if n >= 10 {
      if k == 1 {
        assert PowNat(1) == 10 * PowNat(0);
      } else {
        NatTextLength(n / 10, k - 1);
        assert n / 10 < PowNat(k - 1) <==> n < 10 * PowNat(k - 1);
      }
    } else {
      assert PowNat(k) == 10 * PowNat(k - 1);
    }
  }

  /** The number mantissa * 10^exponent. */
  datatype Decimal = Decimal(mantissa: int, exponent: int)

  /** Numerical equality of two scaled integers, over a common power of ten. */
  predicate SameNumber(a: Decimal, b: Decimal) {
    if a.exponent <= b.exponent
    then a.mantissa == b.mantissa * PowNat(b.exponent - a.exponent)
    else a.mantissa * PowNat(a.exponent - b.exponent) == b.mantissa
  }

  /** The representative of a number whose mantissa has no trailing zero. */
  function Normal(mantissa: int, exponent: int): Decimal
    decreases if mantissa < 0 then -mantissa else mantissa
  {
    if mantissa == 0 then Decimal(0, 0)
    else if mantissa % 10 == 0 then Normal(mantissa / 10, exponent + 1)
    else Decimal(mantissa, exponent)
  }

  lemma NormalTimesTen(m: int, e: int)
    ensures Normal(10 * m, e) == Normal(m, e + 1)
  {
  }

  lemma {:induction false} NormalScale(m: int, k: nat, e: int)
    ensures Normal(m * PowNat(k), e) == Normal(m, e + k)
  {
    if k > 0 {
      NormalScale(m, k - 1, e + 1);
      assert m * PowNat(k) == 10 * (m * PowNat(k - 1));
      NormalTimesTen(m * PowNat(k - 1), e);
    }
  }

  /** What `Normal` divided out is a power of ten. */
  lemma {:induction false} NormalDivides(m: int, e: int)
    requires m != 0
    ensures var d := Normal(m, e);
      && d.exponent >= e && d.mantissa % 10 != 0
      && m == d.mantissa * PowNat(d.exponent - e)
    decreases if m < 0 then -m else m
  {
    if m % 10 == 0 {
      NormalDivides(m / 10, e + 1);
      var d := Normal(m, e);
      var k := d.exponent - e;
      assert PowNat(k) == 10 * PowNat(k - 1);
      assert d.mantissa * (10 * PowNat(k - 1)) == 10 * (d.mantissa * PowNat(k - 1));
    }
  }

  /** Stripped mantissa plus exponent are a unique representation: two scaled
      integers are the same number exactly when they have the same normal form. */
  lemma NormalIsUnique(a: Decimal, b: Decimal)
    ensures SameNumber(a, b) <==> Normal(a.mantissa, a.exponent) == Normal(b.mantissa, b.exponent)
  {
    if a.exponent <= b.exponent {
      NormalIsUniqueOrdered(a, b);
    } else {
      NormalIsUniqueOrdered(b, a);
    }
  }

  lemma NormalIsUniqueOrdered(a: Decimal, b: Decimal)
    requires a.exponent <= b.exponent
    ensures a.mantissa == b.mantissa * PowNat(b.exponent - a.exponent)
       <==> Normal(a.mantissa, a.exponent) == Normal(b.mantissa, b.exponent)
  {
    var k := b.exponent - a.exponent;
    NormalScale(b.mantissa, k, a.exponent);
    var d := Normal(b.mantissa, b.exponent);
    if Normal(a.mantissa, a.exponent) == d {
      if a.mantissa == 0 {
        if b.mantissa != 0 { NormalDivides(b.mantissa, b.exponent); }
      } else {
        NormalDivides(a.mantissa, a.exponent);
        assert b.mantissa != 0;
        NormalDivides(b.mantissa, b.exponent);
        var j := d.exponent - b.exponent;
        PowNatAdd(j, k);
        MulAssoc(d.mantissa, PowNat(j), PowNat(k));
      }
    }
  }

  lemma MulAssoc(x: int, y: int, z: int)
    ensures x * (y * z) == (x * y) * z
  {
  }

  /** Digits with neither a leading nor a trailing zero. */
  predicate Stripped(s: string) {
    AllDigits(s) && s != [] && s[0] != '0' && s[|s| - 1] != '0'
  }

  // ---- numerals ----

  function IndexOf(s: string, c: char): (i: nat)
    ensures i <= |s| && c !in s[..i]
    ensures i < |s| ==> s[i] == c
  {
    if s == [] || s[0] == c then 0
    else
      var i := 1 + IndexOf(s[1..], c);
      assert s[..i] == [s[0]] + s[1..][..i - 1];
      i
  }

  lemma IndexOfAbsent(s: string, c: char)
    requires c !in s
    ensures IndexOf(s, c) == |s|
  {
  }

  lemma {:induction false} IndexOfSplit(a: string, c: char, b: string)
    requires c !in a
    ensures IndexOf(a + [c] + b, c) == |a|
  {
    if a != [] {
      assert a[0] in a;
      IndexOfSplit(a[1..], c, b);
      assert (a + [c] + b)[1..] == a[1..] + [c] + b;
    }
  }

  /** `int(text)` for an optionally signed digit string. */
  function ParseInt(text: string): int
    requires IsSignedDigits(text)
  {
    if text[0] == '-' then -(Digits(text[1..]) as int)
    else if text[0] == '+' then Digits(text[1..])
    else Digits(text)
  }

  predicate IsSignedDigits(text: string) {
    text != [] &&
    if text[0] == '-' || text[0] == '+' then |text| > 1 && AllDigits(text[1..]) else AllDigits(text)
  }

  /** Sign, whole digits, fraction digits and power of ten of a numeral. */
  datatype Parts = Parts(negative: bool, whole: string, fraction: string, exponent: int)

  /** The text before the first occurrence of `c` (`str.partition`). */
  function Before(s: string, c: char): string { s[..IndexOf(s, c)] }

  /** The text after the first occurrence of `c`, empty when there is none. */
  function After(s: string, c: char): string {
    var i := IndexOf(s, c);
    if i < |s| then s[i + 1..] else ""
  }

  function Unsigned(text: string): string {
    if text != [] && text[0] == '-' then text[1..] else text
  }

  /** Reads an optional minus, digits, optional point and digits, optional `e`
      and a signed power: the texts of Python's float `repr` and of JSON numbers. */
  function Scan(text: string): (r: Option<Parts>)
    ensures r.Some? ==> AllDigits(r.value.whole) && AllDigits(r.value.fraction) && r.value.whole != ""
  {
    var body := Unsigned(text);
    var mantissa := Before(body, 'e');
    var whole, fraction, power := Before(mantissa, '.'), After(mantissa, '.'), After(body, 'e');
    if whole == [] || !AllDigits(whole) || !AllDigits(fraction) then None
    else if 'e' in body && !IsSignedDigits(power) then None
    else Some(Parts(text != [] && text[0] == '-', whole, fraction,
                    if 'e' in body then ParseInt(power) else 0))
  }

  predicate IsNumeral(text: string) { Scan(text).Some? }

  function Signed(negative: bool, n: nat): int { if negative then -(n as int) else n }

  function PartsValue(p: Parts): Decimal
    requires AllDigits(p.whole) && AllDigits(p.fraction)
  {
    Normal(Signed(p.negative, Digits(p.whole + p.fraction)), p.exponent - |p.fraction|)
  }

  lemma PartsNumber(p: Parts, n: nat, e: int)
    requires AllDigits(p.whole) && AllDigits(p.fraction)
    requires Digits(p.whole + p.fraction) == n && e == p.exponent - |p.fraction|
    ensures PartsValue(p) == Normal(Signed(p.negative, n), e)
  {
  }

  /** The exact number that a numeral denotes. */
  function Value(text: string): Decimal
    requires IsNumeral(text)
  {
    PartsValue(Scan(text).value)
  }

  /** Writes a numeral from its parts; `power` is empty or a signed digit string. */
  function Compose(negative: bool, whole: string, fraction: string, power: string): string {
    (if negative then "-" else "") + whole
    + (if fraction == "" then "" else "." + fraction)
    + (if power == "" then "" else "e" + power)
  }

  function PowerOf(power: string): int
    requires power == "" || IsSignedDigits(power)
  {
    if power == "" then 0 else ParseInt(power)
  }

  lemma ScanCompose(negative: bool, whole: string, fraction: string, power: string)
    requires AllDigits(whole) && whole != "" && AllDigits(fraction)
    requires power == "" || IsSignedDigits(power)
    ensures Scan(Compose(negative, whole, fraction, power)) == Some(Parts(negative, whole, fraction, PowerOf(power)))
  {
    var t := Compose(negative, whole, fraction, power);
    var mantissa := whole + (if fraction == "" then "" else "." + fraction);
    var body := mantissa + (if power == "" then "" else "e" + power);
    assert t == (if negative then "-" else "") + body;
    assert body[0] == whole[0];
    assert Unsigned(t) == body;
    SplitMantissa(whole, fraction);
    SplitBody(mantissa, power);
  }

  lemma SplitBody(mantissa: string, power: string)
    requires 'e' !in mantissa
    ensures var body := mantissa + (if power == "" then "" else "e" + power);
      && Before(body, 'e') == mantissa
      && ('e' in body <==> power != "")
      && (power != "" ==> After(body, 'e') == power)
  {
    var body := mantissa + (if power == "" then "" else "e" + power);
    if power == "" {
      assert body == mantissa;
      IndexOfAbsent(body, 'e');
    } else {
      assert body == mantissa + ['e'] + power;
      IndexOfSplit(mantissa, 'e', power);
      assert body[|mantissa|] == 'e';
    }
  }

  lemma SplitMantissa(whole: string, fraction: string)
    requires AllDigits(whole) && AllDigits(fraction)
    ensures var m := whole + (if fraction == "" then "" else "." + fraction);
      Before(m, '.') == whole && After(m, '.') == fraction && 'e' !in m
  {
    if fraction == "" {
      assert whole + "" == whole;
      IndexOfAbsent(whole, '.');
    } else {
      var m := whole + "." + fraction;
      assert whole + ("." + fraction) == m;
      IndexOfSplit(whole, '.', fraction);
      assert m[|whole| + 1..] == fraction;
    }
  }

  lemma IntTextCompose(n: int)
    ensures IntText(n) == Compose(n < 0, NatText(if n < 0 then -n else n), "", "")
  {
  }

  lemma ScannedValue(t: string, p: Parts, n: nat, e: int)
    requires Scan(t) == Some(p)
    requires Digits(p.whole + p.fraction) == n && e == p.exponent - |p.fraction|
    ensures IsNumeral(t) && Value(t) == Normal(Signed(p.negative, n), e)
  {
    PartsNumber(p, n, e);
  }

  /** The value of a numeral, from the parts it was written from. */
  lemma ComposeValue(negative: bool, whole: string, fraction: string, power: string, n: nat, e: int)
    requires AllDigits(whole) && whole != "" && AllDigits(fraction)
    requires power == "" || IsSignedDigits(power)
    requires Digits(whole + fraction) == n && e == PowerOf(power) - |fraction|
    ensures IsNumeral(Compose(negative, whole, fraction, power))
    ensures Value(Compose(negative, whole, fraction, power)) == Normal(Signed(negative, n), e)
  {
    ScanCompose(negative, whole, fraction, power);
    ScannedValue(Compose(negative, whole, fraction, power), Parts(negative, whole, fraction, PowerOf(power)), n, e);
  }

  lemma IntTextNumeral(n: int)
    ensures IsNumeral(IntText(n)) && Value(IntText(n)) == Normal(n, 0)
  {
    var m: nat := if n < 0 then -n else n;
    IntTextCompose(n);
    DigitsOfNatText(m);
    assert NatText(m) + "" == NatText(m);
    ComposeValue(n < 0, NatText(m), "", "", m, 0);
    assert Signed(n < 0, m) == n;
  }
}
